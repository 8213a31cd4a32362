/**
 * The three searches over the friendship graph: the shortest chain of
 * friends between two people, the cliques of a school, and the
 * connectors found by depth-first search.
 */
module Friends {
  import opened Wrappers
  import opened Ascii
  import opened FriendGraph
  import opened SchoolGroups
  import opened DepthFirst

  /**
   * Breadth-first search from p1 until p2 comes off the queue, then the
   * chain back to p1 through the parent array, pushed on a stack and
   * popped into the result. The same name twice gives None; an unknown
   * p1 is the caller's fault (the source dereferences its index); an
   * unknown or unreachable p2 gives None. The ghost path is the chain as
   * member indexes.
   */
  method ShortestChain(g: Graph, p1: string, p2: string) returns (r: Option<seq<string>>, ghost path: seq<nat>)
    requires WellFormed(g)
    requires Lower(p1) != Lower(p2) ==> Lower(p1) in g.nameIndex
    ensures Lower(p1) == Lower(p2) ==> r == None
    ensures r.Some? ==> IsChain(g, path, Lower(p1), Lower(p2)) && r.value == NamesOf(g, path)
    ensures r.Some? ==> forall other :: IsChain(g, other, Lower(p1), Lower(p2)) ==> |path| <= |other|
    ensures r.None? && Lower(p1) != Lower(p2) ==> forall other :: !IsChain(g, other, Lower(p1), Lower(p2))
  {
    var P1, P2 := Lower(p1), Lower(p2);
    if P1 == P2 {
      return None, [];
    }
    var n := |g.members|;
    var visited := new int[n](_ => 0);
    var parent := new int[n](_ => -1);
    var src := g.nameIndex[P1];
    var q: seq<nat> := [src];
    var head := 0;
    visited[src] := 1;
    ghost var dist: seq<nat> := seq(n, _ => 0);
    BfsStart(g, src, visited[..], parent[..], dist);
    while head < |q|
      invariant BfsQueue(g, src, visited[..], parent[..], dist, q, head)
      invariant head < |q| ==> Frontier(q, dist, dist[q[head]] + 1)
      invariant NoneNamed(g, q[..head], P2)
      decreases Unvisited(visited[..]), |q| - head
    {
      var ptr := q[head];
      if g.members[ptr].name == P2 {
        r, path := Rebuild(g, P1, src, ptr, visited, parent, dist, q, head);
        return;
      }
      ghost var q0 := q;
      q, dist := ScanFriends(g, src, ptr, visited, parent, dist, q, head);
      NoneNamedStep(g, q0, q, head, P2);
      head := head + 1;
    }
    assert q[..head] == q;
    NoChainLeft(g, src, visited[..], parent[..], dist, q, P1, P2);
    return None, [];
  }

  /**
   * Scans ptr's friend list (the source reads the first friend, then
   * follows the rest of the list), enqueuing each friend not yet visited,
   * marking it and recording ptr as its parent. ptr, at the head of the
   * queue, is then done.
   */
  method ScanFriends(g: Graph, src: nat, ptr: nat, visited: array<int>, parent: array<int>, ghost dist0: seq<nat>,
                     q0: seq<nat>, head: nat)
    returns (q: seq<nat>, ghost dist: seq<nat>)
    modifies visited, parent
    requires visited != parent
    requires WellFormed(g) && BfsQueue(g, src, visited[..], parent[..], dist0, q0, head)
    requires head < |q0| && ptr == q0[head] && Frontier(q0, dist0, dist0[ptr] + 1)
    ensures BfsQueue(g, src, visited[..], parent[..], dist, q, head + 1)
    ensures head + 1 < |q| ==> Frontier(q, dist, dist[q[head + 1]] + 1)
    ensures q0 <= q
    ensures |q| == |q0| ==> Unvisited(visited[..]) == Unvisited(old(visited[..]))
    ensures |q| > |q0| ==> Unvisited(visited[..]) < Unvisited(old(visited[..]))
  {
    q, dist := q0, dist0;
    ghost var unvisited0 := Unvisited(visited[..]);
    var k := 0;
    while k < |g.adj[ptr]|
      invariant BfsQueue(g, src, visited[..], parent[..], dist, q, head)
      invariant Frontier(q, dist, dist[ptr] + 1) && Scanned(g, q, dist, ptr, k)
      invariant q0 <= q && dist[ptr] == dist0[ptr]
      invariant |q| == |q0| ==> Unvisited(visited[..]) == unvisited0
      invariant |q| > |q0| ==> Unvisited(visited[..]) < unvisited0
      decreases |g.adj[ptr]| - k
    {
      var f := g.adj[ptr][k];
      if visited[f] == 0 {
        ghost var vis1, par1 := visited[..], parent[..];
        BfsEnqueue(g, src, vis1, par1, dist, q, head, ptr, k);
        MarkVisited(vis1, f);
        q := q + [f];
        visited[f] := 1;
        parent[f] := ptr;
        dist := dist[f := dist[ptr] + 1];
        assert visited[..] == vis1[f := 1] && parent[..] == par1[f := ptr];
        StrictChain(Unvisited(visited[..]), Unvisited(vis1), unvisited0);
      } else {
        BfsSkip(g, src, visited[..], parent[..], dist, q, head, ptr, k);
      }
      k := k + 1;
    }
    BfsFinishScan(g, src, visited[..], parent[..], dist, q, head, ptr);
  }

  /**
   * The cliques of school: for each student not yet in a clique, in
   * member order, a breadth-first search through friends at the same
   * school collects a clique. The ghost groups are the cliques as member
   * indexes.
   */
  method Cliques(g: Graph, school: string) returns (cliques: seq<seq<string>>, ghost groups: seq<seq<nat>>)
    requires WellFormed(g) && Symmetric(g)
    ensures NamedGroups(g, cliques, groups)
    ensures Partition(g, school, groups)
    ensures cliques == [] <==> forall v :: 0 <= v < |g.members| ==> !AtSchool(g, v, school)
  {
    var n := |g.members|;
    var visited := new int[n](_ => 0);
    cliques, groups := [], [];
    ghost var owner: seq<int> := seq(n, _ => -1);
    for i := 0 to n
      invariant Grouped(g, school, groups, owner) && OuterMarks(g, school, visited[..], owner, i)
      invariant CoveredBelow(g, school, owner, i) && NamedGroups(g, cliques, groups)
    {
      if g.members[i].school.None? || g.members[i].school.value != school {
        OuterSkip(g, school, visited[..], owner, i);
        visited[i] := 1;
      } else if visited[i] == 0 {
        var q, a, wit := CliqueFrom(g, school, i, visited, groups, owner);
        CliqueClose(g, school, groups, owner, i, visited[..], q, wit);
        NamedAppend(g, cliques, groups, a, q);
        owner := NewOwner(owner, q, |groups|);
        cliques, groups := cliques + [a], groups + [q];
      } else {
        OuterVisited(g, school, visited[..], owner, i);
      }
    }
    GroupedPartition(g, school, groups, owner);
    NoCliques(g, school, groups);
  }

  /** The breadth-first search that collects the clique of student i. */
  method CliqueFrom(g: Graph, school: string, i: nat, visited: array<int>, ghost groups: seq<seq<nat>>, ghost owner: seq<int>)
    returns (q: seq<nat>, a: seq<string>, ghost wit: seq<seq<nat>>)
    modifies visited
    requires WellFormed(g) && Symmetric(g) && Grouped(g, school, groups, owner)
    requires OuterMarks(g, school, visited[..], owner, i) && AtSchool(g, i, school) && visited[i] == 0
    ensures CliqueQueue(g, school, owner, i, visited[..], q, wit, |q|) && a == NamesOf(g, q)
  {
    CliqueStart(g, school, groups, owner, i, visited[..]);
    q := [i];
    visited[i] := 1;
    a := [g.members[i].name];
    wit := [[i]];
    var head := 0;
    while head < |q|
      invariant CliqueQueue(g, school, owner, i, visited[..], q, wit, head) && a == NamesOf(g, q)
      decreases Unvisited(visited[..]), |q| - head
    {
      var ptr := q[head];
      q, a, wit := ScanSchoolFriends(g, school, ptr, visited, groups, owner, i, q, a, wit, head);
      head := head + 1;
    }
  }

  /**
   * Scans ptr's friend list (first friend, then the rest), enqueuing and
   * naming each friend at the school not yet visited.
   */
  method ScanSchoolFriends(g: Graph, school: string, ptr: nat, visited: array<int>, ghost groups: seq<seq<nat>>,
                           ghost owner: seq<int>, ghost i: nat, q0: seq<nat>, a0: seq<string>, ghost wit0: seq<seq<nat>>,
                           ghost done: nat)
    returns (q: seq<nat>, a: seq<string>, ghost wit: seq<seq<nat>>)
    modifies visited
    requires WellFormed(g) && Symmetric(g) && Grouped(g, school, groups, owner)
    requires CliqueQueue(g, school, owner, i, visited[..], q0, wit0, done) && done < |q0| && ptr == q0[done]
    requires a0 == NamesOf(g, q0)
    ensures CliqueQueue(g, school, owner, i, visited[..], q, wit, done + 1) && a == NamesOf(g, q)
    ensures q0 <= q
    ensures |q| == |q0| ==> Unvisited(visited[..]) == Unvisited(old(visited[..]))
    ensures |q| > |q0| ==> Unvisited(visited[..]) < Unvisited(old(visited[..]))
  {
    q, a, wit := q0, a0, wit0;
    ghost var unvisited0 := Unvisited(visited[..]);
    var k := 0;
    while k < |g.adj[ptr]|
      invariant CliqueQueue(g, school, owner, i, visited[..], q, wit, done) && a == NamesOf(g, q)
      invariant SchoolScanned(g, school, owner, q, ptr, k)
      invariant q0 <= q
      invariant |q| == |q0| ==> Unvisited(visited[..]) == unvisited0
      invariant |q| > |q0| ==> Unvisited(visited[..]) < unvisited0
      decreases |g.adj[ptr]| - k
    {
      var f := g.adj[ptr][k];
      if g.members[f].school.Some? && visited[f] == 0 && g.members[f].school.value == school {
        CliqueEnqueue(g, school, owner, i, visited[..], q, wit, done, ptr, k);
        MarkVisited(visited[..], f);
        NamesAppend(g, q, f);
        q := q + [f];
        visited[f] := 1;
        a := a + [g.members[f].name];
        wit := wit + [wit[done] + [f]];
      } else {
        CliqueSkip(g, school, owner, i, visited[..], q, wit, done, ptr, k);
      }
      k := k + 1;
    }
    CliqueFinishScan(g, school, groups, owner, i, visited[..], q, wit, done, ptr);
  }

  /** The stack and pop loops that turn the parent array into the chain from src to ptr. */
  method Rebuild(g: Graph, P1: string, src: nat, ptr: nat, visited: array<int>, parent: array<int>, ghost dist: seq<nat>,
                 ghost q: seq<nat>, ghost head: nat)
    returns (r: Option<seq<string>>, ghost path: seq<nat>)
    requires WellFormed(g) && BfsQueue(g, src, visited[..], parent[..], dist, q, head)
    requires head < |q| && ptr == q[head] && g.members[src].name == P1
    ensures r.Some? && IsChain(g, path, P1, g.members[ptr].name) && r.value == NamesOf(g, path)
    ensures forall other :: IsChain(g, other, P1, g.members[ptr].name) ==> |path| <= |other|
  {
    var s := PushParents(g, P1, src, ptr, parent, dist, q);
    var arra := PopNames(g, s);
    path := Reverse(s);
    ReversedStack(g, s);
    r := Some(arra);
    forall other | IsChain(g, other, P1, g.members[ptr].name)
      ensures |path| <= |other|
    {
      NamedMember(g, other[0], P1);
      NamedMember(g, other[|other| - 1], g.members[ptr].name);
      BfsShortest(g, src, visited[..], parent[..], dist, q, head, other);
    }
  }

  /**
   * Pushes ptr, its parent, its parent's parent, ... until the member
   * named P1 is on top: the stack then reads, bottom to top, a walk
   * backwards along friendships from ptr to src, one member per
   * friendship of ptr's distance.
   */
  method PushParents(g: Graph, P1: string, src: nat, ptr: nat, parent: array<int>, ghost dist: seq<nat>, ghost q: seq<nat>)
    returns (s: seq<nat>)
    requires WellFormed(g) && QueueLevels(g, src, parent[..], dist, q)
    requires ptr in q && g.members[src].name == P1
    ensures |s| == dist[ptr] + 1 && s[0] == ptr && s[|s| - 1] == src
    ensures forall j :: 0 <= j < |s| ==> s[j] < |g.members|
    ensures forall j :: 0 <= j < |s| - 1 ==> s[j] in g.adj[s[j + 1]]
  {
    s := [];
    var cur: int := ptr;
    while s == [] || g.members[s[|s| - 1]].name != P1
      invariant forall j :: 0 <= j < |s| ==> s[j] < |g.members| && s[j] in q && dist[s[j]] + j == dist[ptr]
      invariant s == [] ==> cur == ptr
      invariant s != [] ==> s[0] == ptr && cur == parent[s[|s| - 1]]
      invariant forall j :: 0 <= j < |s| - 1 ==> s[j] in g.adj[s[j + 1]]
      invariant |s| <= dist[ptr] + 1
      decreases dist[ptr] + 1 - |s|
    {
      if s != [] {
        var top := s[|s| - 1];
        assert g.members[top].name != g.members[src].name;
      }
      StackStep(g, src, parent[..], dist, q, ptr, s, cur);
      s := s + [cur];
      cur := parent[cur];
    }
    NamedMember(g, s[|s| - 1], P1);
  }

  /** Pushing cur, the parent of the stack's top, keeps the stack a walk towards src. */
  lemma StackStep(g: Graph, src: nat, par: seq<int>, dist: seq<nat>, q: seq<nat>, ptr: nat, s: seq<nat>, cur: int)
    requires WellFormed(g) && QueueLevels(g, src, par, dist, q)
    requires s == [] ==> cur == ptr && ptr in q
    requires ptr < |dist| && forall j :: 0 <= j < |s| ==> s[j] < |g.members| && s[j] in q && dist[s[j]] + j == dist[ptr]
    requires s != [] ==> cur == par[s[|s| - 1]] && s[|s| - 1] != src
    requires s != [] ==> s[0] == ptr
    requires forall j :: 0 <= j < |s| - 1 ==> s[j] in g.adj[s[j + 1]]
    ensures 0 <= cur < |par| && |s| + 1 <= dist[ptr] + 1
    ensures var s' := s + [cur];
      (forall j :: 0 <= j < |s'| ==> s'[j] < |g.members| && s'[j] in q && dist[s'[j]] + j == dist[ptr]) &&
      s'[0] == ptr && (forall j :: 0 <= j < |s'| - 1 ==> s'[j] in g.adj[s'[j + 1]])
  {
    ParentStep(g, src, par, dist, q, ptr, s, cur);
    var s' := s + [cur];
    forall j | 0 <= j < |s'| - 1
      ensures s'[j] in g.adj[s'[j + 1]]
    {
      if j < |s| - 1 {
        assert s'[j] == s[j] && s'[j + 1] == s[j + 1];
      }
    }
  }

  /** Pops the whole stack, top first, into a list of names. */
  method PopNames(g: Graph, s0: seq<nat>) returns (arra: seq<string>)
    requires forall j :: 0 <= j < |s0| ==> s0[j] < |g.members|
    ensures arra == NamesOf(g, Reverse(s0))
  {
    var s := s0;
    arra := [];
    while s != []
      invariant s == s0[..|s|]
      invariant arra == NamesOf(g, Reverse(s0[|s|..]))
      decreases |s|
    {
      assert s0[|s| - 1..] == [s0[|s| - 1]] + s0[|s|..];
      arra := arra + [g.members[s[|s| - 1]].name];
      s := s[..|s| - 1];
    }
    assert s0[0..] == s0;
  }

  /** A stack whose every member is a friend of the one above it reads, reversed, as a walk. */
  lemma ReversedStack(g: Graph, s: seq<nat>)
    requires |g.adj| == |g.members| && |s| >= 1
    requires forall j :: 0 <= j < |s| ==> s[j] < |g.members|
    requires forall j :: 0 <= j < |s| - 1 ==> s[j] in g.adj[s[j + 1]]
    ensures IsPath(g, Reverse(s))
  {
    var p := Reverse(s);
    forall k | 0 <= k < |p| - 1
      ensures p[k + 1] in g.adj[p[k]]
    {
      assert p[k + 1] == s[|s| - 2 - k] && p[k] == s[|s| - 1 - (k)] == s[(|s| - 2 - k) + 1];
    }
  }

  /**
   * Depth-first search from every unvisited member in index order, then
   * the names of the members whose connector mark is 1, in index order.
   * The ghost results are the final dfsnum, back, origin and connector
   * arrays.
   */
  method Connectors(g: Graph) returns (answer: seq<string>, ghost numbering: seq<int>, ghost backs: seq<int>,
                                       ghost origins: seq<int>, ghost marks: seq<int>)
    requires WellFormed(g)
    ensures |numbering| == |backs| == |origins| == |marks| == |g.members|
    ensures forall v :: 0 <= v < |g.members| ==> 1 <= numbering[v] <= |g.members|
    ensures forall v, w :: 0 <= v < w < |g.members| ==> numbering[v] != numbering[w]
    ensures forall v :: 0 <= v < |g.members| ==> 1 <= backs[v] <= numbering[v]
    ensures forall w :: 0 <= w < |g.members| && origins[w] != -1 ==>
              0 <= origins[w] < |g.members| && w in g.adj[origins[w]] && numbering[origins[w]] < numbering[w]
    ensures forall v :: 0 <= v < |g.members| ==> RuleHolds(origins, numbering, backs, marks, v)
    ensures forall v :: 0 <= v < |g.members| ==> LowPoint(g, origins, numbering, backs, v)
    ensures answer == NamesOf(g, FlaggedIndexes(marks))
    ensures forall i, j :: 0 <= i < j < |answer| ==> answer[i] != answer[j]
  {
    var dfsnum, back, origin, connector := SearchMembers(g);
    answer := MarkedNames(g, connector);
    numbering, backs, origins, marks := dfsnum[..], back[..], origin[..], connector[..];
    IncreasingNamesDistinct(g, FlaggedIndexes(marks));
  }

  /**
   * The first part of connectors: fresh dfsnum, back, visited, origin and
   * connector arrays (origin all -1, the others 0) and the counter at 1,
   * then the search from every unvisited member in index order; the
   * arrays it leaves.
   */
  method SearchMembers(g: Graph) returns (dfsnum: array<int>, back: array<int>, origin: array<int>, connector: array<int>)
    requires WellFormed(g)
    ensures dfsnum.Length == back.Length == origin.Length == connector.Length == |g.members|
    ensures forall v :: 0 <= v < |g.members| ==> 1 <= dfsnum[v] <= |g.members|
    ensures forall v, w :: 0 <= v < w < |g.members| ==> dfsnum[v] != dfsnum[w]
    ensures forall v :: 0 <= v < |g.members| ==> 1 <= back[v] <= dfsnum[v]
    ensures forall w :: 0 <= w < |g.members| && origin[w] != -1 ==>
              0 <= origin[w] < |g.members| && w in g.adj[origin[w]] && dfsnum[origin[w]] < dfsnum[w]
    ensures forall v :: 0 <= v < |g.members| ==> RuleHolds(origin[..], dfsnum[..], back[..], connector[..], v)
    ensures forall v :: 0 <= v < |g.members| ==> LowPoint(g, origin[..], dfsnum[..], back[..], v)
  {
    var n := |g.members|;
    dfsnum := new int[n](_ => 0);
    back := new int[n](_ => 0);
    var visited := new int[n](_ => 0);
    origin := new int[n](_ => -1);
    connector := new int[n](_ => 0);
    var count := new int[1](_ => 1);
    SearchStart(g, visited[..], origin[..], dfsnum[..], back[..], connector[..]);
    ghost var order := SearchAll(g, visited, origin, count, dfsnum, back, connector);
    SearchDone(g, visited[..], origin[..], dfsnum[..], back[..], connector[..], count[0], order);
  }

  /** Searches from every member still unvisited, in index order. */
  method SearchAll(g: Graph, visited: array<int>, origin: array<int>, count: array<int>,
                   dfsnum: array<int>, back: array<int>, connector: array<int>)
    returns (ghost order: seq<nat>)
    requires Separate(visited, origin, count, dfsnum, back, connector)
    requires WellFormed(g) && count.Length == 1
    requires DfsState(g, visited[..], origin[..], dfsnum[..], back[..], connector[..], count[0], [], -1)
    modifies visited, origin, count, dfsnum, back, connector
    ensures DfsState(g, visited[..], origin[..], dfsnum[..], back[..], connector[..], count[0], order, -1)
    ensures forall v :: 0 <= v < |g.members| ==> visited[v] != 0
    ensures SettledIn(g, origin[..], dfsnum[..], back[..], connector[..], order, 0, |order|)
  {
    order := [];
    for i := 0 to |g.members|
      invariant DfsState(g, visited[..], origin[..], dfsnum[..], back[..], connector[..], count[0], order, -1)
      invariant SettledIn(g, origin[..], dfsnum[..], back[..], connector[..], order, 0, |order|)
      invariant VisitedBelow(visited[..], i)
    {
      if visited[i] == 0 {
        ghost var vis0, origin0, num0, back0, conn0, count0 := visited[..], origin[..], dfsnum[..], back[..], connector[..], count[0];
        ghost var order0 := order;
        order := Dfs(i, visited, origin, g, count, dfsnum, back, connector, order);
        NoOriginOutside(g, visited[..], origin[..], dfsnum[..], back[..], connector[..], count[0], order);
        RootCall(g, vis0, origin0, num0, back0, conn0, count0, order0, i,
                 origin[..], dfsnum[..], back[..], connector[..], order);
        VisitedThrough(vis0, visited[..], i);
      }
    }
  }

  /** The names of the members whose connector mark is 1, in index order. */
  method MarkedNames(g: Graph, connector: array<int>) returns (answer: seq<string>)
    requires connector.Length == |g.members|
    ensures answer == NamesOf(g, FlaggedIndexes(connector[..]))
  {
    answer := [];
    for i := 0 to connector.Length
      invariant answer == NamesOf(g, FlaggedIndexes(connector[..i]))
    {
      assert connector[..i + 1][..i] == connector[..i];
      if connector[i] == 1 {
        NamesAppend(g, FlaggedIndexes(connector[..i]), i);
        answer := answer + [g.members[i].name];
      }
    }
    assert connector[..connector.Length] == connector[..];
  }

  /**
   * The recursive search from v: v gets the next number as dfsnum and
   * back; each unvisited friend f becomes a tree child (origin v) and is
   * searched, after which v's back number drops to f's and v is marked
   * when it is not a root and f's back number does not reach above
   * dfsnum[v]; a visited friend other than v's origin lowers v's back
   * number to its dfsnum; a root with two or more tree children is
   * marked. The ghost order is the visiting order, extended by the
   * members this call reaches.
   */
  method Dfs(v: nat, visited: array<int>, origin: array<int>, g: Graph, count: array<int>,
             dfsnum: array<int>, back: array<int>, connector: array<int>, ghost order0: seq<nat>)
    returns (ghost order: seq<nat>)
    requires Separate(visited, origin, count, dfsnum, back, connector)
    requires WellFormed(g) && count.Length == 1
    requires DfsState(g, visited[..], origin[..], dfsnum[..], back[..], connector[..], count[0], order0, v)
    requires v < |g.members| && visited[v] == 0
    modifies visited, origin, count, dfsnum, back, connector
    ensures DfsState(g, visited[..], origin[..], dfsnum[..], back[..], connector[..], count[0], order, -1)
    ensures DfsFrame(old(origin[..]), old(dfsnum[..]), old(back[..]), old(connector[..]),
                     origin[..], dfsnum[..], back[..], connector[..], order0, order, v)
    ensures SettledIn(g, origin[..], dfsnum[..], back[..], connector[..], order, |order0|, |order|)
    ensures Unvisited(visited[..]) <= old(Unvisited(visited[..])) - {v}
    decreases Unvisited(visited[..]), 0
  {
    ghost var o_vis, o_origin, o_num, o_back, o_conn := visited[..], origin[..], dfsnum[..], back[..], connector[..];
    LoopStart(g, v, o_vis, o_origin, o_num, o_back, o_conn, count[0], order0);
    MarkVisited(o_vis, v);
    ghost var c0 := count[0];
    visited[v] := 1;
    dfsnum[v] := count[0];
    back[v] := count[0];
    count[0] := count[0] + 1;
    assert visited[..] == o_vis[v := 1] && dfsnum[..] == o_num[v := c0] && back[..] == o_back[v := c0];
    assert origin[..] == o_origin && connector[..] == o_conn;
    order := FollowFriends(v, visited, origin, g, count, dfsnum, back, connector,
                           o_origin, o_num, o_back, o_conn, order0, order0 + [v]);
  }

  /**
   * The rest of the search from v: the loop over v's friend list, then
   * the root rule, which marks a root with two or more tree children.
   */
  method FollowFriends(v: nat, visited: array<int>, origin: array<int>, g: Graph, count: array<int>,
                       dfsnum: array<int>, back: array<int>, connector: array<int>,
                       ghost o_origin: seq<int>, ghost o_num: seq<int>, ghost o_back: seq<int>, ghost o_conn: seq<int>,
                       ghost order0: seq<nat>, ghost order1: seq<nat>)
    returns (ghost order: seq<nat>)
    requires Separate(visited, origin, count, dfsnum, back, connector)
    requires WellFormed(g) && count.Length == 1 && v < |g.adj|
    requires DfsLoop(g, v, o_origin, o_num, o_back, o_conn, visited[..], origin[..], dfsnum[..], back[..], connector[..],
                     count[0], order0, order1, {}, [])
    modifies visited, origin, count, dfsnum, back, connector
    ensures DfsState(g, visited[..], origin[..], dfsnum[..], back[..], connector[..], count[0], order, -1)
    ensures DfsFrame(o_origin, o_num, o_back, o_conn, origin[..], dfsnum[..], back[..], connector[..], order0, order, v)
    ensures SettledIn(g, origin[..], dfsnum[..], back[..], connector[..], order, |order0|, |order|)
    ensures Unvisited(visited[..]) <= old(Unvisited(visited[..]))
    decreases Unvisited(visited[..]), 5
  {
    var newContacts;
    ghost var kids;
    newContacts, order, kids := FriendLoop(v, visited, origin, g, count, dfsnum, back, connector,
                                           o_origin, o_num, o_back, o_conn, order0, order1);
    ghost var vis3, origin3, num3, back3, conn3 := visited[..], origin[..], dfsnum[..], back[..], connector[..];
    LoopEnd(g, v, o_origin, o_num, o_back, o_conn, vis3, origin3, num3, back3, conn3, count[0], order0, order, kids);
    if origin[v] == -1 && newContacts >= 2 {
      connector[v] := 1;
      assert connector[..] == conn3[v := 1];
    } else {
      assert connector[..] == conn3 == conn3[v := conn3[v]];
    }
    assert visited[..] == vis3 && origin[..] == origin3 && dfsnum[..] == num3 && back[..] == back3;
  }

  /** The six arrays of the search are six different arrays. */
  ghost predicate Separate(visited: array<int>, origin: array<int>, count: array<int>,
                           dfsnum: array<int>, back: array<int>, connector: array<int>) {
    && visited != origin && visited != count && visited != dfsnum && visited != back && visited != connector
    && origin != count && origin != dfsnum && origin != back && origin != connector
    && count != dfsnum && count != back && count != connector
    && dfsnum != back && dfsnum != connector && back != connector
  }

  /**
   * The loop over v's friend list: each friend takes one turn, and
   * newContacts counts the tree children found (the ghost kids). The loop
   * state is stated as DfsLoop(...) == true so that the verifier checks it
   * as one fact rather than clause by clause.
   */

  method FriendLoop(v: nat, visited: array<int>, origin: array<int>, g: Graph, count: array<int>,
                    dfsnum: array<int>, back: array<int>, connector: array<int>,
                    ghost o_origin: seq<int>, ghost o_num: seq<int>, ghost o_back: seq<int>, ghost o_conn: seq<int>,
                    ghost order0: seq<nat>, ghost order1: seq<nat>)
    returns (newContacts: nat, ghost order: seq<nat>, ghost kids: set<nat>)
    requires Separate(visited, origin, count, dfsnum, back, connector)
    requires WellFormed(g) && count.Length == 1 && v < |g.adj|
    requires DfsLoop(g, v, o_origin, o_num, o_back, o_conn, visited[..], origin[..], dfsnum[..], back[..], connector[..],
                     count[0], order0, order1, {}, [])
    modifies visited, origin, count, dfsnum, back, connector
    ensures DfsLoop(g, v, o_origin, o_num, o_back, o_conn, visited[..], origin[..], dfsnum[..], back[..], connector[..],
                    count[0], order0, order, kids, g.adj[v]) == true
    ensures newContacts == |kids|
    ensures Unvisited(visited[..]) <= old(Unvisited(visited[..]))
    decreases Unvisited(visited[..]), 4
  {
    newContacts := 0;
    kids := {};
    order := order1;
    assert g.adj[v][..0] == [];
    for k := 0 to |g.adj[v]|
      invariant DfsLoop(g, v, o_origin, o_num, o_back, o_conn, visited[..], origin[..], dfsnum[..], back[..], connector[..],
                        count[0], order0, order, kids, g.adj[v][..k]) == true
      invariant newContacts == |kids|
      invariant Unvisited(visited[..]) <= old(Unvisited(visited[..]))
    {
      ghost var before := Unvisited(visited[..]);
      newContacts, order, kids := FriendStep(v, k, visited, origin, g, count, dfsnum, back, connector,
                                             o_origin, o_num, o_back, o_conn, order0, order, kids, newContacts);
      SubsetChain(Unvisited(visited[..]), before, old(Unvisited(visited[..])));
    }
    ScanAll(g.adj[v]);
  }

  /** Friend k of v takes its turn; newContacts counts one more when it becomes a tree child. */
  method FriendStep(v: nat, k: nat, visited: array<int>, origin: array<int>, g: Graph, count: array<int>,
                    dfsnum: array<int>, back: array<int>, connector: array<int>,
                    ghost o_origin: seq<int>, ghost o_num: seq<int>, ghost o_back: seq<int>, ghost o_conn: seq<int>,
                    ghost order0: seq<nat>, ghost order1: seq<nat>, ghost kids1: set<nat>, newContacts1: nat)
    returns (newContacts: nat, ghost order: seq<nat>, ghost kids: set<nat>)
    requires Separate(visited, origin, count, dfsnum, back, connector)
    requires WellFormed(g) && count.Length == 1 && v < |g.adj| && k < |g.adj[v]|
    requires DfsLoop(g, v, o_origin, o_num, o_back, o_conn, visited[..], origin[..], dfsnum[..], back[..], connector[..],
                     count[0], order0, order1, kids1, g.adj[v][..k]) == true
    requires newContacts1 == |kids1|
    modifies visited, origin, count, dfsnum, back, connector
    ensures DfsLoop(g, v, o_origin, o_num, o_back, o_conn, visited[..], origin[..], dfsnum[..], back[..], connector[..],
                    count[0], order0, order, kids, g.adj[v][..k + 1]) == true
    ensures newContacts == |kids|
    ensures Unvisited(visited[..]) <= old(Unvisited(visited[..]))
    decreases Unvisited(visited[..]), 3
  {
    var child;
    child, order, kids := FriendTurn(v, g.adj[v][k], visited, origin, g, count, dfsnum, back, connector,
                                     o_origin, o_num, o_back, o_conn, order0, order1, kids1, g.adj[v][..k]);
    ScanOneMore(g.adj[v], k);
    newContacts := if child then newContacts1 + 1 else newContacts1;
  }

  /** Adding a new element grows a set by one. */
  lemma AddNew(s: set<nat>, x: nat)
    requires x !in s
    ensures |s + {x}| == |s| + 1
  {
  }

  /** Strict inclusion followed by inclusion is strict. */
  lemma StrictChain(a: set<nat>, b: set<nat>, c: set<nat>)
    requires a < b && b <= c
    ensures a < c
  {
  }

  /** All friends are scanned once the loop ends. */
  lemma ScanAll(fs: seq<nat>)
    ensures fs[..|fs|] == fs
  {
  }

  /** The friends scanned after one more turn. */
  lemma ScanOneMore(fs: seq<nat>, k: nat)
    requires k < |fs|
    ensures fs[..k + 1] == fs[..k] + [fs[k]]
  {
  }

  /** Transitivity of set inclusion, kept apart from the search's heavy context. */
  lemma SubsetChain(a: set<nat>, b: set<nat>, c: set<nat>)
    requires a <= b && b <= c
    ensures a <= c
  {
  }

  /**
   * One turn of v's loop for friend f: an unvisited f is searched as a
   * tree child (child is true), a visited f other than v's origin only
   * lowers v's back number, and v's origin changes nothing.
   */
  method FriendTurn(v: nat, f: nat, visited: array<int>, origin: array<int>, g: Graph, count: array<int>,
                    dfsnum: array<int>, back: array<int>, connector: array<int>,
                    ghost o_origin: seq<int>, ghost o_num: seq<int>, ghost o_back: seq<int>, ghost o_conn: seq<int>,
                    ghost order0: seq<nat>, ghost order1: seq<nat>, ghost kids1: set<nat>, ghost seen: seq<nat>)
    returns (child: bool, ghost order: seq<nat>, ghost kids: set<nat>)
    requires Separate(visited, origin, count, dfsnum, back, connector)
    requires WellFormed(g) && count.Length == 1
    requires DfsLoop(g, v, o_origin, o_num, o_back, o_conn, visited[..], origin[..], dfsnum[..], back[..], connector[..],
                     count[0], order0, order1, kids1, seen)
    requires v < |g.adj| && f in g.adj[v]
    modifies visited, origin, count, dfsnum, back, connector
    ensures DfsLoop(g, v, o_origin, o_num, o_back, o_conn, visited[..], origin[..], dfsnum[..], back[..], connector[..],
                    count[0], order0, order, kids, seen + [f])
    ensures kids == if child then kids1 + {f} else kids1
    ensures |kids| == if child then |kids1| + 1 else |kids1|
    ensures Unvisited(visited[..]) <= old(Unvisited(visited[..]))
    decreases Unvisited(visited[..]), 2
  {
    order, kids := order1, kids1;
    child := visited[f] == 0;
    if child {
      assert f !in kids1;
      AddNew(kids1, f);
      order := SearchChild(v, f, visited, origin, g, count, dfsnum, back, connector,
                           o_origin, o_num, o_back, o_conn, order0, order1, kids1, seen);
      kids := kids1 + {f};
    } else if origin[v] != f {
      BackEdge(v, f, visited, origin, g, count, dfsnum, back, connector,
               o_origin, o_num, o_back, o_conn, order0, order1, kids1, seen);
    } else {
      LoopSkip(g, v, o_origin, o_num, o_back, o_conn, visited[..], origin[..], dfsnum[..], back[..], connector[..],
               count[0], order0, order1, kids1, seen, f);
    }
  }

  /**
   * The turn of v's loop for a visited friend f other than v's origin:
   * v's back number drops to f's dfsnum.
   */
  method BackEdge(v: nat, f: nat, visited: array<int>, origin: array<int>, g: Graph, count: array<int>,
                  dfsnum: array<int>, back: array<int>, connector: array<int>,
                  ghost o_origin: seq<int>, ghost o_num: seq<int>, ghost o_back: seq<int>, ghost o_conn: seq<int>,
                  ghost order0: seq<nat>, ghost order: seq<nat>, ghost kids: set<nat>, ghost seen: seq<nat>)
    requires visited != back && origin != back && count != back && dfsnum != back && back != connector
    requires WellFormed(g) && count.Length == 1
    requires DfsLoop(g, v, o_origin, o_num, o_back, o_conn, visited[..], origin[..], dfsnum[..], back[..], connector[..],
                     count[0], order0, order, kids, seen)
    requires v < |g.adj| && f in g.adj[v] && visited[f] != 0 && origin[v] != f
    modifies back
    ensures DfsLoop(g, v, o_origin, o_num, o_back, o_conn, visited[..], origin[..], dfsnum[..], back[..], connector[..],
                    count[0], order0, order, kids, seen + [f])
  {
    ghost var vs, os, ns, bs, cs := visited[..], origin[..], dfsnum[..], back[..], connector[..];
    LoopBackEdge(g, v, o_origin, o_num, o_back, o_conn, vs, os, ns, bs, cs, count[0], order0, order, kids, seen, f);
    back[v] := Min(back[v], dfsnum[f]);
    assert back[..] == bs[v := Min(bs[v], ns[f])];
    assert visited[..] == vs && origin[..] == os && dfsnum[..] == ns && connector[..] == cs;
  }

  /**
   * The turn of v's loop for an unvisited friend f: f's origin becomes
   * v, f is searched, v's back number drops to f's, and v is marked when
   * it is not a root and f's back number does not reach above dfsnum[v].
   */
  method SearchChild(v: nat, f: nat, visited: array<int>, origin: array<int>, g: Graph, count: array<int>,
                     dfsnum: array<int>, back: array<int>, connector: array<int>,
                     ghost o_origin: seq<int>, ghost o_num: seq<int>, ghost o_back: seq<int>, ghost o_conn: seq<int>,
                     ghost order0: seq<nat>, ghost order1: seq<nat>, ghost kids: set<nat>, ghost seen: seq<nat>)
    returns (ghost order: seq<nat>)
    requires Separate(visited, origin, count, dfsnum, back, connector)
    requires WellFormed(g) && count.Length == 1
    requires DfsLoop(g, v, o_origin, o_num, o_back, o_conn, visited[..], origin[..], dfsnum[..], back[..], connector[..],
                     count[0], order0, order1, kids, seen)
    requires v < |g.adj| && f in g.adj[v] && visited[f] == 0
    modifies visited, origin, count, dfsnum, back, connector
    ensures DfsLoop(g, v, o_origin, o_num, o_back, o_conn, visited[..], origin[..], dfsnum[..], back[..], connector[..],
                    count[0], order0, order, kids + {f}, seen + [f])
    ensures Unvisited(visited[..]) <= old(Unvisited(visited[..]))
    decreases Unvisited(visited[..]), 1
  {
    ghost var vis1, origin1, num1, back1, conn1, count1 := visited[..], origin[..], dfsnum[..], back[..], connector[..], count[0];
    PrepareChild(g, vis1, origin1, num1, back1, conn1, count1, order1, v, f);
    origin[f] := v;
    assert origin[..] == origin1[f := v];
    assert visited[..] == vis1 && dfsnum[..] == num1 && back[..] == back1 && connector[..] == conn1 && count[0] == count1;
    order := Dfs(f, visited, origin, g, count, dfsnum, back, connector, order1);
    ghost var vis2 := visited[..];
    AdoptChild(v, f, visited, origin, g, count, dfsnum, back, connector, o_origin, o_num, o_back, o_conn, order0,
               vis1, origin1, num1, back1, conn1, count1, order1, kids, seen, order);
    assert visited[..] == vis2;
    SubsetChain(Unvisited(vis2), Unvisited(vis1) - {f}, Unvisited(vis1));
  }

  /**
   * The end of v's turn for the tree child f, once f's search has
   * returned: v's back number drops to f's, and v is marked when it is
   * not a root and f's back number does not reach above dfsnum[v].
   */
  method AdoptChild(v: nat, f: nat, visited: array<int>, origin: array<int>, g: Graph, count: array<int>,
                    dfsnum: array<int>, back: array<int>, connector: array<int>,
                    ghost o_origin: seq<int>, ghost o_num: seq<int>, ghost o_back: seq<int>, ghost o_conn: seq<int>,
                    ghost order0: seq<nat>, ghost vis1: seq<int>, ghost origin1: seq<int>, ghost num1: seq<int>,
                    ghost back1: seq<int>, ghost conn1: seq<int>, ghost count1: int, ghost order1: seq<nat>,
                    ghost kids: set<nat>, ghost seen: seq<nat>, ghost order: seq<nat>)
    requires visited != back && visited != connector && origin != back && origin != connector
    requires count != back && count != connector && dfsnum != back && dfsnum != connector && back != connector
    requires WellFormed(g) && count.Length == 1
    requires DfsLoop(g, v, o_origin, o_num, o_back, o_conn, vis1, origin1, num1, back1, conn1, count1, order0, order1, kids, seen)
    requires v < |g.adj| && f in g.adj[v] && vis1[f] == 0
    requires DfsState(g, visited[..], origin[..], dfsnum[..], back[..], connector[..], count[0], order, -1)
    requires DfsFrame(origin1[f := v], num1, back1, conn1, origin[..], dfsnum[..], back[..], connector[..], order1, order, f)
    requires SettledIn(g, origin[..], dfsnum[..], back[..], connector[..], order, |order1|, |order|)
    modifies back, connector
    ensures DfsLoop(g, v, o_origin, o_num, o_back, o_conn, visited[..], origin[..], dfsnum[..], back[..], connector[..],
                    count[0], order0, order, kids + {f}, seen + [f])
  {
    ghost var vis2, origin2, num2, back2, conn2, count2 := visited[..], origin[..], dfsnum[..], back[..], connector[..], count[0];
    assert f != v;
    ghost var back3 := back2[v := Min(back2[v], back2[f])];
    ghost var conn3 := conn2[v := if origin2[v] != -1 && back2[f] >= num2[v] then 1 else conn2[v]];
    LoopChild(g, v, o_origin, o_num, o_back, o_conn, vis1, origin1, num1, back1, conn1, count1, order0, order1, kids, seen, f,
              vis2, origin2, num2, back2, conn2, count2, order, back3, conn3);
    back[v] := Min(back[v], back[f]);
    assert back[..] == back3;
    assert back[f] == back2[f] && origin[v] == origin2[v] && dfsnum[v] == num2[v];
    if origin[v] != -1 && back[f] >= dfsnum[v] {
      connector[v] := 1;
      assert connector[..] == conn3;
    } else {
      assert connector[..] == conn2 == conn3;
    }
    assert visited[..] == vis2 && origin[..] == origin2 && dfsnum[..] == num2 && count[0] == count2;
  }
}
