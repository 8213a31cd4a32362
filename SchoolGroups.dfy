/**
 * Cliques of a school: the students of one school split into groups of
 * students linked by friendships among themselves, and the invariants of
 * the breadth-first search that builds one group at a time.
 */
module SchoolGroups {
  import opened Wrappers
  import opened FriendGraph

  /** Member v is a student of school. */
  ghost predicate AtSchool(g: Graph, v: nat, school: string) {
    v < |g.members| && g.members[v].school == Some(school)
  }

  /** A walk along friendships that never leaves the students of school. */
  ghost predicate SchoolPath(g: Graph, school: string, p: seq<nat>) {
    IsPath(g, p) && forall k :: 0 <= k < |p| ==> AtSchool(g, p[k], school)
  }

  /** y can be reached from x through students of school only. */
  ghost predicate SchoolReach(g: Graph, school: string, x: nat, y: nat) {
    exists p :: SchoolPath(g, school, p) && p[0] == x && p[|p| - 1] == y
  }

  /**
   * What the cliques of school are: non-empty groups of students of
   * school without repeats, no student in two groups, every student in
   * some group, no friendship between students leading out of a group,
   * and every student of a group reachable from its first one through
   * students of school.
   */
  ghost predicate Partition(g: Graph, school: string, groups: seq<seq<nat>>) {
    (forall c :: 0 <= c < |groups| ==> |groups[c]| >= 1) &&
    (forall c, j :: 0 <= c < |groups| && 0 <= j < |groups[c]| ==> AtSchool(g, groups[c][j], school)) &&
    (forall c, j, j' :: 0 <= c < |groups| && 0 <= j < j' < |groups[c]| ==> groups[c][j] != groups[c][j']) &&
    (forall c, d, v :: 0 <= c < d < |groups| && v in groups[c] ==> v !in groups[d]) &&
    (forall v :: AtSchool(g, v, school) ==> exists c :: 0 <= c < |groups| && v in groups[c]) &&
    (forall c, u, w :: 0 <= c < |groups| && u in groups[c] && u < |g.adj| && w in g.adj[u] && AtSchool(g, w, school) ==> w in groups[c]) &&
    (forall c, v :: 0 <= c < |groups| && v in groups[c] ==> SchoolReach(g, school, groups[c][0], v))
  }

  // ---------------------------------------------------------------------
  // Walks through one school
  // ---------------------------------------------------------------------

  lemma ReachSelf(g: Graph, school: string, x: nat)
    requires |g.adj| == |g.members| && AtSchool(g, x, school)
    ensures SchoolReach(g, school, x, x)
  {
    assert SchoolPath(g, school, [x]);
  }

  /** Walks through a school join end to end. */
  lemma ReachJoin(g: Graph, school: string, x: nat, y: nat, z: nat)
    requires SchoolReach(g, school, x, y) && SchoolReach(g, school, y, z)
    ensures SchoolReach(g, school, x, z)
  {
    var p :| SchoolPath(g, school, p) && p[0] == x && p[|p| - 1] == y;
    var r :| SchoolPath(g, school, r) && r[0] == y && r[|r| - 1] == z;
    var pr := p + r[1..];
    forall k | 0 <= k < |pr| - 1
      ensures pr[k + 1] in g.adj[pr[k]]
    {
      if k < |p| - 1 {
        assert pr[k] == p[k] && pr[k + 1] == p[k + 1];
      } else {
        var j := k - |p| + 1;
        assert pr[k] == r[j] && pr[k + 1] == r[j + 1];
      }
    }
    assert SchoolPath(g, school, pr);
  }

  /** With friendship going both ways, a walk through a school can be walked back. */
  lemma ReachBack(g: Graph, school: string, x: nat, y: nat)
    requires Symmetric(g) && SchoolReach(g, school, x, y)
    ensures SchoolReach(g, school, y, x)
  {
    var p :| SchoolPath(g, school, p) && p[0] == x && p[|p| - 1] == y;
    var r := Reverse(p);
    forall k | 0 <= k < |r| - 1
      ensures r[k + 1] in g.adj[r[k]]
    {
      var j := |p| - 2 - k;
      assert r[k] == p[j + 1] && r[k + 1] == p[j];
    }
    assert SchoolPath(g, school, r);
  }

  /** A group closed under friendships within the school holds every student reachable from it. */
  lemma {:induction false} ClosedHoldsReach(g: Graph, school: string, grp: seq<nat>, p: seq<nat>, m: nat)
    requires forall u, w :: u in grp && u < |g.adj| && w in g.adj[u] && AtSchool(g, w, school) ==> w in grp
    requires SchoolPath(g, school, p) && p[0] in grp && m < |p|
    ensures p[m] in grp
  {
    if m > 0 {
      ClosedHoldsReach(g, school, grp, p, m - 1);
    }
  }

  /** Two students of one clique reach each other through the school. */
  lemma SameCliqueReaches(g: Graph, school: string, groups: seq<seq<nat>>, c: nat, x: nat, y: nat)
    requires Symmetric(g) && Partition(g, school, groups)
    requires c < |groups| && x in groups[c] && y in groups[c]
    ensures SchoolReach(g, school, x, y)
  {
    ReachBack(g, school, groups[c][0], x);
    ReachJoin(g, school, x, groups[c][0], y);
  }

  /** Whatever a student of a clique reaches through the school is in that clique. */
  lemma ReachStaysInClique(g: Graph, school: string, groups: seq<seq<nat>>, c: nat, x: nat, y: nat)
    requires Partition(g, school, groups)
    requires c < |groups| && x in groups[c] && SchoolReach(g, school, x, y)
    ensures y in groups[c]
  {
    var p :| SchoolPath(g, school, p) && p[0] == x && p[|p| - 1] == y;
    ClosedHoldsReach(g, school, groups[c], p, |p| - 1);
  }

  /**
   * Cliques are exactly the connected components of the school: two
   * students share a clique if and only if one reaches the other through
   * students of the school.
   */
  lemma CliquesAreComponents(g: Graph, school: string, groups: seq<seq<nat>>, c: nat, d: nat, x: nat, y: nat)
    requires Symmetric(g) && Partition(g, school, groups)
    requires c < |groups| && d < |groups| && x in groups[c] && y in groups[d]
    ensures c == d <==> SchoolReach(g, school, x, y)
  {
    if c == d {
      SameCliqueReaches(g, school, groups, c, x, y);
    } else if SchoolReach(g, school, x, y) {
      ReachStaysInClique(g, school, groups, c, x, y);
    }
  }

  // ---------------------------------------------------------------------
  // The search, one group at a time
  // ---------------------------------------------------------------------

  /**
   * The groups built so far, with owner[v] the group of student v or -1:
   * each group holds students of school without repeats, owner agrees
   * with the groups, groups are closed under friendships within the
   * school and reachable from their first student.
   */
  ghost predicate Grouped(g: Graph, school: string, groups: seq<seq<nat>>, owner: seq<int>) {
    GroupOwners(g, school, groups, owner) && GroupsClosed(g, school, groups) && GroupsReach(g, school, groups)
  }

  ghost predicate GroupOwners(g: Graph, school: string, groups: seq<seq<nat>>, owner: seq<int>) {
    |owner| == |g.members| && |g.adj| == |g.members| &&
    (forall c :: 0 <= c < |groups| ==> |groups[c]| >= 1) &&
    (forall c, j :: 0 <= c < |groups| && 0 <= j < |groups[c]| ==> AtSchool(g, groups[c][j], school) && owner[groups[c][j]] == c) &&
    (forall c, j, j' :: 0 <= c < |groups| && 0 <= j < j' < |groups[c]| ==> groups[c][j] != groups[c][j']) &&
    (forall v :: 0 <= v < |owner| ==> -1 <= owner[v] < |groups|) &&
    (forall v :: 0 <= v < |owner| && owner[v] >= 0 ==> v in groups[owner[v]])
  }

  ghost predicate GroupsClosed(g: Graph, school: string, groups: seq<seq<nat>>) {
    forall c, u, w :: 0 <= c < |groups| && u in groups[c] && u < |g.adj| && w in g.adj[u] && AtSchool(g, w, school) ==> w in groups[c]
  }

  ghost predicate GroupsReach(g: Graph, school: string, groups: seq<seq<nat>>) {
    forall c, v :: 0 <= c < |groups| && v in groups[c] ==> SchoolReach(g, school, groups[c][0], v)
  }

  /** Before member i, vis marks the grouped students and everyone outside the school. */
  ghost predicate OuterMarks(g: Graph, school: string, vis: seq<int>, owner: seq<int>, i: nat) {
    |vis| == |owner| == |g.members| &&
    forall v :: 0 <= v < |vis| ==> vis[v] == if owner[v] >= 0 || (v < i && !AtSchool(g, v, school)) then 1 else 0
  }

  /** Every student before member i is in a group. */
  ghost predicate CoveredBelow(g: Graph, school: string, owner: seq<int>, i: nat) {
    |owner| == |g.members| &&
    forall v :: 0 <= v < i && v < |owner| && AtSchool(g, v, school) ==> owner[v] >= 0
  }

  /**
   * The search for the group of student i: q holds the students
   * enqueued so far, each once and none grouped before, starting with i;
   * vis marks them besides what OuterMarks marks; wit[j] is a walk
   * through the school from i to q[j]; the first done members of q have
   * every friend at the school enqueued.
   */
  ghost predicate CliqueQueue(g: Graph, school: string, owner: seq<int>, i: nat, vis: seq<int>, q: seq<nat>,
                              wit: seq<seq<nat>>, done: nat) {
    CliqueMarks(g, school, owner, i, vis, q) && CliqueWitness(g, school, i, q, wit) && CliqueClosed(g, school, q, done)
  }

  ghost predicate CliqueMarks(g: Graph, school: string, owner: seq<int>, i: nat, vis: seq<int>, q: seq<nat>) {
    var n := |g.members|;
    |vis| == n && |owner| == n && |g.adj| == n && 1 <= |q| && q[0] == i &&
    (forall j :: 0 <= j < |q| ==> AtSchool(g, q[j], school) && owner[q[j]] < 0) &&
    (forall j, j' :: 0 <= j < j' < |q| ==> q[j] != q[j']) &&
    (forall v :: 0 <= v < n ==> vis[v] == if owner[v] >= 0 || v in q || (v < i && !AtSchool(g, v, school)) then 1 else 0)
  }

  ghost predicate CliqueWitness(g: Graph, school: string, i: nat, q: seq<nat>, wit: seq<seq<nat>>) {
    |wit| == |q| &&
    forall j :: 0 <= j < |q| ==> SchoolPath(g, school, wit[j]) && wit[j][0] == i && wit[j][|wit[j]| - 1] == q[j]
  }

  ghost predicate CliqueClosed(g: Graph, school: string, q: seq<nat>, done: nat) {
    done <= |q| && |g.adj| == |g.members| &&
    (forall j :: 0 <= j < |q| ==> q[j] < |g.adj|) &&
    forall j, w :: 0 <= j < done && w in g.adj[q[j]] && AtSchool(g, w, school) ==> w in q
  }

  /** The first k friends of ptr at the school are enqueued or grouped before. */
  ghost predicate SchoolScanned(g: Graph, school: string, owner: seq<int>, q: seq<nat>, ptr: nat, k: nat) {
    ptr < |g.adj| && k <= |g.adj[ptr]| && |owner| == |g.adj| == |g.members| &&
    forall w :: w in g.adj[ptr][..k] && AtSchool(g, w, school) ==> w in q || owner[w] >= 0
  }

  lemma CliqueStart(g: Graph, school: string, groups: seq<seq<nat>>, owner: seq<int>, i: nat, vis: seq<int>)
    requires WellFormed(g) && Grouped(g, school, groups, owner) && OuterMarks(g, school, vis, owner, i)
    requires AtSchool(g, i, school) && vis[i] == 0
    ensures CliqueQueue(g, school, owner, i, vis[i := 1], [i], [[i]], 0)
  {
    assert SchoolPath(g, school, [i]);
  }

  lemma CliqueEnqueue(g: Graph, school: string, owner: seq<int>, i: nat, vis: seq<int>, q: seq<nat>, wit: seq<seq<nat>>,
                      done: nat, ptr: nat, k: nat)
    requires WellFormed(g) && CliqueQueue(g, school, owner, i, vis, q, wit, done)
    requires done < |q| && ptr == q[done] && SchoolScanned(g, school, owner, q, ptr, k)
    requires k < |g.adj[ptr]| && AtSchool(g, g.adj[ptr][k], school) && vis[g.adj[ptr][k]] == 0
    ensures var f := g.adj[ptr][k];
      CliqueQueue(g, school, owner, i, vis[f := 1], q + [f], wit + [wit[done] + [f]], done) &&
      SchoolScanned(g, school, owner, q + [f], ptr, k + 1)
  {
    var f := g.adj[ptr][k];
    assert f in g.adj[ptr];
    EnqueueStudent(g, school, owner, i, vis, q, f);
    ExtendWitness(g, school, i, q, wit, done, f);
    assert g.adj[ptr][..k + 1] == g.adj[ptr][..k] + [f];
  }

  lemma EnqueueStudent(g: Graph, school: string, owner: seq<int>, i: nat, vis: seq<int>, q: seq<nat>, f: nat)
    requires CliqueMarks(g, school, owner, i, vis, q) && AtSchool(g, f, school) && vis[f] == 0
    ensures f !in q && CliqueMarks(g, school, owner, i, vis[f := 1], q + [f])
  {
  }

  /** A walk to the member being scanned, one friendship longer, reaches the friend it enqueues. */
  lemma ExtendWitness(g: Graph, school: string, i: nat, q: seq<nat>, wit: seq<seq<nat>>, done: nat, f: nat)
    requires CliqueWitness(g, school, i, q, wit) && done < |q| && q[done] < |g.adj| == |g.members|
    requires f in g.adj[q[done]] && AtSchool(g, f, school)
    ensures CliqueWitness(g, school, i, q + [f], wit + [wit[done] + [f]])
  {
    var p := wit[done] + [f];
    forall m | 0 <= m < |p| - 1
      ensures p[m + 1] in g.adj[p[m]]
    {
      if m < |p| - 2 {
        assert p[m] == wit[done][m] && p[m + 1] == wit[done][m + 1];
      }
    }
    assert SchoolPath(g, school, p);
  }

  lemma CliqueSkip(g: Graph, school: string, owner: seq<int>, i: nat, vis: seq<int>, q: seq<nat>, wit: seq<seq<nat>>,
                   done: nat, ptr: nat, k: nat)
    requires WellFormed(g) && CliqueQueue(g, school, owner, i, vis, q, wit, done)
    requires done < |q| && ptr == q[done] && SchoolScanned(g, school, owner, q, ptr, k)
    requires k < |g.adj[ptr]| && (!AtSchool(g, g.adj[ptr][k], school) || vis[g.adj[ptr][k]] != 0)
    ensures SchoolScanned(g, school, owner, q, ptr, k + 1)
  {
    assert g.adj[ptr][..k + 1] == g.adj[ptr][..k] + [g.adj[ptr][k]];
  }

  /**
   * Once ptr's friend list is scanned, ptr is done: a friend at the
   * school grouped before would, friendship going both ways, have pulled
   * ptr into its own group.
   */
  lemma CliqueFinishScan(g: Graph, school: string, groups: seq<seq<nat>>, owner: seq<int>, i: nat, vis: seq<int>,
                         q: seq<nat>, wit: seq<seq<nat>>, done: nat, ptr: nat)
    requires Symmetric(g) && Grouped(g, school, groups, owner) && CliqueQueue(g, school, owner, i, vis, q, wit, done)
    requires done < |q| && ptr == q[done] && SchoolScanned(g, school, owner, q, ptr, |g.adj[ptr]|)
    ensures CliqueQueue(g, school, owner, i, vis, q, wit, done + 1)
  {
    assert g.adj[ptr][..|g.adj[ptr]|] == g.adj[ptr];
    forall w | w in g.adj[ptr] && AtSchool(g, w, school)
      ensures w in q
    {
      assert ptr in g.adj[w];
    }
  }

  /** The group of a finished search. */
  function NewOwner(owner: seq<int>, q: seq<nat>, c: nat): (owner': seq<int>)
    ensures |owner'| == |owner|
    ensures forall v :: 0 <= v < |owner| ==> owner'[v] == if v in q then c else owner[v]
  {
    seq(|owner|, v requires 0 <= v < |owner| => if v in q then c else owner[v])
  }

  /** A finished search becomes the next group; the students of school up to i are then all grouped. */
  lemma CliqueClose(g: Graph, school: string, groups: seq<seq<nat>>, owner: seq<int>, i: nat, vis: seq<int>,
                    q: seq<nat>, wit: seq<seq<nat>>)
    requires Grouped(g, school, groups, owner) && CoveredBelow(g, school, owner, i)
    requires CliqueQueue(g, school, owner, i, vis, q, wit, |q|)
    ensures var owner' := NewOwner(owner, q, |groups|);
      Grouped(g, school, groups + [q], owner') && OuterMarks(g, school, vis, owner', i + 1) &&
      CoveredBelow(g, school, owner', i + 1)
  {
    CloseOwners(g, school, groups, owner, i, vis, q);
    CloseClosed(g, school, groups, q);
    CloseReach(g, school, groups, i, q, wit);
  }

  lemma CloseOwners(g: Graph, school: string, groups: seq<seq<nat>>, owner: seq<int>, i: nat, vis: seq<int>, q: seq<nat>)
    requires GroupOwners(g, school, groups, owner) && CoveredBelow(g, school, owner, i)
    requires CliqueMarks(g, school, owner, i, vis, q)
    ensures var owner' := NewOwner(owner, q, |groups|);
      GroupOwners(g, school, groups + [q], owner') && OuterMarks(g, school, vis, owner', i + 1) &&
      CoveredBelow(g, school, owner', i + 1)
  {
    var owner' := NewOwner(owner, q, |groups|);
    var groups' := groups + [q];
    forall c, j | 0 <= c < |groups'| && 0 <= j < |groups'[c]|
      ensures owner'[groups'[c][j]] == c
    {
      if c < |groups| {
        assert groups'[c] == groups[c];
        assert groups[c][j] !in q;
      }
    }
    forall v | 0 <= v < |owner'| && owner'[v] >= 0
      ensures v in groups'[owner'[v]]
    {
      if v !in q {
        assert groups'[owner[v]] == groups[owner[v]];
      }
    }
  }

  lemma CloseClosed(g: Graph, school: string, groups: seq<seq<nat>>, q: seq<nat>)
    requires GroupsClosed(g, school, groups) && CliqueClosed(g, school, q, |q|)
    ensures GroupsClosed(g, school, groups + [q])
  {
    var groups' := groups + [q];
    forall c, u, w | 0 <= c < |groups'| && u in groups'[c] && u < |g.adj| && w in g.adj[u] && AtSchool(g, w, school)
      ensures w in groups'[c]
    {
      if c == |groups| {
        var j :| 0 <= j < |q| && q[j] == u;
        assert w in q;
      } else {
        assert groups'[c] == groups[c];
      }
    }
  }

  lemma CloseReach(g: Graph, school: string, groups: seq<seq<nat>>, i: nat, q: seq<nat>, wit: seq<seq<nat>>)
    requires GroupsReach(g, school, groups) && CliqueWitness(g, school, i, q, wit) && |q| >= 1 && q[0] == i
    ensures GroupsReach(g, school, groups + [q])
  {
    var groups' := groups + [q];
    forall c, v | 0 <= c < |groups'| && v in groups'[c]
      ensures SchoolReach(g, school, groups'[c][0], v)
    {
      if c == |groups| {
        var j :| 0 <= j < |q| && q[j] == v;
        assert SchoolPath(g, school, wit[j]);
      } else {
        assert groups'[c] == groups[c];
      }
    }
  }

  /** A member outside the school is marked and skipped. */
  lemma OuterSkip(g: Graph, school: string, vis: seq<int>, owner: seq<int>, i: nat)
    requires OuterMarks(g, school, vis, owner, i) && CoveredBelow(g, school, owner, i)
    requires i < |g.members| && !AtSchool(g, i, school)
    ensures OuterMarks(g, school, vis[i := 1], owner, i + 1) && CoveredBelow(g, school, owner, i + 1)
  {
  }

  /** A student already marked is already grouped. */
  lemma OuterVisited(g: Graph, school: string, vis: seq<int>, owner: seq<int>, i: nat)
    requires OuterMarks(g, school, vis, owner, i) && CoveredBelow(g, school, owner, i)
    requires i < |g.members| && AtSchool(g, i, school) && vis[i] != 0
    ensures OuterMarks(g, school, vis, owner, i + 1) && CoveredBelow(g, school, owner, i + 1)
  {
  }

  /** Once every student is grouped, the groups are the cliques of the school. */
  lemma GroupedPartition(g: Graph, school: string, groups: seq<seq<nat>>, owner: seq<int>)
    requires Grouped(g, school, groups, owner) && CoveredBelow(g, school, owner, |g.members|)
    ensures Partition(g, school, groups)
  {
    forall c, d, v | 0 <= c < d < |groups| && v in groups[c]
      ensures v !in groups[d]
    {
      var j :| 0 <= j < |groups[c]| && groups[c][j] == v;
      assert owner[v] == c;
    }
    forall v: nat | AtSchool(g, v, school)
      ensures exists c :: 0 <= c < |groups| && v in groups[c]
    {
      assert v in groups[owner[v]];
    }
  }

  /** A school has no cliques exactly when it has no students. */
  lemma NoCliques(g: Graph, school: string, groups: seq<seq<nat>>)
    requires Partition(g, school, groups)
    ensures groups == [] <==> forall v :: 0 <= v < |g.members| ==> !AtSchool(g, v, school)
  {
    if groups != [] {
      assert AtSchool(g, groups[0][0], school);
    }
  }

  /** Each clique lists, in order, the names of its group's members. */
  ghost predicate NamedGroups(g: Graph, cliques: seq<seq<string>>, groups: seq<seq<nat>>) {
    |cliques| == |groups| &&
    forall c :: 0 <= c < |groups| ==>
      (forall j :: 0 <= j < |groups[c]| ==> groups[c][j] < |g.members|) && cliques[c] == NamesOf(g, groups[c])
  }

  lemma NamedAppend(g: Graph, cliques: seq<seq<string>>, groups: seq<seq<nat>>, a: seq<string>, q: seq<nat>)
    requires NamedGroups(g, cliques, groups)
    requires (forall j :: 0 <= j < |q| ==> q[j] < |g.members|) && a == NamesOf(g, q)
    ensures NamedGroups(g, cliques + [a], groups + [q])
  {
    var cliques', groups' := cliques + [a], groups + [q];
    forall c | 0 <= c < |groups'|
      ensures (forall j :: 0 <= j < |groups'[c]| ==> groups'[c][j] < |g.members|) && cliques'[c] == NamesOf(g, groups'[c])
    {
      if c < |groups| {
        assert groups'[c] == groups[c] && cliques'[c] == cliques[c];
      }
    }
  }
}

