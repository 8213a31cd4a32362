/**
 * The friendship graph and what the searches over it rely on: paths,
 * chains of names, and the invariants of a breadth-first search with a
 * visited array and a parent array.
 */
module FriendGraph {
  import opened Wrappers

  /** A member of the graph: a lower-case name and, for a student, a school. */
  datatype Person = Person(name: string, school: Option<string>)

  /**
   * The graph: its members, each member's friends as indexes into the
   * members (adj[v] lists them in the order of v's friend list), and the
   * index of every member's name.
   */
  datatype Graph = Graph(members: seq<Person>, adj: seq<seq<nat>>, nameIndex: map<string, nat>)

  /** Friends are members, and the name index and the member names agree. */
  ghost predicate WellFormed(g: Graph) {
    |g.adj| == |g.members| &&
    (forall v, w :: 0 <= v < |g.adj| && w in g.adj[v] ==> w < |g.members|) &&
    (forall v, k :: 0 <= v < |g.adj| && 0 <= k < |g.adj[v]| ==> g.adj[v][k] < |g.members|) &&
    (forall name :: name in g.nameIndex ==> g.nameIndex[name] < |g.members| && g.members[g.nameIndex[name]].name == name) &&
    (forall v :: 0 <= v < |g.members| ==> g.members[v].name in g.nameIndex && g.nameIndex[g.members[v].name] == v)
  }

  /** Friendship goes both ways. */
  ghost predicate Symmetric(g: Graph) {
    forall v, w :: 0 <= v < |g.adj| && w in g.adj[v] ==> w < |g.adj| && v in g.adj[w]
  }

  /** A non-empty walk along friendships. */
  ghost predicate IsPath(g: Graph, p: seq<nat>) {
    |p| >= 1 &&
    (forall k :: 0 <= k < |p| ==> p[k] < |g.adj|) &&
    (forall k :: 0 <= k < |p| - 1 ==> p[k + 1] in g.adj[p[k]])
  }

  /** A walk from the member named a to the member named b. */
  ghost predicate IsChain(g: Graph, p: seq<nat>, a: string, b: string) {
    IsPath(g, p) && |g.adj| == |g.members| &&
    g.members[p[0]].name == a && g.members[p[|p| - 1]].name == b
  }

  /** The names along a walk. */
  function NamesOf(g: Graph, p: seq<nat>): seq<string>
    requires forall k :: 0 <= k < |p| ==> p[k] < |g.members|
  {
    seq(|p|, k requires 0 <= k < |p| => g.members[p[k]].name)
  }

  lemma NamesAppend(g: Graph, p: seq<nat>, v: nat)
    requires forall k :: 0 <= k < |p| ==> p[k] < |g.members|
    requires v < |g.members|
    ensures NamesOf(g, p + [v]) == NamesOf(g, p) + [g.members[v].name]
  {
  }

  /** a and b are members and b is on a's friend list. */
  ghost predicate Befriended(g: Graph, a: string, b: string) {
    a in g.nameIndex && b in g.nameIndex && g.nameIndex[a] < |g.adj| && g.nameIndex[b] in g.adj[g.nameIndex[a]]
  }

  /**
   * Read as names, a chain from a to b starts with a, ends with b, and
   * each name is befriended with the next.
   */
  lemma ChainOfFriends(g: Graph, p: seq<nat>, a: string, b: string)
    requires WellFormed(g) && IsChain(g, p, a, b)
    ensures var names := NamesOf(g, p);
      |names| >= 1 && names[0] == a && names[|names| - 1] == b &&
      forall k :: 0 <= k < |names| - 1 ==> Befriended(g, names[k], names[k + 1])
  {
    var names := NamesOf(g, p);
    forall k | 0 <= k < |names| - 1
      ensures Befriended(g, names[k], names[k + 1])
    {
      assert g.nameIndex[names[k]] == p[k] && g.nameIndex[names[k + 1]] == p[k + 1];
    }
  }

  /** Members have distinct names, so a walk's first name fixes its first member. */
  lemma NamedMember(g: Graph, v: nat, name: string)
    requires WellFormed(g) && v < |g.members| && g.members[v].name == name
    ensures name in g.nameIndex && g.nameIndex[name] == v
  {
  }

  function Reverse(s: seq<nat>): (r: seq<nat>)
    ensures |r| == |s|
    ensures forall k :: 0 <= k < |s| ==> r[k] == s[|s| - 1 - k]
  {
    if s == [] then [] else Reverse(s[1..]) + [s[0]]
  }

  /** The members no search has reached yet. */
  function Unvisited(vis: seq<int>): set<nat>
  {
    set v: nat | v < |vis| && vis[v] == 0
  }

  /** Marking a member visited takes it, and only it, out of the unvisited ones. */
  lemma MarkVisited(vis: seq<int>, f: nat)
    requires f < |vis| && vis[f] == 0
    ensures f in Unvisited(vis) && Unvisited(vis[f := 1]) == Unvisited(vis) - {f}
  {
  }

  /** Every member below i has been visited. */
  ghost predicate VisitedBelow(vis: seq<int>, i: nat) {
    forall v :: 0 <= v < i && v < |vis| ==> vis[v] != 0
  }

  /**
   * A search started at member i leaves every member up to i visited,
   * when the ones before i already were.
   */
  lemma VisitedThrough(vis0: seq<int>, vis: seq<int>, i: nat)
    requires |vis0| == |vis| && i < |vis|
    requires VisitedBelow(vis0, i)
    requires Unvisited(vis) <= Unvisited(vis0) - {i}
    ensures VisitedBelow(vis, i + 1)
  {
    forall v | 0 <= v <= i
      ensures vis[v] != 0
    {
      assert v !in Unvisited(vis);
    }
  }

  /** None of the members in s is named name. */
  ghost predicate NoneNamed(g: Graph, s: seq<nat>, name: string) {
    forall v :: v in s ==> v < |g.members| && g.members[v].name != name
  }

  /** Extending a processed prefix of a queue by its next member, which is not named name. */
  lemma NoneNamedStep(g: Graph, q0: seq<nat>, q: seq<nat>, head: nat, name: string)
    requires q0 <= q && head < |q0| && NoneNamed(g, q0[..head], name)
    requires q0[head] < |g.members| && g.members[q0[head]].name != name
    ensures NoneNamed(g, q[..head + 1], name)
  {
    assert q[..head + 1] == q0[..head] + [q0[head]];
  }

  // ---------------------------------------------------------------------
  // Breadth-first search
  // ---------------------------------------------------------------------

  /**
   * The state of a breadth-first search from src: q holds, in order,
   * every member enqueued so far, each once, exactly those marked in vis;
   * dist (the number of friendships from src) never decreases along q;
   * every enqueued member but src was reached from its parent, one
   * friendship further; and the first done members of q have had all
   * their friends enqueued.
   */
  ghost predicate BfsQueue(g: Graph, src: nat, vis: seq<int>, par: seq<int>, dist: seq<nat>, q: seq<nat>, done: nat) {
    QueueMarks(g, src, vis, q) && QueueLevels(g, src, par, dist, q) && QueueClosed(g, dist, q, done)
  }

  /** q starts at src, holds distinct members, and vis marks exactly them. */
  ghost predicate QueueMarks(g: Graph, src: nat, vis: seq<int>, q: seq<nat>) {
    var n := |g.members|;
    |vis| == n && |g.adj| == n && src < n && 1 <= |q| && q[0] == src &&
    (forall j :: 0 <= j < |q| ==> q[j] < n) &&
    (forall i, j :: 0 <= i < j < |q| ==> q[i] != q[j]) &&
    (forall v :: 0 <= v < n ==> vis[v] == if v in q then 1 else 0)
  }

  /** Distances grow along q, and every enqueued member but src hangs off an earlier friend. */
  ghost predicate QueueLevels(g: Graph, src: nat, par: seq<int>, dist: seq<nat>, q: seq<nat>) {
    var n := |g.members|;
    |par| == n && |dist| == n && |g.adj| == n && src < n && 1 <= |q| && q[0] == src &&
    (forall j :: 0 <= j < |q| ==> q[j] < n) &&
    dist[src] == 0 &&
    (forall i, j :: 0 <= i < j < |q| ==> dist[q[i]] <= dist[q[j]]) &&
    (forall j {:trigger par[q[j]]} :: 0 < j < |q| ==>
       0 <= par[q[j]] < n && par[q[j]] in q && q[j] in g.adj[par[q[j]]] && dist[q[j]] == dist[par[q[j]]] + 1)
  }

  /** The first done members of q have all their friends enqueued, one friendship further at most. */
  ghost predicate QueueClosed(g: Graph, dist: seq<nat>, q: seq<nat>, done: nat) {
    |dist| == |g.adj| && done <= |q| &&
    (forall j :: 0 <= j < |q| ==> q[j] < |g.adj|) &&
    (forall i, w :: 0 <= i < done && w in g.adj[q[i]] ==> w < |dist| && w in q && dist[w] <= dist[q[i]] + 1)
  }

  /** No enqueued member is more than m friendships from the source. */
  ghost predicate Frontier(q: seq<nat>, dist: seq<nat>, m: int) {
    forall j :: 0 <= j < |q| ==> q[j] < |dist| && dist[q[j]] <= m
  }

  /** The first k friends of ptr are enqueued, at most one friendship further than ptr. */
  ghost predicate Scanned(g: Graph, q: seq<nat>, dist: seq<nat>, ptr: nat, k: nat) {
    ptr < |g.adj| && ptr < |dist| && k <= |g.adj[ptr]| &&
    forall w :: w in g.adj[ptr][..k] ==> w in q && w < |dist| && dist[w] <= dist[ptr] + 1
  }

  lemma BfsStart(g: Graph, src: nat, vis: seq<int>, par: seq<int>, dist: seq<nat>)
    requires WellFormed(g) && src < |g.members|
    requires |vis| == |par| == |dist| == |g.members|
    requires forall v :: 0 <= v < |vis| ==> vis[v] == if v == src then 1 else 0
    requires forall v :: 0 <= v < |dist| ==> dist[v] == 0
    ensures BfsQueue(g, src, vis, par, dist, [src], 0)
    ensures Frontier([src], dist, dist[src] + 1)
  {
  }

  lemma EnqueueMarks(g: Graph, src: nat, vis: seq<int>, q: seq<nat>, f: nat)
    requires QueueMarks(g, src, vis, q) && f < |vis| && vis[f] == 0
    ensures f !in q && QueueMarks(g, src, vis[f := 1], q + [f])
  {
  }

  lemma EnqueueLevels(g: Graph, src: nat, par: seq<int>, dist: seq<nat>, q: seq<nat>, ptr: nat, f: nat)
    requires QueueLevels(g, src, par, dist, q) && f < |dist| && f !in q
    requires ptr in q && f in g.adj[ptr] && Frontier(q, dist, dist[ptr] + 1)
    ensures QueueLevels(g, src, par[f := ptr], dist[f := dist[ptr] + 1], q + [f])
  {
    var par', dist', q' := par[f := ptr], dist[f := dist[ptr] + 1], q + [f];
    forall j | 0 <= j < |q| ensures dist'[q'[j]] == dist[q[j]] && par'[q'[j]] == par[q[j]] {
      assert q[j] != f;
    }
  }

  lemma EnqueueClosed(g: Graph, dist: seq<nat>, q: seq<nat>, done: nat, f: nat, d: nat)
    requires QueueClosed(g, dist, q, done) && f < |g.adj| && f !in q
    ensures QueueClosed(g, dist[f := d], q + [f], done)
  {
  }

  /** Enqueuing an unvisited friend f of ptr, the member being scanned. */
  lemma BfsEnqueue(g: Graph, src: nat, vis: seq<int>, par: seq<int>, dist: seq<nat>, q: seq<nat>, done: nat, ptr: nat, k: nat)
    requires WellFormed(g) && BfsQueue(g, src, vis, par, dist, q, done)
    requires done < |q| && ptr == q[done] && Frontier(q, dist, dist[ptr] + 1)
    requires Scanned(g, q, dist, ptr, k) && k < |g.adj[ptr]| && vis[g.adj[ptr][k]] == 0
    ensures var f := g.adj[ptr][k];
      var dist' := dist[f := dist[ptr] + 1];
      BfsQueue(g, src, vis[f := 1], par[f := ptr], dist', q + [f], done) &&
      Frontier(q + [f], dist', dist'[ptr] + 1) &&
      Scanned(g, q + [f], dist', ptr, k + 1) && dist'[ptr] == dist[ptr]
  {
    var f := g.adj[ptr][k];
    assert f in g.adj[ptr];
    EnqueueMarks(g, src, vis, q, f);
    EnqueueLevels(g, src, par, dist, q, ptr, f);
    EnqueueClosed(g, dist, q, done, f, dist[ptr] + 1);
    EnqueueScan(g, q, dist, ptr, k);
  }

  /** The scan of ptr's friends and the frontier both survive enqueuing ptr's k-th friend. */
  lemma EnqueueScan(g: Graph, q: seq<nat>, dist: seq<nat>, ptr: nat, k: nat)
    requires Scanned(g, q, dist, ptr, k) && k < |g.adj[ptr]| && ptr in q
    requires Frontier(q, dist, dist[ptr] + 1) && g.adj[ptr][k] < |dist| && g.adj[ptr][k] !in q
    ensures var f := g.adj[ptr][k];
      var dist' := dist[f := dist[ptr] + 1];
      Frontier(q + [f], dist', dist'[ptr] + 1) && Scanned(g, q + [f], dist', ptr, k + 1) && dist'[ptr] == dist[ptr]
  {
    var f := g.adj[ptr][k];
    assert g.adj[ptr][..k + 1] == g.adj[ptr][..k] + [f];
  }

  /** Skipping a friend of ptr that is already enqueued. */
  lemma BfsSkip(g: Graph, src: nat, vis: seq<int>, par: seq<int>, dist: seq<nat>, q: seq<nat>, done: nat, ptr: nat, k: nat)
    requires WellFormed(g) && BfsQueue(g, src, vis, par, dist, q, done)
    requires done < |q| && ptr == q[done] && Frontier(q, dist, dist[ptr] + 1)
    requires Scanned(g, q, dist, ptr, k) && k < |g.adj[ptr]| && vis[g.adj[ptr][k]] != 0
    ensures Scanned(g, q, dist, ptr, k + 1)
  {
    assert g.adj[ptr][..k + 1] == g.adj[ptr][..k] + [g.adj[ptr][k]];
  }

  /** Once every friend of ptr is enqueued, ptr counts as done. */
  lemma BfsFinishScan(g: Graph, src: nat, vis: seq<int>, par: seq<int>, dist: seq<nat>, q: seq<nat>, done: nat, ptr: nat)
    requires BfsQueue(g, src, vis, par, dist, q, done)
    requires done < |q| && ptr == q[done] && Frontier(q, dist, dist[ptr] + 1)
    requires Scanned(g, q, dist, ptr, |g.adj[ptr]|)
    ensures BfsQueue(g, src, vis, par, dist, q, done + 1)
    ensures done + 1 < |q| ==> Frontier(q, dist, dist[q[done + 1]] + 1)
  {
    assert g.adj[ptr][..|g.adj[ptr]|] == g.adj[ptr];
    assert QueueClosed(g, dist, q, done + 1);
    if done + 1 < |q| {
      assert dist[ptr] <= dist[q[done + 1]];
    }
  }

  /**
   * Along a walk from src, every member up to the first one as far from
   * src as q[done] is enqueued no further from src than its place on the
   * walk.
   */
  lemma {:induction false} BfsReaches(g: Graph, src: nat, vis: seq<int>, par: seq<int>, dist: seq<nat>, q: seq<nat>, done: nat,
                                      p: seq<nat>, m: nat)
    requires QueueLevels(g, src, par, dist, q) && QueueClosed(g, dist, q, done) && done < |q|
    requires IsPath(g, p) && p[0] == src && m < |p|
    requires m == 0 || m - 1 < dist[q[done]]
    ensures p[m] in q && dist[p[m]] <= m
  {
    if m > 0 {
      BfsReaches(g, src, vis, par, dist, q, done, p, m - 1);
      var i :| 0 <= i < |q| && q[i] == p[m - 1];
      assert forall k :: done <= k < |q| ==> dist[q[done]] <= dist[q[k]];
      assert i < done;
      assert p[m] in g.adj[q[i]];
      assert p[m] in q && dist[p[m]] <= dist[q[i]] + 1;
    }
  }

  /** When q[done] comes off the queue, no walk from src reaches it in fewer friendships than dist says. */
  lemma BfsShortest(g: Graph, src: nat, vis: seq<int>, par: seq<int>, dist: seq<nat>, q: seq<nat>, done: nat, p: seq<nat>)
    requires BfsQueue(g, src, vis, par, dist, q, done) && done < |q|
    requires IsPath(g, p) && p[0] == src && p[|p| - 1] == q[done]
    ensures dist[q[done]] <= |p| - 1
  {
    if |p| - 1 < dist[q[done]] {
      BfsReaches(g, src, vis, par, dist, q, done, p, |p| - 1);
    }
  }

  /**
   * One step up the parent array from the bottom of the stack s: while
   * the stack has not reached src, the next member is an enqueued friend
   * one friendship closer to src.
   */
  lemma ParentStep(g: Graph, src: nat, par: seq<int>, dist: seq<nat>, q: seq<nat>, ptr: nat, s: seq<nat>, cur: int)
    requires QueueLevels(g, src, par, dist, q)
    requires s == [] ==> cur == ptr && ptr in q
    requires ptr < |dist| && forall j :: 0 <= j < |s| ==> s[j] < |dist| && s[j] in q && dist[s[j]] + j == dist[ptr]
    requires s != [] ==> cur == par[s[|s| - 1]] && s[|s| - 1] != src
    ensures 0 <= cur < |par| && cur in q && dist[cur] + |s| == dist[ptr] && |s| <= dist[ptr]
    ensures s != [] ==> s[|s| - 1] in g.adj[cur]
  {
    if s != [] {
      var v := s[|s| - 1];
      var j :| 0 <= j < |q| && q[j] == v;
      assert j != 0;
    }
  }

  /** Once every enqueued member is done, every walk from src stays among them. */
  lemma {:induction false} BfsClosed(g: Graph, src: nat, vis: seq<int>, par: seq<int>, dist: seq<nat>, q: seq<nat>, p: seq<nat>, m: nat)
    requires BfsQueue(g, src, vis, par, dist, q, |q|)
    requires IsPath(g, p) && p[0] == src && m < |p|
    ensures p[m] in q
  {
    if m > 0 {
      BfsClosed(g, src, vis, par, dist, q, p, m - 1);
      var i :| 0 <= i < |q| && q[i] == p[m - 1];
      assert p[m] in g.adj[q[i]];
    }
  }

  /** A search that emptied its queue without meeting a member named b leaves no walk from a to b. */
  lemma NoChainLeft(g: Graph, src: nat, vis: seq<int>, par: seq<int>, dist: seq<nat>, q: seq<nat>, a: string, b: string)
    requires WellFormed(g) && BfsQueue(g, src, vis, par, dist, q, |q|)
    requires NoneNamed(g, q, b) && g.members[src].name == a
    ensures forall other :: !IsChain(g, other, a, b)
  {
    forall other | IsChain(g, other, a, b)
      ensures false
    {
      NamedMember(g, other[0], a);
      BfsClosed(g, src, vis, par, dist, q, other, |other| - 1);
    }
  }
}
