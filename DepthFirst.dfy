/**
 * Depth-first numbering of the friendship graph and the connector rule:
 * the state the recursive search keeps in its arrays (visited, dfsnum,
 * back, origin, connector and the shared counter), what one call may
 * change, and the steps of its loop over a friend list.
 */
module DepthFirst {
  import opened FriendGraph

  function Min(a: int, b: int): int {
    if a <= b then a else b
  }

  /** The tree children of u: the members whose origin is u. */
  function Children(origin: seq<int>, u: int): set<nat> {
    set w: nat | w < |origin| && origin[w] == u
  }

  /** Some member of kids has a back number of at least x. */
  ghost predicate KidReaches(kids: set<nat>, back: seq<int>, x: int) {
    exists w :: w in kids && w < |back| && back[w] >= x
  }

  /**
   * The connector rule for u: a root of the search with at least two tree
   * children, or a non-root with a tree child w whose back number does
   * not reach above dfsnum[u].
   */
  ghost predicate Flagged(origin: seq<int>, num: seq<int>, back: seq<int>, u: nat) {
    u < |origin| && u < |num| && |back| == |origin| &&
    ((origin[u] == -1 && |Children(origin, u)| >= 2) ||
     (origin[u] != -1 && exists w :: 0 <= w < |origin| && origin[w] == u && back[w] >= num[u]))
  }

  /** u's connector mark is 1 exactly when the rule flags u, and 0 otherwise. */
  ghost predicate RuleHolds(origin: seq<int>, num: seq<int>, back: seq<int>, conn: seq<int>, u: nat) {
    u < |conn| && conn[u] == if Flagged(origin, num, back, u) then 1 else 0
  }

  /** The least of m and the back numbers of u's tree children among the first k members. */
  function KidsMin(origin: seq<int>, back: seq<int>, u: int, k: nat, m: int): int
    requires k <= |origin| && |back| == |origin|
  {
    if k == 0 then m
    else
      var r := KidsMin(origin, back, u, k - 1, m);
      if origin[k - 1] == u then Min(r, back[k - 1]) else r
  }

  /**
   * The least of m and the dfsnum of every friend in fs, in list order,
   * other than o (the origin of the member whose friends these are).
   */
  function FriendsMin(fs: seq<nat>, o: int, num: seq<int>, m: int): int {
    if fs == [] then m
    else
      var r := FriendsMin(fs[..|fs| - 1], o, num, m);
      var f := fs[|fs| - 1];
      if f != o && f < |num| then Min(r, num[f]) else r
  }

  /**
   * The low point of u over the friends in fs: the least of dfsnum[u],
   * the back numbers of u's tree children, and the dfsnum of every friend
   * in fs other than u's origin.
   */
  function LowOf(fs: seq<nat>, origin: seq<int>, num: seq<int>, back: seq<int>, u: nat): int
    requires u < |origin| && |num| == |origin| && |back| == |origin|
  {
    FriendsMin(fs, origin[u], num, KidsMin(origin, back, u, |origin|, num[u]))
  }

  /** u's back number is its low point over all its friends. */
  ghost predicate LowPoint(g: Graph, origin: seq<int>, num: seq<int>, back: seq<int>, u: nat) {
    u < |g.adj| && u < |origin| && |num| == |origin| && |back| == |origin| &&
    back[u] == LowOf(g.adj[u], origin, num, back, u)
  }

  /** u's call has returned: u obeys the connector rule and its back number is its low point. */
  ghost predicate Settled(g: Graph, origin: seq<int>, num: seq<int>, back: seq<int>, conn: seq<int>, u: nat) {
    RuleHolds(origin, num, back, conn, u) && LowPoint(g, origin, num, back, u)
  }

  // ---------------------------------------------------------------------
  // The state of the search
  // ---------------------------------------------------------------------

  /**
   * order lists the visited members in the order they were reached; the
   * counter is one past the last number given; the j-th member reached
   * has dfsnum j + 1, and unvisited members have dfsnum 0.
   */
  ghost predicate DfsNumbers(g: Graph, vis: seq<int>, num: seq<int>, count: int, order: seq<nat>) {
    var n := |g.members|;
    |g.adj| == n && |vis| == n && |num| == n && |order| + 1 == count &&
    (forall j :: 0 <= j < |order| ==> order[j] < n) &&
    (forall i, j :: 0 <= i < j < |order| ==> order[i] != order[j]) &&
    (forall v :: 0 <= v < n ==> vis[v] == if v in order then 1 else 0) &&
    (forall j :: 0 <= j < |order| ==> num[order[j]] == j + 1) &&
    (forall v :: 0 <= v < n && v !in order ==> num[v] == 0)
  }

  /**
   * Unvisited members have no connector mark and, but for the one about
   * to be visited (pending), no origin; visited members have
   * 1 <= back <= dfsnum.
   */
  ghost predicate DfsMarks(g: Graph, origin: seq<int>, num: seq<int>, back: seq<int>, conn: seq<int>, order: seq<nat>, pending: int) {
    var n := |g.members|;
    |origin| == n && |num| == n && |back| == n && |conn| == n &&
    (forall j :: 0 <= j < |order| ==> order[j] < n) &&
    (forall v :: 0 <= v < n && v !in order ==> conn[v] == 0 && (v != pending ==> origin[v] == -1)) &&
    (forall j :: 0 <= j < |order| ==> 1 <= back[order[j]] <= num[order[j]])
  }

  /** Every origin is a visited friend, numbered before the member it leads to. */
  ghost predicate DfsTree(g: Graph, origin: seq<int>, num: seq<int>, order: seq<nat>) {
    var n := |g.members|;
    |g.adj| == n && |origin| == n && |num| == n &&
    forall w :: 0 <= w < n && origin[w] != -1 ==>
      0 <= origin[w] < n && origin[w] in order && w in g.adj[origin[w]] && (w in order ==> num[origin[w]] < num[w])
  }

  ghost predicate DfsState(g: Graph, vis: seq<int>, origin: seq<int>, num: seq<int>, back: seq<int>, conn: seq<int>,
                           count: int, order: seq<nat>, pending: int) {
    DfsNumbers(g, vis, num, count, order) && DfsMarks(g, origin, num, back, conn, order, pending) &&
    DfsTree(g, origin, num, order)
  }

  /**
   * What a call for v leaves behind, against the arrays it started from
   * (o_...): the members visited before keep their entries, v keeps its
   * origin, it is the first member the call visits, and every other
   * member the call visits has its origin among those the call visited.
   */
  ghost predicate DfsFrame(o_origin: seq<int>, o_num: seq<int>, o_back: seq<int>, o_conn: seq<int>,
                           origin: seq<int>, num: seq<int>, back: seq<int>, conn: seq<int>,
                           order0: seq<nat>, order: seq<nat>, v: nat) {
    var n := |o_origin|;
    |o_num| == n && |o_back| == n && |o_conn| == n &&
    |origin| == n && |num| == n && |back| == n && |conn| == n && v < n &&
    |order| > |order0| && order[..|order0|] == order0 && order[|order0|] == v &&
    (forall j :: |order0| <= j < |order| ==> order[j] < n) &&
    (forall w :: w in order0 && w < n ==>
       origin[w] == o_origin[w] && num[w] == o_num[w] && back[w] == o_back[w] && conn[w] == o_conn[w]) &&
    origin[v] == o_origin[v] &&
    (forall j {:trigger origin[order[j]]} :: |order0| < j < |order| ==> origin[order[j]] in order[|order0|..])
  }

  /**
   * The loop over v's friend list: the state, the frame against the
   * arrays at the start of the call, the connector rule for every member
   * whose call has returned, kids as v's tree children so far, and v's
   * connector mark as the non-root rule over those children.
   */
  ghost predicate DfsLoop(g: Graph, v: nat, o_origin: seq<int>, o_num: seq<int>, o_back: seq<int>, o_conn: seq<int>,
                          vis: seq<int>, origin: seq<int>, num: seq<int>, back: seq<int>, conn: seq<int>, count: int,
                          order0: seq<nat>, order: seq<nat>, kids: set<nat>, seen: seq<nat>) {
    DfsState(g, vis, origin, num, back, conn, count, order, -1) &&
    DfsFrame(o_origin, o_num, o_back, o_conn, origin, num, back, conn, order0, order, v) &&
    (o_origin[v] == -1 || o_origin[v] in order0) &&
    LoopRules(g, origin, num, back, conn, order0, order) &&
    LoopKids(v, origin, num, back, conn, order0, order, kids) &&
    LowSoFar(v, origin, num, back, order, seen)
  }

  /** Every member visited after v and before now has finished and is settled. */
  ghost predicate LoopRules(g: Graph, origin: seq<int>, num: seq<int>, back: seq<int>, conn: seq<int>,
                            order0: seq<nat>, order: seq<nat>) {
    SettledIn(g, origin, num, back, conn, order, |order0| + 1, |order|)
  }

  /** Settled holds for order[j] with lo <= j < hi (unfolded only on demand, being recursive). */
  ghost predicate SettledIn(g: Graph, origin: seq<int>, num: seq<int>, back: seq<int>, conn: seq<int>,
                            order: seq<nat>, lo: int, hi: int)
    decreases hi - lo
  {
    hi <= lo ||
    (0 <= lo && hi <= |order| && Settled(g, origin, num, back, conn, order[hi - 1]) &&
     SettledIn(g, origin, num, back, conn, order, lo, hi - 1))
  }

  lemma {:induction false} SettledInAll(g: Graph, origin: seq<int>, num: seq<int>, back: seq<int>, conn: seq<int>,
                                        order: seq<nat>, lo: int, hi: int)
    requires SettledIn(g, origin, num, back, conn, order, lo, hi) && 0 <= lo && hi <= |order|
    ensures forall j :: lo <= j < hi ==> Settled(g, origin, num, back, conn, order[j])
    decreases hi - lo
  {
    if lo < hi {
      SettledInAll(g, origin, num, back, conn, order, lo, hi - 1);
    }
  }

  lemma {:induction false} SettledInFromAll(g: Graph, origin: seq<int>, num: seq<int>, back: seq<int>, conn: seq<int>,
                                            order: seq<nat>, lo: int, hi: int)
    requires 0 <= lo && hi <= |order|
    requires forall j :: lo <= j < hi ==> Settled(g, origin, num, back, conn, order[j])
    ensures SettledIn(g, origin, num, back, conn, order, lo, hi)
    decreases hi - lo
  {
    if lo < hi {
      SettledInFromAll(g, origin, num, back, conn, order, lo, hi - 1);
    }
  }

  /** Settled over [lo, mid) and over [mid, hi) is settled over [lo, hi). */
  lemma {:induction false} SettledInJoin(g: Graph, origin: seq<int>, num: seq<int>, back: seq<int>, conn: seq<int>,
                                         order: seq<nat>, lo: int, mid: int, hi: int)
    requires lo <= mid <= hi
    requires SettledIn(g, origin, num, back, conn, order, lo, mid)
    requires SettledIn(g, origin, num, back, conn, order, mid, hi)
    ensures SettledIn(g, origin, num, back, conn, order, lo, hi)
    decreases hi - mid
  {
    if mid < hi {
      SettledInJoin(g, origin, num, back, conn, order, lo, mid, hi - 1);
    }
  }

  /**
   * Changing v's back number and mark keeps settled every member of
   * [lo, hi) that is neither v nor v's origin.
   */
  lemma {:induction false} SettledInUpdate(g: Graph, origin: seq<int>, num: seq<int>, back: seq<int>, conn: seq<int>,
                                           order: seq<nat>, lo: int, hi: int, v: nat, b: int, c: int)
    requires SettledIn(g, origin, num, back, conn, order, lo, hi)
    requires v < |back| == |origin| && v < |conn|
    requires forall j :: lo <= j < hi && 0 <= j < |order| ==> order[j] != v && order[j] != origin[v]
    ensures SettledIn(g, origin, num, back[v := b], conn[v := c], order, lo, hi)
    decreases hi - lo
  {
    if lo < hi {
      SettledInUpdate(g, origin, num, back, conn, order, lo, hi - 1, v, b, c);
      RuleLocal(g, origin, num, back, conn, back[v := b], conn[v := c], order[hi - 1]);
    }
  }

  /** Giving the unvisited member f an origin keeps settled every member of [lo, hi) other than f and f's new origin. */
  lemma {:induction false} SettledInOrigin(g: Graph, origin: seq<int>, origin': seq<int>, num: seq<int>, back: seq<int>,
                                           conn: seq<int>, order: seq<nat>, lo: int, hi: int, f: nat)
    requires SettledIn(g, origin, num, back, conn, order, lo, hi) && |back| == |origin|
    requires |origin'| == |origin| && f < |origin| && origin[f] == -1
    requires forall w :: 0 <= w < |origin| && w != f ==> origin'[w] == origin[w]
    requires forall j :: lo <= j < hi && 0 <= j < |order| ==> order[j] != f && order[j] != origin'[f]
    ensures SettledIn(g, origin', num, back, conn, order, lo, hi)
    decreases hi - lo
  {
    if lo < hi {
      SettledInOrigin(g, origin, origin', num, back, conn, order, lo, hi - 1, f);
      RuleLocalOrigin(g, origin, origin', num, back, conn, order[hi - 1], f);
    }
  }

  /** A call for the unvisited member f keeps settled every member of [lo, hi) other than f's origin. */
  lemma SettledInSurvive(g: Graph, p_origin: seq<int>, p_num: seq<int>, p_back: seq<int>,
                                            p_conn: seq<int>, order: seq<nat>, f: nat,
                                            origin: seq<int>, num: seq<int>, back: seq<int>, conn: seq<int>,
                                            order2: seq<nat>, lo: int, hi: int)
    requires DfsMarks(g, p_origin, p_num, p_back, p_conn, order, f) && f !in order
    requires DfsFrame(p_origin, p_num, p_back, p_conn, origin, num, back, conn, order, order2, f)
    requires forall i, j :: 0 <= i < j < |order2| ==> order2[i] != order2[j]
    requires forall w :: 0 <= w < |origin| && w !in order2 ==> origin[w] == -1
    requires forall w :: 0 <= w < |p_num| && w !in order ==> p_num[w] == 0
    requires SettledIn(g, p_origin, p_num, p_back, p_conn, order, lo, hi) && hi <= |order|
    requires forall j :: lo <= j < hi && 0 <= j ==> order[j] != p_origin[f]
    ensures SettledIn(g, origin, num, back, conn, order2, lo, hi)
  {
    if lo < hi {
      SettledInAll(g, p_origin, p_num, p_back, p_conn, order, lo, hi);
      assert order2[..|order|] == order;
      forall j | lo <= j < hi
        ensures Settled(g, origin, num, back, conn, order2[j])
      {
        assert order2[j] == order[j];
        RuleSurvives(g, p_origin, p_num, p_back, p_conn, order, f, origin, num, back, conn, order2, order[j]);
      }
      SettledInFromAll(g, origin, num, back, conn, order2, lo, hi);
    }
  }


  /** kids are v's tree children so far, and v's mark is the non-root rule over them. */
  ghost predicate LoopKids(v: nat, origin: seq<int>, num: seq<int>, back: seq<int>, conn: seq<int>,
                           order0: seq<nat>, order: seq<nat>, kids: set<nat>) {
    v < |origin| && v < |num| && v < |conn| && |order0| < |order| &&
    kids == Children(origin, v) && (forall w :: w in kids ==> w < |back| && w in order[|order0| + 1..]) &&
    conn[v] == if origin[v] != -1 && KidReaches(kids, back, num[v]) then 1 else 0
  }

  /**
   * v's back number while its loop runs: its low point over the friends
   * scanned so far (seen), every one of which is visited.
   */
  ghost predicate LowSoFar(v: nat, origin: seq<int>, num: seq<int>, back: seq<int>, order: seq<nat>, seen: seq<nat>) {
    v < |origin| && |num| == |origin| && |back| == |origin| &&
    (forall f :: f in seen ==> f in order) &&
    back[v] == LowOf(seen, origin, num, back, v)
  }

  // ---------------------------------------------------------------------
  // Low points
  // ---------------------------------------------------------------------

  /** The minimum over children never exceeds its starting value. */
  lemma {:induction false} KidsMinLe(origin: seq<int>, back: seq<int>, u: int, k: nat, m: int)
    requires k <= |origin| && |back| == |origin|
    ensures KidsMin(origin, back, u, k, m) <= m
  {
    if k > 0 {
      KidsMinLe(origin, back, u, k - 1, m);
    }
  }

  /** With no tree child of u among the first k members, the minimum is the starting value. */
  lemma {:induction false} KidsMinNone(origin: seq<int>, back: seq<int>, u: int, k: nat, m: int)
    requires k <= |origin| && |back| == |origin|
    requires forall w :: 0 <= w < k ==> origin[w] != u
    ensures KidsMin(origin, back, u, k, m) == m
  {
    if k > 0 {
      KidsMinNone(origin, back, u, k - 1, m);
    }
  }

  /** The minimum over children reads only which members are u's children and their back numbers. */
  lemma {:induction false} KidsMinSame(origin: seq<int>, back: seq<int>, origin': seq<int>, back': seq<int>,
                                       u: int, k: nat, m: int)
    requires k <= |origin| && |back| == |origin| && |origin'| == |origin| && |back'| == |origin|
    requires forall w :: 0 <= w < k ==> (origin'[w] == u <==> origin[w] == u)
    requires forall w :: 0 <= w < k && origin[w] == u ==> back'[w] == back[w]
    ensures KidsMin(origin', back', u, k, m) == KidsMin(origin, back, u, k, m)
  {
    if k > 0 {
      KidsMinSame(origin, back, origin', back', u, k - 1, m);
    }
  }

  /** One more tree child f brings the minimum down to f's back number at most. */
  lemma {:induction false} KidsMinAdd(origin: seq<int>, back: seq<int>, origin': seq<int>, back': seq<int>,
                                      u: int, k: nat, m: int, f: nat)
    requires k <= |origin| && |back| == |origin| && |origin'| == |origin| && |back'| == |origin|
    requires f < |origin| && origin'[f] == u && origin[f] != u
    requires forall w :: 0 <= w < k && w != f ==> (origin'[w] == u <==> origin[w] == u)
    requires forall w :: 0 <= w < k && origin[w] == u ==> back'[w] == back[w]
    ensures KidsMin(origin', back', u, k, m) ==
            if f < k then Min(KidsMin(origin, back, u, k, m), back'[f]) else KidsMin(origin, back, u, k, m)
  {
    if k > 0 {
      KidsMinAdd(origin, back, origin', back', u, k - 1, m, f);
    }
  }

  /** The minimum over friends never exceeds its starting value, nor the dfsnum of a friend it counts. */
  lemma {:induction false} FriendsMinLe(fs: seq<nat>, o: int, num: seq<int>, m: int)
    ensures FriendsMin(fs, o, num, m) <= m
    ensures forall f :: f in fs && f != o && f < |num| ==> FriendsMin(fs, o, num, m) <= num[f]
  {
    if fs != [] {
      FriendsMinLe(fs[..|fs| - 1], o, num, m);
      assert fs == fs[..|fs| - 1] + [fs[|fs| - 1]];
    }
  }

  /** Lowering the starting value to x lowers the minimum over friends to x at most. */
  lemma {:induction false} FriendsMinShift(fs: seq<nat>, o: int, num: seq<int>, m: int, x: int)
    ensures FriendsMin(fs, o, num, Min(m, x)) == Min(FriendsMin(fs, o, num, m), x)
  {
    if fs != [] {
      FriendsMinShift(fs[..|fs| - 1], o, num, m, x);
    }
  }

  /** The minimum over friends reads only the dfsnum of the friends it counts. */
  lemma {:induction false} FriendsMinSame(fs: seq<nat>, o: int, num: seq<int>, num': seq<int>, m: int)
    requires |num'| == |num|
    requires forall f :: f in fs && f != o && f < |num| ==> num'[f] == num[f]
    ensures FriendsMin(fs, o, num', m) == FriendsMin(fs, o, num, m)
  {
    if fs != [] {
      assert fs == fs[..|fs| - 1] + [fs[|fs| - 1]];
      FriendsMinSame(fs[..|fs| - 1], o, num, num', m);
    }
  }

  /** Scanning one more friend f: it counts unless it is o. */
  lemma FriendsMinAppend(fs: seq<nat>, f: nat, o: int, num: seq<int>, m: int)
    ensures FriendsMin(fs + [f], o, num, m) ==
            if f != o && f < |num| then Min(FriendsMin(fs, o, num, m), num[f]) else FriendsMin(fs, o, num, m)
  {
    assert (fs + [f])[..|fs|] == fs;
  }

  // ---------------------------------------------------------------------
  // Steps
  // ---------------------------------------------------------------------

  /** Visiting v: it is marked and given the next number as dfsnum and back. */
  lemma VisitStep(g: Graph, vis: seq<int>, origin: seq<int>, num: seq<int>, back: seq<int>, conn: seq<int>,
                  count: int, order: seq<nat>, v: nat)
    requires DfsState(g, vis, origin, num, back, conn, count, order, v) && v < |g.members| && vis[v] == 0
    ensures DfsState(g, vis[v := 1], origin, num[v := count], back[v := count], conn, count + 1, order + [v], -1)
    ensures Children(origin, v) == {}
    ensures origin[v] == -1 || origin[v] in order
    ensures DfsFrame(origin, num, back, conn, origin, num[v := count], back[v := count], conn, order, order + [v], v)
  {
    VisitNumbers(g, vis, num, count, order, v);
    VisitMarks(g, vis, origin, num, back, conn, count, order, v);
    VisitTree(g, vis, origin, num, count, order, v);
    VisitFrame(g, vis, origin, num, back, conn, count, order, v);
  }

  lemma VisitNumbers(g: Graph, vis: seq<int>, num: seq<int>, count: int, order: seq<nat>, v: nat)
    requires DfsNumbers(g, vis, num, count, order) && v < |g.members| && vis[v] == 0
    ensures v !in order
    ensures DfsNumbers(g, vis[v := 1], num[v := count], count + 1, order + [v])
  {
    var order' := order + [v];
    assert forall j :: 0 <= j < |order| ==> order'[j] == order[j];
    assert forall w :: w in order' <==> w in order || w == v;
  }

  lemma VisitMarks(g: Graph, vis: seq<int>, origin: seq<int>, num: seq<int>, back: seq<int>, conn: seq<int>,
                   count: int, order: seq<nat>, v: nat)
    requires DfsNumbers(g, vis, num, count, order) && DfsMarks(g, origin, num, back, conn, order, v)
    requires v < |g.members| && vis[v] == 0
    ensures DfsMarks(g, origin, num[v := count], back[v := count], conn, order + [v], -1)
  {
    var order' := order + [v];
    assert v !in order;
    assert forall j :: 0 <= j < |order| ==> order'[j] == order[j];
    assert forall w :: w in order' <==> w in order || w == v;
  }

  lemma VisitTree(g: Graph, vis: seq<int>, origin: seq<int>, num: seq<int>, count: int, order: seq<nat>, v: nat)
    requires DfsNumbers(g, vis, num, count, order) && DfsTree(g, origin, num, order)
    requires v < |g.members| && vis[v] == 0
    ensures DfsTree(g, origin, num[v := count], order + [v])
    ensures Children(origin, v) == {}
    ensures origin[v] == -1 || origin[v] in order
  {
    assert v !in order;
    forall w | 0 <= w < |origin| && origin[w] != -1
      ensures num[origin[w]] < count
    {
      var j :| 0 <= j < |order| && order[j] == origin[w];
    }
  }

  lemma VisitFrame(g: Graph, vis: seq<int>, origin: seq<int>, num: seq<int>, back: seq<int>, conn: seq<int>,
                   count: int, order: seq<nat>, v: nat)
    requires DfsNumbers(g, vis, num, count, order) && DfsMarks(g, origin, num, back, conn, order, v)
    requires v < |g.members| && vis[v] == 0
    ensures DfsFrame(origin, num, back, conn, origin, num[v := count], back[v := count], conn, order, order + [v], v)
  {
    assert v !in order;
    var order' := order + [v];
    assert order'[..|order|] == order;
  }

  /** Starting the loop over v's friends, right after visiting v. */
  lemma LoopStart(g: Graph, v: nat, o_vis: seq<int>, o_origin: seq<int>, o_num: seq<int>, o_back: seq<int>, o_conn: seq<int>,
                  count: int, order0: seq<nat>)
    requires DfsState(g, o_vis, o_origin, o_num, o_back, o_conn, count, order0, v) && v < |g.members| && o_vis[v] == 0
    ensures DfsLoop(g, v, o_origin, o_num, o_back, o_conn, o_vis[v := 1], o_origin, o_num[v := count], o_back[v := count],
                    o_conn, count + 1, order0, order0 + [v], {}, [])
  {
    VisitStep(g, o_vis, o_origin, o_num, o_back, o_conn, count, order0, v);
    forall w | 0 <= w < |o_origin|
      ensures o_origin[w] != v
    {
      assert w !in Children(o_origin, v);
    }
    KidsMinNone(o_origin, o_back[v := count], v, |o_origin|, count);
  }

  /** Before the call for an unvisited friend f of v, f's origin becomes v. */
  lemma PrepareChild(g: Graph, vis: seq<int>, origin: seq<int>, num: seq<int>, back: seq<int>, conn: seq<int>,
                     count: int, order: seq<nat>, v: nat, f: nat)
    requires WellFormed(g) && DfsState(g, vis, origin, num, back, conn, count, order, -1)
    requires v in order && v < |g.adj| && f in g.adj[v] && vis[f] == 0
    ensures DfsState(g, vis, origin[f := v], num, back, conn, count, order, f)
    ensures f !in Children(origin, v) && Children(origin[f := v], v) == Children(origin, v) + {f}
  {
    assert f < |g.members| && f !in order;
  }

  /**
   * A call for f, started with f pending, changes no member's tree
   * children among the members visited before it.
   */
  lemma ChildrenSurvive(g: Graph, p_origin: seq<int>, p_num: seq<int>, p_back: seq<int>, p_conn: seq<int>,
                        order: seq<nat>, f: nat,
                        origin: seq<int>, num: seq<int>, back: seq<int>, conn: seq<int>, order2: seq<nat>, u: nat)
    requires DfsMarks(g, p_origin, p_num, p_back, p_conn, order, f) && f !in order
    requires DfsFrame(p_origin, p_num, p_back, p_conn, origin, num, back, conn, order, order2, f)
    requires forall i, j :: 0 <= i < j < |order2| ==> order2[i] != order2[j]
    requires forall w :: 0 <= w < |origin| && w !in order2 ==> origin[w] == -1
    requires u in order
    ensures Children(origin, u) == Children(p_origin, u)
  {
    forall w: nat | w < |origin|
      ensures origin[w] == u <==> p_origin[w] == u
    {
      if w in order {
      } else if w == f {
      } else if w in order2 {
        var j :| 0 <= j < |order2| && order2[j] == w;
        forall i | 0 <= i < |order|
          ensures order2[i] != w
        {
          assert order2[i] == order[i];
        }
        assert j > |order|;
        assert origin[w] in order2[|order|..];
        assert u !in order2[|order|..] by {
          var i :| 0 <= i < |order| && order[i] == u;
          assert order2[i] == u;
        }
      }
    }
  }

  /**
   * The connector rule for a member visited before a call for f survives
   * it, unless that member is f's origin (whose loop is still running).
   */
  lemma RuleSurvives(g: Graph, p_origin: seq<int>, p_num: seq<int>, p_back: seq<int>, p_conn: seq<int>,
                     order: seq<nat>, f: nat,
                     origin: seq<int>, num: seq<int>, back: seq<int>, conn: seq<int>, order2: seq<nat>, u: nat)
    requires DfsMarks(g, p_origin, p_num, p_back, p_conn, order, f) && f !in order
    requires DfsFrame(p_origin, p_num, p_back, p_conn, origin, num, back, conn, order, order2, f)
    requires forall i, j :: 0 <= i < j < |order2| ==> order2[i] != order2[j]
    requires forall w :: 0 <= w < |origin| && w !in order2 ==> origin[w] == -1
    requires forall w :: 0 <= w < |p_num| && w !in order ==> p_num[w] == 0
    requires u in order && u != p_origin[f] && Settled(g, p_origin, p_num, p_back, p_conn, u)
    ensures Settled(g, origin, num, back, conn, u)
  {
    ChildrenSurvive(g, p_origin, p_num, p_back, p_conn, order, f, origin, num, back, conn, order2, u);
    forall w | 0 <= w < |origin| && origin[w] == u
      ensures w in order && back[w] == p_back[w]
    {
      assert w in Children(origin, u);
    }
    if Flagged(p_origin, p_num, p_back, u) && p_origin[u] != -1 {
      var w :| 0 <= w < |p_origin| && p_origin[w] == u && p_back[w] >= p_num[u];
      assert w in Children(p_origin, u);
    }
    var i :| 0 <= i < |order| && order[i] == u;
    FriendsMinLe(g.adj[u], p_origin[u], p_num, KidsMin(p_origin, p_back, u, |p_origin|, p_num[u]));
    forall h | h in g.adj[u] && h != p_origin[u] && h < |p_num|
      ensures num[h] == p_num[h]
    {
      assert 1 <= p_back[u] <= p_num[h];
      assert h in order;
    }
    LowLocal(g, p_origin, p_num, p_back, origin, num, back, u);
  }

  /**
   * u's rule and low point read only u's own entries and its children's
   * back numbers (and its friends' dfsnum), so they survive any change to
   * back and conn that leaves those alone.
   */
  lemma RuleLocal(g: Graph, origin: seq<int>, num: seq<int>, back: seq<int>, conn: seq<int>,
                  back': seq<int>, conn': seq<int>, u: nat)
    requires Settled(g, origin, num, back, conn, u)
    requires |back'| == |back| && |conn'| == |conn| && conn'[u] == conn[u] && back'[u] == back[u]
    requires |back| == |origin| && forall w :: 0 <= w < |origin| && origin[w] == u ==> back'[w] == back[w]
    ensures Settled(g, origin, num, back', conn', u)
  {
    LowLocal(g, origin, num, back, origin, num, back', u);
    if Flagged(origin, num, back, u) && origin[u] != -1 {
      var w :| 0 <= w < |origin| && origin[w] == u && back[w] >= num[u];
      assert back'[w] >= num[u];
    }
    if Flagged(origin, num, back', u) && origin[u] != -1 {
      var w :| 0 <= w < |origin| && origin[w] == u && back'[w] >= num[u];
      assert back[w] >= num[u];
    }
  }

  /** Lowering a visited member's back number (within 1..dfsnum) or setting its mark keeps the marks. */
  lemma MarksUpdate(g: Graph, origin: seq<int>, num: seq<int>, back: seq<int>, conn: seq<int>, order: seq<nat>,
                    v: nat, b: int, c: int)
    requires DfsMarks(g, origin, num, back, conn, order, -1)
    requires v in order && 1 <= b <= num[v]
    ensures DfsMarks(g, origin, num, back[v := b], conn[v := c], order, -1)
  {
  }

  /**
   * The frame against the start of v's call survives the call for a tree
   * child f and the update of v's own back number and mark afterwards.
   */
  lemma LoopChildFrame(v: nat, o_origin: seq<int>, o_num: seq<int>, o_back: seq<int>, o_conn: seq<int>,
                       origin: seq<int>, num: seq<int>, back: seq<int>, conn: seq<int>,
                       order0: seq<nat>, order: seq<nat>, f: nat,
                       origin2: seq<int>, num2: seq<int>, back2: seq<int>, conn2: seq<int>,
                       order2: seq<nat>, b: int, c: int)
    requires DfsFrame(o_origin, o_num, o_back, o_conn, origin, num, back, conn, order0, order, v)
    requires forall i, j :: 0 <= i < j < |order| ==> order[i] != order[j]
    requires f < |origin| && f !in order
    requires DfsFrame(origin[f := v], num, back, conn, origin2, num2, back2, conn2, order, order2, f)
    ensures DfsFrame(o_origin, o_num, o_back, o_conn, origin2, num2, back2[v := b], conn2[v := c], order0, order2, v)
    ensures v !in order0 && f != v && v in order
  {
    assert order[|order0|] == v;
    assert v in order;
    assert f !in order;
    assert v !in order0 by {
      forall j | 0 <= j < |order0|
        ensures order0[j] != v
      {
        assert order[j] == order0[j];
      }
    }
    assert order2[..|order0|] == order0 by {
      assert order2[..|order|] == order;
      assert order2[..|order|][..|order0|] == order2[..|order0|];
    }
    assert order2[|order0|] == v by {
      assert order2[..|order|][|order0|] == order[|order0|];
    }
    assert v in order2 by {
      assert order2[|order0|] == v;
    }
    forall w | w in order0 && w < |o_origin|
      ensures origin2[w] == o_origin[w] && num2[w] == o_num[w]
      ensures back2[v := b][w] == o_back[w] && conn2[v := c][w] == o_conn[w]
    {
      assert w in order by {
        var j :| 0 <= j < |order0| && order0[j] == w;
        assert order[j] == w;
      }
    }
    forall j | |order0| < j < |order2|
      ensures origin2[order2[j]] in order2[|order0|..]
    {
      if j < |order| {
        assert order2[j] == order[j];
        var i :| |order0| <= i < |order| && order[i] == origin[order[j]];
        assert order2[i] == order[i];
      } else if j == |order| {
        assert order2[|order0|] == v;
      } else {
        var i :| |order| <= i < |order2| && order2[i] == origin2[order2[j]];
      }
    }
    var n := |o_origin|;
    assert |origin2| == n && |num2| == n && |back2[v := b]| == n && |conn2[v := c]| == n && v < n;
    assert |order2| > |order0| && order2[..|order0|] == order0 && order2[|order0|] == v;
    forall j | |order0| <= j < |order2|
      ensures order2[j] < n
    {
      if j < |order| {
        assert order2[j] == order[j];
      }
    }
  }

  /**
   * After the call for a tree child f returns, every member whose call
   * has finished is still settled.
   */
  lemma LoopChildRules(g: Graph, v: nat, origin: seq<int>, num: seq<int>, back: seq<int>, conn: seq<int>,
                       order0: seq<nat>, order: seq<nat>, f: nat,
                       origin2: seq<int>, num2: seq<int>, back2: seq<int>, conn2: seq<int>,
                       order2: seq<nat>, b: int, c: int)
    requires DfsMarks(g, origin, num, back, conn, order, -1)
    requires forall i, j :: 0 <= i < j < |order| ==> order[i] != order[j]
    requires |order| > |order0| && order[..|order0|] == order0 && order[|order0|] == v
    requires forall w :: 0 <= w < |num| && w !in order ==> num[w] == 0
    requires SettledIn(g, origin, num, back, conn, order, |order0| + 1, |order|)
    requires f < |origin| && f !in order && f != v
    requires DfsFrame(origin[f := v], num, back, conn, origin2, num2, back2, conn2, order, order2, f)
    requires forall i, j :: 0 <= i < j < |order2| ==> order2[i] != order2[j]
    requires forall w :: 0 <= w < |origin2| && w !in order2 ==> origin2[w] == -1
    requires SettledIn(g, origin2, num2, back2, conn2, order2, |order|, |order2|)
    requires origin2[v] == -1 || origin2[v] in order0
    ensures SettledIn(g, origin2, num2, back2[v := b], conn2[v := c], order2, |order0| + 1, |order2|)
  {
    assert DfsMarks(g, origin[f := v], num, back, conn, order, f);
    assert order2[..|order|] == order;
    AfterCall(order0, order, v, -1);
    assert forall j :: |order0| < j < |order| ==> order[j] != f;
    SettledInOrigin(g, origin, origin[f := v], num, back, conn, order, |order0| + 1, |order|, f);
    SettledInSurvive(g, origin[f := v], num, back, conn, order, f, origin2, num2, back2, conn2, order2,
                     |order0| + 1, |order|);
    SettledInJoin(g, origin2, num2, back2, conn2, order2, |order0| + 1, |order|, |order2|);
    assert order2[..|order0|] == order0 && order2[|order0|] == v by {
      assert order2[..|order|][..|order0|] == order2[..|order0|];
      assert order2[..|order|][|order0|] == order2[|order0|];
    }
    AfterCall(order0, order2, v, origin2[v]);
    SettledInUpdate(g, origin2, num2, back2, conn2, order2, |order0| + 1, |order2|, v, b, c);
  }


  /** Giving an unvisited member f (not u) an origin other than u leaves u's rule alone. */
  lemma RuleLocalOrigin(g: Graph, origin: seq<int>, origin': seq<int>, num: seq<int>, back: seq<int>, conn: seq<int>,
                        u: nat, f: nat)
    requires Settled(g, origin, num, back, conn, u) && |back| == |origin|
    requires |origin'| == |origin| && f < |origin| && f != u && origin[f] != u && origin'[f] != u
    requires forall w :: 0 <= w < |origin| && w != f ==> origin'[w] == origin[w]
    ensures Settled(g, origin', num, back, conn, u)
  {
    assert Children(origin', u) == Children(origin, u);
    LowLocal(g, origin, num, back, origin', num, back, u);
    if Flagged(origin, num, back, u) && origin[u] != -1 {
      var w :| 0 <= w < |origin| && origin[w] == u && back[w] >= num[u];
      assert origin'[w] == u;
    }
  }

  /**
   * u's low point reads only origin[u], u's tree children and their back
   * numbers, back[u], and the dfsnum of u and of its friends other than
   * its origin.
   */
  lemma LowLocal(g: Graph, origin: seq<int>, num: seq<int>, back: seq<int>,
                 origin': seq<int>, num': seq<int>, back': seq<int>, u: nat)
    requires LowPoint(g, origin, num, back, u)
    requires |origin'| == |origin| && |num'| == |num| && |back'| == |back|
    requires origin'[u] == origin[u] && num'[u] == num[u] && back'[u] == back[u]
    requires Children(origin', u) == Children(origin, u)
    requires forall w :: w in Children(origin, u) ==> back'[w] == back[w]
    requires forall h :: h in g.adj[u] && h != origin[u] && h < |num| ==> num'[h] == num[h]
    ensures LowPoint(g, origin', num', back', u)
  {
    forall w | 0 <= w < |origin|
      ensures origin'[w] == u <==> origin[w] == u
      ensures origin[w] == u ==> back'[w] == back[w]
    {
      assert w in Children(origin, u) <==> w in Children(origin', u);
    }
    KidsMinSame(origin, back, origin', back', u, |origin|, num[u]);
    FriendsMinSame(g.adj[u], origin[u], num, num', KidsMin(origin, back, u, |origin|, num[u]));
  }


  /**
   * After the call for a tree child f returns, f is one more tree child of
   * v and v's mark is the non-root rule over its children so far.
   */
  lemma LoopChildKids(g: Graph, v: nat, origin: seq<int>, num: seq<int>, back: seq<int>, conn: seq<int>,
                      order0: seq<nat>, order: seq<nat>, kids: set<nat>, f: nat,
                      origin2: seq<int>, num2: seq<int>, back2: seq<int>, conn2: seq<int>, order2: seq<nat>)
    requires DfsMarks(g, origin, num, back, conn, order, -1)
    requires forall i, j :: 0 <= i < j < |order| ==> order[i] != order[j]
    requires |order| > |order0| && order[|order0|] == v
    requires LoopKids(v, origin, num, back, conn, order0, order, kids)
    requires forall i, j :: 0 <= i < j < |order2| ==> order2[i] != order2[j]
    requires forall w :: 0 <= w < |origin2| && w !in order2 ==> origin2[w] == -1
    requires f < |origin| && DfsFrame(origin[f := v], num, back, conn, origin2, num2, back2, conn2, order, order2, f)
    requires f !in order && f != v
    ensures LoopKids(v, origin2, num2, back2[v := Min(back2[v], back2[f])],
                     conn2[v := if origin2[v] != -1 && back2[f] >= num2[v] then 1 else conn2[v]],
                     order0, order2, kids + {f})
  {
    assert v in order;
    assert DfsMarks(g, origin[f := v], num, back, conn, order, f);
    assert Children(origin[f := v], v) == kids + {f};
    ChildrenSurvive(g, origin[f := v], num, back, conn, order, f,
                    origin2, num2, back2, conn2, order2, v);
    assert order2[..|order|] == order;
    assert order2[|order|] == f;
    forall w | w in kids
      ensures w in order2[|order0| + 1..] && w in order && w != v
    {
      var i :| |order0| + 1 <= i < |order| && order[i] == w;
      assert order2[i] == w;
      assert order[|order0|] == v;
    }
    assert Children(origin2, v) == kids + {f};
    LoopChildMark(v, kids, f, num, back, conn, origin2, num2, back2, conn2);
  }

  /**
   * One turn of the loop over v's friends for an unvisited friend f: f's
   * origin becomes v, the call for f runs (its outcome is given by the
   * call's own postcondition), v's back number is lowered to f's, and v
   * is marked when it is not a root and f's back number does not reach
   * above dfsnum[v].
   */
  lemma LoopChild(g: Graph, v: nat, o_origin: seq<int>, o_num: seq<int>, o_back: seq<int>, o_conn: seq<int>,
                  vis: seq<int>, origin: seq<int>, num: seq<int>, back: seq<int>, conn: seq<int>, count: int,
                  order0: seq<nat>, order: seq<nat>, kids: set<nat>, seen: seq<nat>, f: nat,
                  vis2: seq<int>, origin2: seq<int>, num2: seq<int>, back2: seq<int>, conn2: seq<int>, count2: int,
                  order2: seq<nat>, back3: seq<int>, conn3: seq<int>)
    requires WellFormed(g)
    requires DfsLoop(g, v, o_origin, o_num, o_back, o_conn, vis, origin, num, back, conn, count, order0, order, kids, seen)
    requires v < |g.adj| && f in g.adj[v] && vis[f] == 0
    requires DfsState(g, vis2, origin2, num2, back2, conn2, count2, order2, -1)
    requires DfsFrame(origin[f := v], num, back, conn, origin2, num2, back2, conn2, order, order2, f)
    requires SettledIn(g, origin2, num2, back2, conn2, order2, |order|, |order2|)
    requires back3 == back2[v := Min(back2[v], back2[f])]
    requires conn3 == conn2[v := if origin2[v] != -1 && back2[f] >= num2[v] then 1 else conn2[v]]
    ensures DfsLoop(g, v, o_origin, o_num, o_back, o_conn, vis2, origin2, num2, back3, conn3, count2,
                    order0, order2, kids + {f}, seen + [f])
  {
    assert f < |g.members| && f !in order;
    LoopChildRest(g, v, o_origin, o_num, o_back, o_conn, vis, origin, num, back, conn, count, order0, order, kids, seen, f,
                  vis2, origin2, num2, back2, conn2, count2, order2, back3, conn3);
    LoopChildState(g, v, o_origin, o_num, o_back, o_conn, origin, num, back, conn, order0, order, f,
                   vis2, origin2, num2, back2, conn2, count2, order2, back3, conn3);
  }

  lemma LoopChildState(g: Graph, v: nat, o_origin: seq<int>, o_num: seq<int>, o_back: seq<int>, o_conn: seq<int>,
                       origin: seq<int>, num: seq<int>, back: seq<int>, conn: seq<int>,
                       order0: seq<nat>, order: seq<nat>, f: nat,
                       vis2: seq<int>, origin2: seq<int>, num2: seq<int>, back2: seq<int>, conn2: seq<int>, count2: int,
                       order2: seq<nat>, back3: seq<int>, conn3: seq<int>)
    requires DfsFrame(o_origin, o_num, o_back, o_conn, origin, num, back, conn, order0, order, v)
    requires forall i, j :: 0 <= i < j < |order| ==> order[i] != order[j]
    requires f < |origin| && f !in order
    requires DfsState(g, vis2, origin2, num2, back2, conn2, count2, order2, -1)
    requires DfsFrame(origin[f := v], num, back, conn, origin2, num2, back2, conn2, order, order2, f)
    requires back3 == back2[v := Min(back2[v], back2[f])]
    requires conn3 == conn2[v := if origin2[v] != -1 && back2[f] >= num2[v] then 1 else conn2[v]]
    ensures DfsState(g, vis2, origin2, num2, back3, conn3, count2, order2, -1)
    ensures DfsFrame(o_origin, o_num, o_back, o_conn, origin2, num2, back3, conn3, order0, order2, v)
  {
    FirstOfCall(order0, order, v);
    var b := Min(back2[v], back2[f]);
    var c := if origin2[v] != -1 && back2[f] >= num2[v] then 1 else conn2[v];
    LoopChildFrame(v, o_origin, o_num, o_back, o_conn, origin, num, back, conn, order0, order, f,
                   origin2, num2, back2, conn2, order2, b, c);
    assert v in order2 by {
      assert order2[..|order|] == order;
      assert order2[|order0|] == order[|order0|];
    }
    assert f in order2 by {
      assert order2[|order|] == f;
    }
    MarksUpdate(g, origin2, num2, back2, conn2, order2, v, b, c);
  }

  lemma LoopChildRest(g: Graph, v: nat, o_origin: seq<int>, o_num: seq<int>, o_back: seq<int>, o_conn: seq<int>,
                  vis: seq<int>, origin: seq<int>, num: seq<int>, back: seq<int>, conn: seq<int>, count: int,
                  order0: seq<nat>, order: seq<nat>, kids: set<nat>, seen: seq<nat>, f: nat,
                  vis2: seq<int>, origin2: seq<int>, num2: seq<int>, back2: seq<int>, conn2: seq<int>, count2: int,
                  order2: seq<nat>, back3: seq<int>, conn3: seq<int>)
    requires WellFormed(g)
    requires DfsLoop(g, v, o_origin, o_num, o_back, o_conn, vis, origin, num, back, conn, count, order0, order, kids, seen)
    requires v < |g.adj| && f in g.adj[v] && vis[f] == 0
    requires DfsState(g, vis2, origin2, num2, back2, conn2, count2, order2, -1)
    requires DfsFrame(origin[f := v], num, back, conn, origin2, num2, back2, conn2, order, order2, f)
    requires SettledIn(g, origin2, num2, back2, conn2, order2, |order|, |order2|)
    requires back3 == back2[v := Min(back2[v], back2[f])]
    requires conn3 == conn2[v := if origin2[v] != -1 && back2[f] >= num2[v] then 1 else conn2[v]]
    ensures LoopRules(g, origin2, num2, back3, conn3, order0, order2)
    ensures LoopKids(v, origin2, num2, back3, conn3, order0, order2, kids + {f})
    ensures LowSoFar(v, origin2, num2, back3, order2, seen + [f])
  {
    assert f < |g.members| && f !in order;
    FirstOfCall(order0, order, v);
    var b := Min(back2[v], back2[f]);
    var c := if origin2[v] != -1 && back2[f] >= num2[v] then 1 else conn2[v];
    NoOriginOutside(g, vis2, origin2, num2, back2, conn2, count2, order2);
    LoopChildRules(g, v, origin, num, back, conn, order0, order, f, origin2, num2, back2, conn2, order2, b, c);
    LoopChildKids(g, v, origin, num, back, conn, order0, order, kids, f, origin2, num2, back2, conn2, order2);
    assert v !in kids by {
      assert v !in order[|order0| + 1..] by {
        forall i | |order0| + 1 <= i < |order|
          ensures order[i] != v
        {
        }
      }
    }
    forall w | w in kids
      ensures w in order
    {
      var i :| |order0| + 1 <= i < |order| && order[i] == w;
    }
    AfterCall(order0, order, v, origin[v]);
    LowChild(g, v, origin, num, back, conn, order, seen, f, origin2, num2, back2, conn2, order2);
  }

  /**
   * After the call for a tree child f returns, v's back number, lowered
   * to f's, is v's low point over the friends scanned so far, f included.
   */
  lemma LowChild(g: Graph, v: nat, origin: seq<int>, num: seq<int>, back: seq<int>, conn: seq<int>,
                 order: seq<nat>, seen: seq<nat>, f: nat,
                 origin2: seq<int>, num2: seq<int>, back2: seq<int>, conn2: seq<int>, order2: seq<nat>)
    requires LowSoFar(v, origin, num, back, order, seen)
    requires v in order && f < |origin| && f !in order && origin[f] != v
    requires origin[v] != v && (origin[v] == -1 || origin[v] in order)
    requires forall w :: w in Children(origin, v) ==> w in order
    requires DfsFrame(origin[f := v], num, back, conn, origin2, num2, back2, conn2, order, order2, f)
    requires DfsTree(g, origin2, num2, order2)
    requires Children(origin2, v) == Children(origin, v) + {f}
    ensures LowSoFar(v, origin2, num2, back2[v := Min(back2[v], back2[f])], order2, seen + [f])
  {
    var n := |origin|;
    var back3 := back2[v := Min(back2[v], back2[f])];
    assert order2[..|order|] == order;
    forall w | w in order
      ensures w in order2
    {
      var i :| 0 <= i < |order| && order[i] == w;
      assert order2[i] == w;
    }
    forall w | w in order && w < n
      ensures origin2[w] == origin[w] && num2[w] == num[w] && back2[w] == back[w]
    {
    }
    assert f in order2 && origin2[f] == v by {
      assert order2[|order|] == f;
    }
    assert num2[v] < num2[f];
    var o := origin[v];
    var k := KidsMin(origin, back, v, n, num[v]);
    forall w | 0 <= w < n && w != f
      ensures origin2[w] == v <==> origin[w] == v
    {
      assert w in Children(origin2, v) <==> w in Children(origin, v);
    }
    forall w | 0 <= w < n && origin[w] == v
      ensures back3[w] == back[w]
    {
      assert w in Children(origin, v);
    }
    KidsMinAdd(origin, back, origin2, back3, v, n, num[v], f);
    KidsMinLe(origin, back, v, n, num[v]);
    FriendsMinLe(seen, o, num, k);
    FriendsMinShift(seen, o, num, k, back2[f]);
    FriendsMinSame(seen, o, num, num2, Min(k, back2[f]));
    FriendsMinAppend(seen, f, o, num2, Min(k, back2[f]));
  }


  /** v's mark after the turn for f is the non-root rule over its children so far. */
  lemma LoopChildMark(v: nat, kids: set<nat>, f: nat, num: seq<int>, back: seq<int>, conn: seq<int>,
                      origin2: seq<int>, num2: seq<int>, back2: seq<int>, conn2: seq<int>)
    requires v < |num| && v < |conn| && v < |num2| && v < |conn2| && v < |origin2| && v < |back2| && f < |back2| && f != v
    requires |back2| == |back| && forall w :: w in kids ==> w < |back| && back2[w] == back[w] && w != v
    requires num2[v] == num[v] && conn2[v] == conn[v]
    requires conn[v] == if origin2[v] != -1 && KidReaches(kids, back, num[v]) then 1 else 0
    ensures var back' := back2[v := Min(back2[v], back2[f])];
            var c := if origin2[v] != -1 && back2[f] >= num2[v] then 1 else conn2[v];
            c == if origin2[v] != -1 && KidReaches(kids + {f}, back', num2[v]) then 1 else 0
  {
    var back' := back2[v := Min(back2[v], back2[f])];
    if origin2[v] != -1 && KidReaches(kids, back, num[v]) {
      var w :| w in kids && w < |back| && back[w] >= num[v];
      assert back'[w] >= num2[v];
    }
    if KidReaches(kids + {f}, back', num2[v]) {
      var w :| w in kids + {f} && w < |back'| && back'[w] >= num2[v];
      if w != f {
        assert back[w] >= num[v];
      }
    }
  }

  /**
   * One turn of the loop over v's friends for a visited friend f other
   * than v's origin: v's back number is lowered to dfsnum[f].
   */
  lemma LoopBackEdge(g: Graph, v: nat, o_origin: seq<int>, o_num: seq<int>, o_back: seq<int>, o_conn: seq<int>,
                     vis: seq<int>, origin: seq<int>, num: seq<int>, back: seq<int>, conn: seq<int>, count: int,
                     order0: seq<nat>, order: seq<nat>, kids: set<nat>, seen: seq<nat>, f: nat)
    requires WellFormed(g)
    requires DfsLoop(g, v, o_origin, o_num, o_back, o_conn, vis, origin, num, back, conn, count, order0, order, kids, seen)
    requires v < |g.adj| && f in g.adj[v] && vis[f] != 0 && origin[v] != f
    ensures DfsLoop(g, v, o_origin, o_num, o_back, o_conn, vis, origin, num, back[v := Min(back[v], num[f])], conn,
                    count, order0, order, kids, seen + [f])
  {
    BackEdgeState(g, v, o_origin, o_num, o_back, o_conn, vis, origin, num, back, conn, count, order0, order, kids, seen, f);
    BackEdgeRest(g, v, o_origin, o_num, o_back, o_conn, vis, origin, num, back, conn, count, order0, order, kids, seen, f);
  }

  /** The back edge keeps the state and the frame of v's call. */
  lemma BackEdgeState(g: Graph, v: nat, o_origin: seq<int>, o_num: seq<int>, o_back: seq<int>, o_conn: seq<int>,
                     vis: seq<int>, origin: seq<int>, num: seq<int>, back: seq<int>, conn: seq<int>, count: int,
                     order0: seq<nat>, order: seq<nat>, kids: set<nat>, seen: seq<nat>, f: nat)
    requires WellFormed(g)
    requires DfsLoop(g, v, o_origin, o_num, o_back, o_conn, vis, origin, num, back, conn, count, order0, order, kids, seen)
    requires v < |g.adj| && f in g.adj[v] && vis[f] != 0 && origin[v] != f
    ensures DfsState(g, vis, origin, num, back[v := Min(back[v], num[f])], conn, count, order, -1)
    ensures DfsFrame(o_origin, o_num, o_back, o_conn, origin, num, back[v := Min(back[v], num[f])], conn, order0, order, v)
  {
    FirstOfCall(order0, order, v);
    assert f in order;
    var b := Min(back[v], num[f]);
    MarksUpdate(g, origin, num, back, conn, order, v, b, conn[v]);
    UpdateFrame(v, o_origin, o_num, o_back, o_conn, origin, num, back, conn, order0, order, b, conn[v]);
    assert conn[v := conn[v]] == conn;
  }

  /** The back edge keeps the rules of the finished calls, v's tree children and v's low point so far. */
  lemma BackEdgeRest(g: Graph, v: nat, o_origin: seq<int>, o_num: seq<int>, o_back: seq<int>, o_conn: seq<int>,
                     vis: seq<int>, origin: seq<int>, num: seq<int>, back: seq<int>, conn: seq<int>, count: int,
                     order0: seq<nat>, order: seq<nat>, kids: set<nat>, seen: seq<nat>, f: nat)
    requires WellFormed(g)
    requires DfsLoop(g, v, o_origin, o_num, o_back, o_conn, vis, origin, num, back, conn, count, order0, order, kids, seen)
    requires v < |g.adj| && f in g.adj[v] && vis[f] != 0 && origin[v] != f
    ensures LoopRules(g, origin, num, back[v := Min(back[v], num[f])], conn, order0, order)
    ensures LoopKids(v, origin, num, back[v := Min(back[v], num[f])], conn, order0, order, kids)
    ensures LowSoFar(v, origin, num, back[v := Min(back[v], num[f])], order, seen + [f])
  {
    FirstOfCall(order0, order, v);
    var b := Min(back[v], num[f]);
    BackEdgeRules(g, v, origin, num, back, conn, order0, order, b);
    assert v !in order[|order0| + 1..] by {
      forall i | |order0| + 1 <= i < |order|
        ensures order[i] != v
      {
      }
    }
    KidsBackUpdate(v, origin, num, back, conn, order0, order, kids, b);
    assert origin[v] != v by {
      if origin[v] != -1 {
        var i :| 0 <= i < |order0| && order0[i] == origin[v];
      }
    }
    assert f in order;
    LowBackEdge(v, origin, num, back, order, seen, f);
  }

  /** A visited friend f other than v's origin lowers v's back number to dfsnum[f] at most. */
  lemma LowBackEdge(v: nat, origin: seq<int>, num: seq<int>, back: seq<int>, order: seq<nat>, seen: seq<nat>, f: nat)
    requires LowSoFar(v, origin, num, back, order, seen) && origin[v] != v
    requires f in order && f < |num| && f != origin[v]
    ensures LowSoFar(v, origin, num, back[v := Min(back[v], num[f])], order, seen + [f])
  {
    var back' := back[v := Min(back[v], num[f])];
    KidsMinSame(origin, back, origin, back', v, |origin|, num[v]);
    FriendsMinAppend(seen, f, origin[v], num, KidsMin(origin, back, v, |origin|, num[v]));
  }


  /**
   * One turn of the loop over v's friends for v's own origin f: nothing
   * changes, and f counts as scanned.
   */
  lemma LoopSkip(g: Graph, v: nat, o_origin: seq<int>, o_num: seq<int>, o_back: seq<int>, o_conn: seq<int>,
                 vis: seq<int>, origin: seq<int>, num: seq<int>, back: seq<int>, conn: seq<int>, count: int,
                 order0: seq<nat>, order: seq<nat>, kids: set<nat>, seen: seq<nat>, f: nat)
    requires DfsLoop(g, v, o_origin, o_num, o_back, o_conn, vis, origin, num, back, conn, count, order0, order, kids, seen)
    requires f < |vis| && vis[f] != 0 && origin[v] == f
    ensures DfsLoop(g, v, o_origin, o_num, o_back, o_conn, vis, origin, num, back, conn, count, order0, order, kids, seen + [f])
  {
    assert f in order;
    FriendsMinAppend(seen, f, origin[v], num, KidsMin(origin, back, v, |origin|, num[v]));
  }

  /** Lowering v's own back number leaves v's mark the rule over its children. */
  lemma KidsBackUpdate(v: nat, origin: seq<int>, num: seq<int>, back: seq<int>, conn: seq<int>,
                       order0: seq<nat>, order: seq<nat>, kids: set<nat>, b: int)
    requires LoopKids(v, origin, num, back, conn, order0, order, kids) && v < |back| && v !in kids
    ensures LoopKids(v, origin, num, back[v := b], conn, order0, order, kids)
  {
  }


  lemma BackEdgeRules(g: Graph, v: nat, origin: seq<int>, num: seq<int>, back: seq<int>, conn: seq<int>,
                      order0: seq<nat>, order: seq<nat>, b: int)
    requires |order| > |order0| && order[..|order0|] == order0 && order[|order0|] == v
    requires v < |back| == |origin| && |conn| == |origin|
    requires forall i, j :: 0 <= i < j < |order| ==> order[i] != order[j]
    requires SettledIn(g, origin, num, back, conn, order, |order0| + 1, |order|)
    requires origin[v] == -1 || origin[v] in order0
    ensures SettledIn(g, origin, num, back[v := b], conn, order, |order0| + 1, |order|)
  {
    AfterCall(order0, order, v, origin[v]);
    SettledInUpdate(g, origin, num, back, conn, order, |order0| + 1, |order|, v, b, conn[v]);
    assert conn[v := conn[v]] == conn;
  }



  /**
   * The end of v's call, once every friend of v is scanned: a root is
   * marked when it has at least two tree children; then every member the
   * call visited, v included, is settled, and the frame holds.
   */
  lemma LoopEnd(g: Graph, v: nat, o_origin: seq<int>, o_num: seq<int>, o_back: seq<int>, o_conn: seq<int>,
                vis: seq<int>, origin: seq<int>, num: seq<int>, back: seq<int>, conn: seq<int>, count: int,
                order0: seq<nat>, order: seq<nat>, kids: set<nat>)
    requires v < |g.adj|
    requires DfsLoop(g, v, o_origin, o_num, o_back, o_conn, vis, origin, num, back, conn, count, order0, order, kids, g.adj[v])
    ensures var conn' := conn[v := if origin[v] == -1 && |kids| >= 2 then 1 else conn[v]];
            DfsState(g, vis, origin, num, back, conn', count, order, -1) &&
            DfsFrame(o_origin, o_num, o_back, o_conn, origin, num, back, conn', order0, order, v) &&
            SettledIn(g, origin, num, back, conn', order, |order0|, |order|)
  {
    var c := if origin[v] == -1 && |kids| >= 2 then 1 else conn[v];
    AfterCall(order0, order, v, origin[v]);
    MarksUpdate(g, origin, num, back, conn, order, v, back[v], c);
    UpdateFrame(v, o_origin, o_num, o_back, o_conn, origin, num, back, conn, order0, order, back[v], c);
    assert back[v := back[v]] == back;
    LoopEndRules(g, v, origin, num, back, conn, order0, order, kids, c);
  }

  /**
   * The members a call for v visits after v are neither v nor o, when o
   * is absent (-1) or was visited before the call.
   */
  lemma AfterCall(order0: seq<nat>, order: seq<nat>, v: nat, o: int)
    requires |order| > |order0| && order[..|order0|] == order0 && order[|order0|] == v
    requires forall i, j :: 0 <= i < j < |order| ==> order[i] != order[j]
    requires o == -1 || o in order0
    ensures forall j :: |order0| < j < |order| ==> order[j] != v && order[j] != o
    ensures v !in order0 && v in order && o != v && (o == -1 || o in order)
  {
    FirstOfCall(order0, order, v);
    if o != -1 {
      var i :| 0 <= i < |order0| && order0[i] == o;
      assert order[i] == o;
    }
    forall j | |order0| < j < |order|
      ensures order[j] != v && order[j] != o
    {
      if o != -1 {
        var i :| 0 <= i < |order0| && order0[i] == o;
        assert order[i] == order0[i];
      }
    }
  }

  /** In a call's visiting order, the member it was called for is new. */
  lemma FirstOfCall(order0: seq<nat>, order: seq<nat>, v: nat)
    requires |order| > |order0| && order[..|order0|] == order0 && order[|order0|] == v
    requires forall i, j :: 0 <= i < j < |order| ==> order[i] != order[j]
    ensures v !in order0 && v in order
  {
    forall j | 0 <= j < |order0|
      ensures order0[j] != v
    {
      assert order[j] == order0[j];
    }
  }

  /** In a settled state no unvisited member has an origin. */
  lemma NoOriginOutside(g: Graph, vis: seq<int>, origin: seq<int>, num: seq<int>, back: seq<int>, conn: seq<int>,
                        count: int, order: seq<nat>)
    requires DfsState(g, vis, origin, num, back, conn, count, order, -1)
    ensures forall i, j :: 0 <= i < j < |order| ==> order[i] != order[j]
    ensures forall w :: 0 <= w < |origin| && w !in order ==> origin[w] == -1
  {
  }

  /** Changing only v's back number and mark keeps the frame of v's call. */
  lemma UpdateFrame(v: nat, o_origin: seq<int>, o_num: seq<int>, o_back: seq<int>, o_conn: seq<int>,
                    origin: seq<int>, num: seq<int>, back: seq<int>, conn: seq<int>,
                    order0: seq<nat>, order: seq<nat>, b: int, c: int)
    requires DfsFrame(o_origin, o_num, o_back, o_conn, origin, num, back, conn, order0, order, v)
    requires v !in order0
    ensures DfsFrame(o_origin, o_num, o_back, o_conn, origin, num, back[v := b], conn[v := c], order0, order, v)
  {
  }

  lemma LoopEndRules(g: Graph, v: nat, origin: seq<int>, num: seq<int>, back: seq<int>, conn: seq<int>,
                     order0: seq<nat>, order: seq<nat>, kids: set<nat>, c: int)
    requires |order| > |order0| && order[..|order0|] == order0 && order[|order0|] == v
    requires v < |conn| && v < |origin| && v < |num| && |back| == |origin| && v < |g.adj|
    requires forall i, j :: 0 <= i < j < |order| ==> order[i] != order[j]
    requires origin[v] == -1 || origin[v] in order0
    requires SettledIn(g, origin, num, back, conn, order, |order0| + 1, |order|)
    requires kids == Children(origin, v)
    requires conn[v] == if origin[v] != -1 && KidReaches(kids, back, num[v]) then 1 else 0
    requires c == if origin[v] == -1 && |kids| >= 2 then 1 else conn[v]
    requires LowSoFar(v, origin, num, back, order, g.adj[v])
    ensures SettledIn(g, origin, num, back, conn[v := c], order, |order0|, |order|)
  {
    EndSettled(g, v, origin, num, back, conn, order, kids, c);
    AfterCall(order0, order, v, origin[v]);
    SettledInUpdate(g, origin, num, back, conn, order, |order0| + 1, |order|, v, back[v], c);
    assert back[v := back[v]] == back;
    assert SettledIn(g, origin, num, back, conn[v := c], order, |order0|, |order0| + 1);
    SettledInJoin(g, origin, num, back, conn[v := c], order, |order0|, |order0| + 1, |order|);
  }


  /** v itself is settled at the end of its call, once its mark c is final. */
  lemma EndSettled(g: Graph, v: nat, origin: seq<int>, num: seq<int>, back: seq<int>, conn: seq<int>,
                   order: seq<nat>, kids: set<nat>, c: int)
    requires v < |conn| && v < |origin| && v < |num| && |back| == |origin| && v < |g.adj|
    requires kids == Children(origin, v)
    requires conn[v] == if origin[v] != -1 && KidReaches(kids, back, num[v]) then 1 else 0
    requires c == if origin[v] == -1 && |kids| >= 2 then 1 else conn[v]
    requires LowSoFar(v, origin, num, back, order, g.adj[v])
    ensures Settled(g, origin, num, back, conn[v := c], v)
  {
    assert RuleHolds(origin, num, back, conn[v := c], v) by {
      if origin[v] != -1 {
        if KidReaches(kids, back, num[v]) {
          var w :| w in kids && w < |back| && back[w] >= num[v];
          assert origin[w] == v;
        }
      }
    }
  }

  // ---------------------------------------------------------------------
  // The search over all members
  // ---------------------------------------------------------------------

  /** Before any call: nothing visited, no origins, marks or numbers, and the counter at 1. */
  lemma SearchStart(g: Graph, vis: seq<int>, origin: seq<int>, num: seq<int>, back: seq<int>, conn: seq<int>)
    requires |g.adj| == |g.members| && |vis| == |g.members| && |origin| == |g.members| && |num| == |g.members|
    requires |back| == |g.members| && |conn| == |g.members|
    requires forall v :: 0 <= v < |g.members| ==> vis[v] == 0 && origin[v] == -1 && num[v] == 0 && conn[v] == 0
    ensures DfsState(g, vis, origin, num, back, conn, 1, [], -1)
  {
  }

  /**
   * A call for an unvisited member i from the outer loop keeps every
   * member visited before it settled, and adds i and the members it
   * reaches.
   */
  lemma RootCall(g: Graph, vis: seq<int>, origin: seq<int>, num: seq<int>, back: seq<int>, conn: seq<int>,
                 count: int, order: seq<nat>, i: nat,
                 origin2: seq<int>, num2: seq<int>, back2: seq<int>, conn2: seq<int>, order2: seq<nat>)
    requires DfsState(g, vis, origin, num, back, conn, count, order, -1)
    requires SettledIn(g, origin, num, back, conn, order, 0, |order|)
    requires i < |g.members| && vis[i] == 0
    requires forall w :: 0 <= w < |origin2| && w !in order2 ==> origin2[w] == -1
    requires forall i, j :: 0 <= i < j < |order2| ==> order2[i] != order2[j]
    requires DfsFrame(origin, num, back, conn, origin2, num2, back2, conn2, order, order2, i)
    requires SettledIn(g, origin2, num2, back2, conn2, order2, |order|, |order2|)
    ensures SettledIn(g, origin2, num2, back2, conn2, order2, 0, |order2|)
    ensures forall w :: w in order ==> w in order2
    ensures i in order2
  {
    assert i !in order && origin[i] == -1;
    assert order2[..|order|] == order;
    assert order2[|order|] == i;
    SettledInSurvive(g, origin, num, back, conn, order, i, origin2, num2, back2, conn2, order2, 0, |order|);
    SettledInJoin(g, origin2, num2, back2, conn2, order2, 0, |order|, |order2|);
    forall w | w in order
      ensures w in order2
    {
      var j :| 0 <= j < |order| && order[j] == w;
      assert order2[j] == w;
    }
  }


  /** A sequence of distinct naturals below n is at most n long. */
  lemma {:induction false} DistinctBound(s: seq<nat>, n: nat)
    requires forall i, j :: 0 <= i < j < |s| ==> s[i] != s[j]
    requires forall j :: 0 <= j < |s| ==> s[j] < n
    ensures |s| <= n
  {
    if |s| > 0 {
      assert s[0] < n;
      if k :| 0 <= k < |s| && s[k] == n - 1 {
        var t := s[..k] + s[k + 1..];
        assert forall j :: 0 <= j < |t| ==> t[j] == if j < k then s[j] else s[j + 1];
        DistinctBound(t, n - 1);
      } else {
        DistinctBound(s, n - 1);
      }
    }
  }

  /**
   * Once every member is visited and every call has returned: the
   * dfsnum values are distinct and within 1..n, 1 <= back <= dfsnum,
   * every origin is a friend numbered earlier, and every member obeys
   * the connector rule and has its low point as back number.
   */
  lemma SearchDone(g: Graph, vis: seq<int>, origin: seq<int>, num: seq<int>, back: seq<int>, conn: seq<int>,
                   count: int, order: seq<nat>)
    requires DfsState(g, vis, origin, num, back, conn, count, order, -1)
    requires forall v :: 0 <= v < |g.members| ==> vis[v] != 0
    requires SettledIn(g, origin, num, back, conn, order, 0, |order|)
    ensures forall v :: 0 <= v < |g.members| ==> 1 <= num[v] <= |g.members|
    ensures forall v, w :: 0 <= v < w < |g.members| ==> num[v] != num[w]
    ensures forall v :: 0 <= v < |g.members| ==> 1 <= back[v] <= num[v]
    ensures forall w :: 0 <= w < |g.members| && origin[w] != -1 ==>
              0 <= origin[w] < |g.members| && w in g.adj[origin[w]] && num[origin[w]] < num[w]
    ensures forall v :: 0 <= v < |g.members| ==> RuleHolds(origin, num, back, conn, v)
    ensures forall v :: 0 <= v < |g.members| ==> LowPoint(g, origin, num, back, v)
  {
    var n := |g.members|;
    DistinctBound(order, n);
    SettledInAll(g, origin, num, back, conn, order, 0, |order|);
    forall v | 0 <= v < n
      ensures 1 <= num[v] <= n && 1 <= back[v] <= num[v] && Settled(g, origin, num, back, conn, v)
    {
      assert v in order;
      var j :| 0 <= j < |order| && order[j] == v;
    }
    forall v, w | 0 <= v < w < n
      ensures num[v] != num[w]
    {
      assert v in order && w in order;
      var i :| 0 <= i < |order| && order[i] == v;
      var j :| 0 <= j < |order| && order[j] == w;
    }
  }

  // ---------------------------------------------------------------------
  // The answer
  // ---------------------------------------------------------------------

  /** The members marked as connectors, in index order. */
  function FlaggedIndexes(conn: seq<int>): (r: seq<nat>)
    ensures forall k :: 0 <= k < |r| ==> r[k] < |conn| && conn[r[k]] == 1
    ensures forall i, j :: 0 <= i < j < |r| ==> r[i] < r[j]
    ensures forall v :: 0 <= v < |conn| && conn[v] == 1 ==> v in r
  {
    if conn == [] then []
    else
      var r0 := FlaggedIndexes(conn[..|conn| - 1]);
      r0 + if conn[|conn| - 1] == 1 then [|conn| - 1] else []
  }

  /** Listing members in increasing index order names each member once. */
  lemma IncreasingNamesDistinct(g: Graph, p: seq<nat>)
    requires WellFormed(g)
    requires forall k :: 0 <= k < |p| ==> p[k] < |g.members|
    requires forall i, j :: 0 <= i < j < |p| ==> p[i] < p[j]
    ensures forall i, j :: 0 <= i < j < |p| ==> NamesOf(g, p)[i] != NamesOf(g, p)[j]
  {
    forall i, j | 0 <= i < j < |p|
      ensures NamesOf(g, p)[i] != NamesOf(g, p)[j]
    {
      assert g.nameIndex[g.members[p[i]].name] == p[i];
      assert g.nameIndex[g.members[p[j]].name] == p[j];
    }
  }
}
