/** `get_community_size`: breadth-first search over follow edges taken in
    either direction, counting the users within `maxDepth` steps. The queue
    holds (user, depth); a user is visited when dequeued unless it was
    visited already or lies deeper than `maxDepth`. */
module Community {
  import opened SocialGraph
  import opened Reach

  /** The follow graph with every edge usable in both directions: a user's
      neighbours are the users it follows followed by its followers, the
      order in which the source scans them. */
  ghost function Undirected(g: Graph): map<int, seq<int>> {
    map v | v in g.following :: GetFollowing(g, v) + GetFollowers(g, v)
  }

  /** An undirected step is a follow edge one way or the other. */
  lemma UndirectedStep(g: Graph, v: int, n: int)
    requires Valid(g)
    ensures (v in Undirected(g) && n in Undirected(g)[v]) <==> (Edge(g, v, n) || Edge(g, n, v))
  {
    if Edge(g, n, v) {
      EdgeEndsRegistered(g, n, v);
    }
    if v in g.following {
      FollowingFollowersDual(g, v, n);
    }
  }

  /** The undirected neighbours of a known user. */
  lemma UndirectedAt(g: Graph, v: int)
    requires v in g.following
    ensures v in Undirected(g) && Undirected(g)[v] == GetFollowing(g, v) + GetFollowers(g, v)
  {
  }

  lemma UndirectedTargetsKnown(g: Graph)
    requires Valid(g)
    ensures TargetsKnown(Undirected(g))
    ensures Undirected(g).Keys == g.following.Keys
  {
    var m := Undirected(g);
    forall u, v | u in m && v in m[u]
      ensures v in m
    {
      UndirectedStep(g, u, v);
      if Edge(g, u, v) {
        EdgeEndsRegistered(g, u, v);
      } else {
        EdgeEndsRegistered(g, v, u);
      }
    }
  }

  function Min(a: int, b: int): (r: int) {
    if a < b then a else b
  }

  /** The users waiting in the queue at depth `d`. */
  ghost function QLevel(q: seq<(int, int)>, d: int): set<int> {
    set x | x in q && x.1 == d :: x.0
  }

  lemma QNodesPop(q: seq<(int, int)>)
    requires q != []
    ensures QNodes(q) == {q[0].0} + QNodes(q[1..])
    ensures forall d :: QLevel(q, d) <= {q[0].0} + QLevel(q[1..], d)
  {
    assert q == [q[0]] + q[1..];
  }

  /** Every entry lies within its depth of `u`; depths never decrease along
      the queue and span at most two consecutive values. */
  ghost predicate QueueShape(m: map<int, seq<int>>, u: int, q: seq<(int, int)>) {
    && (forall x :: x in q ==> x.0 in m && 0 <= x.1 && x.0 in Ball(m, u, x.1))
    && (forall i, j :: 0 <= i <= j < |q| ==> q[i].1 <= q[j].1)
    && (forall j :: 0 <= j < |q| ==> q[j].1 <= q[0].1 + 1)
  }

  /** Every neighbour of a user in `from` is in `done` or waiting. */
  ghost predicate Closure(m: map<int, seq<int>>, from: set<int>, done: set<int>, q: seq<(int, int)>) {
    forall w, n :: w in from && w in m && n in m[w] ==> n in done || n in QNodes(q)
  }

  /** The invariant of the outer loop, with `d` the depth at the head of the
      queue: the visited users lie within `D` steps; everything within
      `min(d, D + 1) - 1` steps is visited; and while `d <= D`, the visited
      users have their neighbours accounted for and everything within `d`
      steps is visited or waiting at depth `d`. An empty queue means the
      whole ball of radius `D` is visited. */
  ghost predicate CommunityInv(m: map<int, seq<int>>, u: int, D: int, q: seq<(int, int)>, visited: set<int>) {
    && QueueShape(m, u, q)
    && visited <= m.Keys && visited <= Ball(m, u, D)
    && (q != [] ==> Ball(m, u, Min(q[0].1, D + 1) - 1) <= visited)
    && (q != [] && q[0].1 <= D ==>
          && (u in visited || u in QNodes(q))
          && Closure(m, visited, visited, q)
          && Ball(m, u, q[0].1) <= visited + QLevel(q, q[0].1))
    && (q == [] ==> Ball(m, u, D) <= visited)
  }

  /** The queue after a round: what was behind the old head is still at the
      front, and everything appended is one step deeper than the old head. */
  ghost predicate Successor(m: map<int, seq<int>>, u: int, qOld: seq<(int, int)>, q: seq<(int, int)>) {
    && qOld != [] && |q| >= |qOld| - 1 && q[..|qOld| - 1] == qOld[1..]
    && (forall x :: x in q ==> x.0 in m && 0 <= x.1 && x.0 in Ball(m, u, x.1))
    && (forall j :: 0 <= j < |q| ==> qOld[0].1 <= q[j].1 <= qOld[0].1 + 1)
    && (forall i, j :: 0 <= i <= j < |q| ==> q[i].1 <= q[j].1)
  }

  /** What dequeuing the head leaves behind. */
  lemma Pop(m: map<int, seq<int>>, u: int, D: int, q: seq<(int, int)>, visited: set<int>)
    requires CommunityInv(m, u, D, q, visited) && q != []
    ensures q[0].0 in m && 0 <= q[0].1 && q[0].0 in Ball(m, u, q[0].1)
    ensures Successor(m, u, q, q[1..])
    ensures q[0].1 <= D ==> Closure(m, visited, visited + {q[0].0}, q[1..])
  {
    assert q[0] in q;
    PopShape(m, u, q);
    if q[0].1 <= D {
      PopClosure(m, visited, q);
    }
  }

  lemma PopShape(m: map<int, seq<int>>, u: int, q: seq<(int, int)>)
    requires QueueShape(m, u, q) && q != []
    ensures Successor(m, u, q, q[1..])
  {
    var r := q[1..];
    assert r[..|q| - 1] == r;
    forall j | 0 <= j < |r|
      ensures q[0].1 <= r[j].1 <= q[0].1 + 1
    {
      assert r[j] == q[j + 1];
    }
    forall i, j | 0 <= i <= j < |r|
      ensures r[i].1 <= r[j].1
    {
      assert r[i] == q[i + 1] && r[j] == q[j + 1];
    }
    forall x | x in r
      ensures x.0 in m && 0 <= x.1 && x.0 in Ball(m, u, x.1)
    {
      assert x in q;
    }
  }

  lemma PopClosure(m: map<int, seq<int>>, visited: set<int>, q: seq<(int, int)>)
    requires Closure(m, visited, visited, q) && q != []
    ensures Closure(m, visited, visited + {q[0].0}, q[1..])
  {
    QNodesPop(q);
  }

  /** Appending an entry one step deeper than the dequeued one, lying within
      its depth of `u`, keeps the queue a successor of the old one. */
  lemma ScanAppend(m: map<int, seq<int>>, u: int, qOld: seq<(int, int)>, q: seq<(int, int)>, x: (int, int))
    requires Successor(m, u, qOld, q)
    requires x.0 in m && x.1 == qOld[0].1 + 1 && x.1 >= 0 && x.0 in Ball(m, u, x.1)
    ensures Successor(m, u, qOld, q + [x])
  {
    var d := qOld[0].1;
    var q' := q + [x];
    assert q'[..|qOld| - 1] == q[..|qOld| - 1];
    forall y | y in q'
      ensures y.0 in m && 0 <= y.1 && y.0 in Ball(m, u, y.1)
    {
      if y != x {
        assert y in q;
      }
    }
    forall i, j | 0 <= i <= j < |q'|
      ensures q'[i].1 <= q'[j].1
    {
      if j < |q| {
        assert q'[i] == q[i] && q'[j] == q[j];
      } else if i < |q| {
        assert q'[i] == q[i];
      }
    }
    forall j | 0 <= j < |q'|
      ensures d <= q'[j].1 <= d + 1
    {
      if j < |q| {
        assert q'[j] == q[j];
      }
    }
  }

  /** Every entry of the old queue behind its head is still waiting. */
  lemma KeepsOld(m: map<int, seq<int>>, u: int, qOld: seq<(int, int)>, q: seq<(int, int)>)
    requires Successor(m, u, qOld, q)
    ensures QNodes(qOld[1..]) <= QNodes(q)
    ensures forall d :: QLevel(qOld[1..], d) <= QLevel(q, d)
  {
    forall x | x in qOld[1..]
      ensures x in q
    {
      var j :| 0 <= j < |qOld[1..]| && qOld[1..][j] == x;
      assert q[j] == q[..|qOld| - 1][j];
    }
  }

  /** Whether a round visits the head: `visited` grows by the head exactly
      when it was unvisited and not too deep. */
  ghost predicate Visits(D: int, qOld: seq<(int, int)>, seen: set<int>, visited: set<int>) {
    && qOld != []
    && (qOld[0].0 in seen || qOld[0].1 > D ==> visited == seen)
    && (qOld[0].0 !in seen && qOld[0].1 <= D ==> visited == seen + {qOld[0].0})
  }

  /** The shape part of the invariant after one round. */
  lemma AdvanceShape(m: map<int, seq<int>>, u: int, D: int, qOld: seq<(int, int)>, seen: set<int>,
                     q: seq<(int, int)>, visited: set<int>)
    requires CommunityInv(m, u, D, qOld, seen) && qOld != []
    requires Visits(D, qOld, seen, visited)
    requires Successor(m, u, qOld, q)
    ensures QueueShape(m, u, q)
    ensures visited <= m.Keys && visited <= Ball(m, u, D)
  {
    assert qOld[0] in qOld;
    if visited != seen {
      BallMono(m, u, qOld[0].1, D);
    }
  }

  /** The layering part of the invariant after one round. */
  lemma AdvanceLayers(m: map<int, seq<int>>, u: int, D: int, qOld: seq<(int, int)>, seen: set<int>,
                      q: seq<(int, int)>, visited: set<int>)
    requires CommunityInv(m, u, D, qOld, seen) && qOld != []
    requires Visits(D, qOld, seen, visited)
    requires Successor(m, u, qOld, q)
    requires qOld[0].1 <= D ==> Closure(m, visited, visited, q)
    requires q != []
    ensures Ball(m, u, Min(q[0].1, D + 1) - 1) <= visited
    ensures q[0].1 <= D ==> Ball(m, u, q[0].1) <= visited + QLevel(q, q[0].1)
    ensures q[0].1 <= D ==> u in visited || u in QNodes(q)
  {
    var d := qOld[0].1;
    assert qOld[0] in qOld;
    QNodesPop(qOld);
    KeepsOld(m, u, qOld, q);
    if q[0].1 != d {
      DeeperRest(m, u, qOld, q);
    }
    LayersAfter(m, u, D, d, seen, qOld[0].0, QLevel(qOld, d), QLevel(qOld[1..], d), q, visited);
  }

  /** When the new head is one step deeper than the old one, so is
      everything in the queue, and nothing of the old depth is left. */
  lemma DeeperRest(m: map<int, seq<int>>, u: int, qOld: seq<(int, int)>, q: seq<(int, int)>)
    requires Successor(m, u, qOld, q) && q != [] && q[0].1 != qOld[0].1
    ensures forall x :: x in q ==> x.1 == qOld[0].1 + 1
    ensures QLevel(qOld[1..], qOld[0].1) == {}
  {
    forall x | x in q
      ensures x.1 == qOld[0].1 + 1
    {
      var j :| 0 <= j < |q| && q[j] == x;
    }
    forall x | x in qOld[1..]
      ensures x.1 == qOld[0].1 + 1
    {
      var j :| 0 <= j < |qOld[1..]| && qOld[1..][j] == x;
      assert x == q[j];
    }
  }

  lemma LayersAfter(m: map<int, seq<int>>, u: int, D: int, d: int, seen: set<int>, cur: int,
                    oldLevel: set<int>, restLevel: set<int>, q: seq<(int, int)>, visited: set<int>)
    requires d >= 0 && seen <= visited && (d <= D ==> cur in visited)
    requires Ball(m, u, Min(d, D + 1) - 1) <= seen
    requires d <= D ==> Ball(m, u, d) <= seen + oldLevel
    requires oldLevel <= {cur} + restLevel && restLevel <= QLevel(q, d)
    requires q != [] && d <= q[0].1 <= d + 1
    requires q[0].1 != d ==> restLevel == {} && forall x :: x in q ==> x.1 == d + 1
    requires d <= D ==> Closure(m, visited, visited, q)
    ensures Ball(m, u, Min(q[0].1, D + 1) - 1) <= visited
    ensures q[0].1 <= D ==> Ball(m, u, q[0].1) <= visited + QLevel(q, q[0].1)
  {
    if q[0].1 != d && d <= D {
      assert Ball(m, u, d) <= visited;
      NextLevel(m, u, q, visited, d);
    }
  }

  /** Once the queue holds only entries of depth `d + 1` and everything
      within `d` steps is visited, everything within `d + 1` steps is visited
      or waiting. */
  lemma NextLevel(m: map<int, seq<int>>, u: int, q: seq<(int, int)>, visited: set<int>, d: int)
    requires d >= 0
    requires forall x :: x in q ==> x.1 == d + 1
    requires Ball(m, u, d) <= visited
    requires Closure(m, visited, visited, q)
    ensures Ball(m, u, d + 1) <= visited + QLevel(q, d + 1)
  {
    assert QNodes(q) <= QLevel(q, d + 1);
    var next := Ball(m, u, d + 1);
    forall v | v in next
      ensures v in visited + QLevel(q, d + 1)
    {
      if v !in Ball(m, u, d) {
        var w :| w in Ball(m, u, d) && w in m && v in m[w];
        assert v in visited || v in QNodes(q);
      }
    }
  }

  /** The queue running dry after a round leaves the whole ball visited. */
  lemma AdvanceEmpty(m: map<int, seq<int>>, u: int, D: int, qOld: seq<(int, int)>, seen: set<int>,
                     visited: set<int>)
    requires CommunityInv(m, u, D, qOld, seen) && qOld != []
    requires Visits(D, qOld, seen, visited)
    requires Successor(m, u, qOld, [])
    requires qOld[0].1 <= D ==> Closure(m, visited, visited, [])
    ensures Ball(m, u, D) <= visited
  {
    if qOld[0].1 <= D {
      QNodesPop(qOld);
      assert qOld[1..] == [];
      assert ClosedUnder(m, visited);
      ClosedContainsBall(m, u, visited, D);
    }
  }

  /** One round re-establishes the outer invariant. */
  lemma Advance(m: map<int, seq<int>>, u: int, D: int, qOld: seq<(int, int)>, seen: set<int>,
                q: seq<(int, int)>, visited: set<int>)
    requires CommunityInv(m, u, D, qOld, seen) && qOld != []
    requires Visits(D, qOld, seen, visited)
    requires Successor(m, u, qOld, q)
    requires qOld[0].1 <= D ==> Closure(m, visited, visited, q)
    ensures CommunityInv(m, u, D, q, visited)
  {
    AdvanceShape(m, u, D, qOld, seen, q, visited);
    if q != [] {
      AdvanceLayers(m, u, D, qOld, seen, q, visited);
    } else {
      AdvanceEmpty(m, u, D, qOld, seen, visited);
    }
  }

  /** The neighbours of the visited users before this round and of the
      newly visited user together are accounted for. */
  lemma ClosureJoin(m: map<int, seq<int>>, seen: set<int>, cur: int, visited: set<int>,
                    q0: seq<(int, int)>, q: seq<(int, int)>)
    requires visited == seen + {cur}
    requires Closure(m, seen, visited, q0) && QNodes(q0) <= QNodes(q)
    requires Closure(m, {cur}, visited, q)
    ensures Closure(m, visited, visited, q)
  {
    forall w, n | w in visited && w in m && n in m[w]
      ensures n in visited || n in QNodes(q)
    {
      if w in seen {
        assert n in visited || n in QNodes(q0);
      } else {
        assert w in {cur};
      }
    }
  }

  /** The entries the inner loops append for `nbrs`: each neighbour not yet
      visited, in list order, one step deeper than `depth`. */
  function Deeper(depth: int, nbrs: seq<int>, visited: set<int>): (r: seq<(int, int)>) {
    if nbrs == [] then []
    else
      var nb := nbrs[|nbrs| - 1];
      Deeper(depth, nbrs[..|nbrs| - 1], visited) + (if nb in visited then [] else [(nb, depth + 1)])
  }

  /** The appended entries are exactly the unvisited neighbours, each one
      step deeper. */
  lemma {:induction false} DeeperMembers(depth: int, nbrs: seq<int>, visited: set<int>)
    ensures forall x :: x in Deeper(depth, nbrs, visited) <==> x.0 in nbrs && x.0 !in visited && x.1 == depth + 1
  {
    if nbrs != [] {
      var t := nbrs[..|nbrs| - 1];
      assert nbrs == t + [nbrs[|nbrs| - 1]];
      DeeperMembers(depth, t, visited);
    }
  }

  /** Scanning one more neighbour appends at most its own entry. */
  lemma DeeperStep(depth: int, nbrs: seq<int>, i: int, visited: set<int>)
    requires 0 <= i < |nbrs|
    ensures Deeper(depth, nbrs[..i + 1], visited)
         == Deeper(depth, nbrs[..i], visited) + (if nbrs[i] in visited then [] else [(nbrs[i], depth + 1)])
  {
    assert nbrs[..i + 1][..i] == nbrs[..i];
  }

  /** The inner loops of a round: queue every unvisited neighbour of `cur`,
      one step deeper. The source runs two loops, over the users `cur`
      follows and then over its followers; this is one loop over the two
      lists joined in that order. */
  method ScanNeighbours(ghost m: map<int, seq<int>>, u: int, ghost qOld: seq<(int, int)>,
                        cur: int, depth: int, nbrs: seq<int>, queue0: seq<(int, int)>, visited: set<int>)
    returns (queue: seq<(int, int)>)
    requires TargetsKnown(m) && cur in m && m[cur] == nbrs
    requires qOld != [] && qOld[0] == (cur, depth) && cur in Ball(m, u, depth)
    requires Successor(m, u, qOld, queue0)
    ensures queue == queue0 + Deeper(depth, nbrs, visited)
    ensures Successor(m, u, qOld, queue)
    ensures QNodes(queue0) <= QNodes(queue)
    ensures Closure(m, {cur}, visited, queue)
  {
    queue := queue0;
    var i := 0;
    assert nbrs[..0] == [];
    while i < |nbrs|
      invariant ScanState(m, u, qOld, queue0, depth, nbrs, i, visited, queue)
    {
      var nb := nbrs[i];
      ghost var before := queue;
      if nb !in visited {
        queue := queue + [(nb, depth + 1)];
      }
      ScanStep(m, u, qOld, queue0, cur, depth, nbrs, i, visited, before, queue);
      i := i + 1;
    }
    assert nbrs[..i] == nbrs;
  }

  /** The invariant of the scan: the queue is the old one followed by the
      entries of the first `i` neighbours, which are all accounted for. */
  ghost predicate ScanState(m: map<int, seq<int>>, u: int, qOld: seq<(int, int)>, queue0: seq<(int, int)>,
                            depth: int, nbrs: seq<int>, i: int, visited: set<int>, queue: seq<(int, int)>) {
    && 0 <= i <= |nbrs|
    && queue == queue0 + Deeper(depth, nbrs[..i], visited)
    && ScanCover(m, u, qOld, queue0, nbrs, i, visited, queue)
  }

  /** The first `i` neighbours are visited or queued, and the queue is still
      a successor of the old search queue. */
  ghost predicate ScanCover(m: map<int, seq<int>>, u: int, qOld: seq<(int, int)>, queue0: seq<(int, int)>,
                            nbrs: seq<int>, i: int, visited: set<int>, queue: seq<(int, int)>) {
    && 0 <= i <= |nbrs|
    && Successor(m, u, qOld, queue)
    && QNodes(queue0) <= QNodes(queue)
    && forall k :: 0 <= k < i ==> nbrs[k] in visited || nbrs[k] in QNodes(queue)
  }

  /** Scanning neighbour `i`: queue it one step deeper unless visited. */
  lemma ScanStep(m: map<int, seq<int>>, u: int, qOld: seq<(int, int)>, queue0: seq<(int, int)>,
                 cur: int, depth: int, nbrs: seq<int>, i: int, visited: set<int>,
                 before: seq<(int, int)>, queue: seq<(int, int)>)
    requires TargetsKnown(m) && cur in m && m[cur] == nbrs
    requires qOld != [] && qOld[0] == (cur, depth) && cur in Ball(m, u, depth)
    requires ScanState(m, u, qOld, queue0, depth, nbrs, i, visited, before) && i < |nbrs|
    requires queue == if nbrs[i] !in visited then before + [(nbrs[i], depth + 1)] else before
    ensures ScanState(m, u, qOld, queue0, depth, nbrs, i + 1, visited, queue)
  {
    DeeperStep(depth, nbrs, i, visited);
    CoverStep(m, u, qOld, queue0, cur, depth, nbrs, i, visited, before, queue);
  }

  /** Scanning neighbour `i` keeps the neighbours accounted for. */
  lemma CoverStep(m: map<int, seq<int>>, u: int, qOld: seq<(int, int)>, queue0: seq<(int, int)>,
                  cur: int, depth: int, nbrs: seq<int>, i: int, visited: set<int>,
                  before: seq<(int, int)>, queue: seq<(int, int)>)
    requires TargetsKnown(m) && cur in m && m[cur] == nbrs
    requires qOld != [] && qOld[0] == (cur, depth) && cur in Ball(m, u, depth)
    requires ScanCover(m, u, qOld, queue0, nbrs, i, visited, before) && i < |nbrs|
    requires queue == if nbrs[i] !in visited then before + [(nbrs[i], depth + 1)] else before
    ensures ScanCover(m, u, qOld, queue0, nbrs, i + 1, visited, queue)
  {
    var nb := nbrs[i];
    if nb !in visited {
      BallStep(m, u, depth + 1, cur, nb);
      ScanAppend(m, u, qOld, before, (nb, depth + 1));
      QNodesAppend(before, (nb, depth + 1));
    }
  }

  /** What one round of the outer loop does to the queue and the visited
      set: a head already visited or deeper than `D` is dropped; otherwise
      it is visited, and its unvisited followees and then followers are
      queued one step deeper, in list order. */
  ghost predicate Round(g: Graph, D: int, queue0: seq<(int, int)>, visited0: set<int>,
                        queue: seq<(int, int)>, visited: set<int>)
    requires queue0 != []
  {
    var (cur, depth) := queue0[0];
    if cur in visited0 || depth > D then
      queue == queue0[1..] && visited == visited0
    else
      && visited == visited0 + {cur}
      && queue == queue0[1..] + Deeper(depth, GetFollowing(g, cur) + GetFollowers(g, cur), visited)
  }

  /** One round of the outer loop: dequeue the head and, unless it was
      visited already or lies deeper than `D`, visit it and queue its
      neighbours. */
  method CommunityStep(g: Graph, u: int, D: int, queue0: seq<(int, int)>, visited0: set<int>)
    returns (queue: seq<(int, int)>, visited: set<int>)
    requires Valid(g) && TargetsKnown(Undirected(g))
    requires queue0 != [] && CommunityInv(Undirected(g), u, D, queue0, visited0)
    ensures Round(g, D, queue0, visited0, queue, visited)
    ensures CommunityInv(Undirected(g), u, D, queue, visited)
    ensures visited0 <= visited && (visited0 < visited || |queue| < |queue0|)
  {
    ghost var m := Undirected(g);
    UndirectedTargetsKnown(g);
    var cur, depth := queue0[0].0, queue0[0].1;
    Pop(m, u, D, queue0, visited0);
    queue := queue0[1..];
    if cur in visited0 || depth > D {
      assert visited0 + {cur} == visited0 || depth > D;
      Advance(m, u, D, queue0, visited0, queue, visited0);
      return queue, visited0;
    }
    visited := visited0 + {cur};
    ghost var q1 := queue;
    UndirectedAt(g, cur);
    var nbrs := GetFollowing(g, cur) + GetFollowers(g, cur);
    queue := ScanNeighbours(m, u, queue0, cur, depth, nbrs, queue, visited);
    ClosureJoin(m, visited0, cur, visited, q1, queue);
    Advance(m, u, D, queue0, visited0, queue, visited);
  }

  /** One round, seen from the search loop: the invariant holds again and
      either a user was newly visited or the queue got shorter. */
  method Progress(g: Graph, u: int, D: int, queue0: seq<(int, int)>, visited0: set<int>)
    returns (queue: seq<(int, int)>, visited: set<int>)
    requires Valid(g) && TargetsKnown(Undirected(g))
    requires queue0 != [] && CommunityInv(Undirected(g), u, D, queue0, visited0)
    ensures CommunityInv(Undirected(g), u, D, queue, visited)
    ensures visited0 <= visited && (visited0 < visited || |queue| < |queue0|)
  {
    queue, visited := CommunityStep(g, u, D, queue0, visited0);
  }

  lemma InitialInv(m: map<int, seq<int>>, u: int, D: int)
    requires u in m
    ensures CommunityInv(m, u, D, [(u, 0)], {})
  {
    assert QLevel([(u, 0)], 0) == {u};
    assert QNodes([(u, 0)]) == {u};
    assert Ball(m, u, Min(0, D + 1) - 1) == {};
  }

  /** The search loop of `get_community_size`: dequeue until the queue is
      empty, starting from `u` at depth 0. */
  method Explore(g: Graph, ghost m: map<int, seq<int>>, u: int, maxDepth: int) returns (visited: set<int>)
    requires Valid(g) && m == Undirected(g) && u in m
    ensures visited == Ball(m, u, maxDepth)
  {
    UndirectedTargetsKnown(g);
    visited := {};
    var queue: seq<(int, int)> := [(u, 0)];
    InitialInv(m, u, maxDepth);
    while queue != []
      invariant CommunityInv(m, u, maxDepth, queue, visited)
      decreases |m.Keys - visited|, |queue|
    {
      ghost var before := visited;
      queue, visited := Progress(g, u, maxDepth, queue, visited);
      FewerUnvisited(m.Keys, before, visited);
    }
  }

  /** `get_community_size`: the number of users within `maxDepth` steps of
      `u` when follow edges may be taken either way; 0 for an unknown user. */
  method CommunitySize(g: Graph, u: int, maxDepth: int) returns (r: int)
    requires Valid(g)
    ensures u !in g.following ==> r == 0
    ensures u in g.following ==> r == |Ball(Undirected(g), u, maxDepth)|
    ensures maxDepth < 0 ==> r == 0
    ensures 0 <= r <= |g.following.Keys|
  {
    if u !in g.following {
      return 0;
    }
    UndirectedTargetsKnown(g);
    var visited := Explore(g, Undirected(g), u, maxDepth);
    BallInKeys(Undirected(g), u, maxDepth);
    SubsetCard(visited, g.following.Keys);
    return |visited|;
  }

  /** The community of `u` within `k` steps is exactly the set of users that
      end a walk from `u` of at most `k` steps, each step a follow edge taken
      in either direction. */
  lemma CommunityMembers(g: Graph, u: int, k: int, v: int)
    requires Valid(g) && u in g.following
    ensures v in Ball(Undirected(g), u, k) <==> exists p :: IsWalkFrom(Undirected(g), p, u, v) && |p| <= k + 1
  {
    var m := Undirected(g);
    UndirectedTargetsKnown(g);
    if v in Ball(m, u, k) {
      BallHasWalk(m, u, k, v);
    }
    if p :| IsWalkFrom(m, p, u, v) && |p| <= k + 1 {
      WalkInBall(m, p, u, v);
      BallMono(m, u, |p| - 1, k);
    }
  }

  lemma SubsetCard(a: set<int>, b: set<int>)
    requires a <= b
    ensures |a| <= |b|
  {
    assert b == a + (b - a);
  }

  /** The community of a known user contains the user exactly when the depth
      bound is not negative, and grows with the bound. */
  lemma CommunityMonotone(g: Graph, u: int, j: int, k: int)
    requires Valid(g) && u in g.following && j <= k
    ensures |Ball(Undirected(g), u, j)| <= |Ball(Undirected(g), u, k)|
    ensures u in Ball(Undirected(g), u, k) <==> k >= 0
  {
    BallMono(Undirected(g), u, j, k);
    SubsetCard(Ball(Undirected(g), u, j), Ball(Undirected(g), u, k));
    if k >= 0 {
      BallMono(Undirected(g), u, 0, k);
    }
  }
}
