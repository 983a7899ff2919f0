/** `shortest_path_bfs` and `get_degrees_of_separation`: breadth-first search
    along follow edges. The queue holds (user, path from the start to that
    user); a user is marked visited when it is dequeued, so the queue may hold
    the same user more than once, and the search stops as soon as the target
    shows up among the neighbours of the user being expanded. */
module Paths {
  import opened SocialGraph
  import opened Reach

  /** In a valid graph every followed user is registered. */
  lemma FollowingTargetsKnown(g: Graph)
    requires Valid(g)
    ensures TargetsKnown(g.following)
  {
    forall u, v | u in g.following && v in g.following[u]
      ensures v in g.following
    {
      EdgeEndsRegistered(g, u, v);
    }
  }

  /** In a valid graph a walk along the following map is a chain of follow
      edges that starts at a registered user. */
  lemma FollowWalk(g: Graph, p: seq<int>)
    requires Valid(g)
    ensures IsWalk(g.following, p) <==>
              |p| > 0 && p[0] in g.following && forall i :: 0 <= i < |p| - 1 ==> Edge(g, p[i], p[i + 1])
  {
    if |p| > 0 && p[0] in g.following && forall i :: 0 <= i < |p| - 1 ==> Edge(g, p[i], p[i + 1]) {
      forall i | 0 <= i < |p|
        ensures p[i] in g.following
      {
        if i > 0 {
          EdgeEndsRegistered(g, p[i - 1], p[i]);
        }
      }
    }
  }

  /** The users waiting in the queue with a path of `n` vertices. */
  ghost function QLevel(q: seq<(int, seq<int>)>, n: int): set<int> {
    set x | x in q && |x.1| == n :: x.0
  }

  lemma QNodesPop(q: seq<(int, seq<int>)>)
    requires q != []
    ensures QNodes(q) == {q[0].0} + QNodes(q[1..])
    ensures forall n :: QLevel(q, n) <= {q[0].0} + QLevel(q[1..], n)
  {
    assert q == [q[0]] + q[1..];
  }

  lemma QNodesGrow(q: seq<(int, seq<int>)>, q': seq<(int, seq<int>)>)
    requires forall x :: x in q ==> x in q'
    ensures QNodes(q) <= QNodes(q')
    ensures forall n :: QLevel(q, n) <= QLevel(q', n)
  {
  }

  /** The queue's entries are walks from `s` to the user they name, in order
      of length, spanning at most two consecutive lengths. */
  ghost predicate QueueShape(m: map<int, seq<int>>, s: int, q: seq<(int, seq<int>)>) {
    && (forall x :: x in q ==> IsWalkFrom(m, x.1, s, x.0))
    && (forall i, j :: 0 <= i <= j < |q| ==> |q[i].1| <= |q[j].1|)
    && (forall j :: 0 <= j < |q| ==> |q[j].1| <= |q[0].1| + 1)
  }

  /** Every neighbour of a user in `from` is in `done` or waiting, and none
      of them is the target. */
  ghost predicate Closure(m: map<int, seq<int>>, e: int, from: set<int>, done: set<int>, q: seq<(int, seq<int>)>) {
    forall w, n :: w in from && w in m && n in m[w] ==> n != e && (n in done || n in QNodes(q))
  }

  /** The invariant of the outer loop: with `L` the path length at the head
      of the queue, everything within `L - 2` steps has been visited and
      everything within `L - 1` steps is visited or waiting at length `L`. */
  ghost predicate SearchInv(m: map<int, seq<int>>, s: int, e: int, q: seq<(int, seq<int>)>, visited: set<int>) {
    && QueueShape(m, s, q)
    && visited <= m.Keys
    && e !in visited && e !in QNodes(q)
    && (s in visited || s in QNodes(q))
    && Closure(m, e, visited, visited, q)
    && (q != [] ==>
          && Ball(m, s, |q[0].1| - 2) <= visited
          && Ball(m, s, |q[0].1| - 1) <= visited + QLevel(q, |q[0].1|))
  }

  /** The invariant of the scan over the neighbours of the dequeued user:
      the rest of the old queue is still at the front, everything appended is
      one step longer than the dequeued path, and the users visited before
      this step still have their neighbours accounted for. */
  ghost predicate ScanInv(m: map<int, seq<int>>, s: int, e: int, qOld: seq<(int, seq<int>)>, seen: set<int>,
                          path: seq<int>, q: seq<(int, seq<int>)>, visited: set<int>) {
    && qOld != [] && |q| >= |qOld| - 1 && q[..|qOld| - 1] == qOld[1..]
    && (forall x :: x in q ==> IsWalkFrom(m, x.1, s, x.0))
    && (forall j :: 0 <= j < |q| ==> |path| <= |q[j].1| <= |path| + 1)
    && (forall i, j :: 0 <= i <= j < |q| ==> |q[i].1| <= |q[j].1|)
    && e !in QNodes(q)
    && Closure(m, e, seen, visited, q)
  }

  /** What dequeuing the head leaves behind. */
  lemma Pop(m: map<int, seq<int>>, s: int, e: int, q: seq<(int, seq<int>)>, visited: set<int>)
    requires SearchInv(m, s, e, q, visited) && q != []
    ensures IsWalkFrom(m, q[0].1, s, q[0].0) && q[0].0 in m && q[0].0 != e
    ensures ScanInv(m, s, e, q, visited, q[0].1, q[1..], visited + {q[0].0})
  {
    QNodesPop(q);
    assert q[0] in q;
    var r := q[1..];
    assert r[..|q| - 1] == r;
    forall j | 0 <= j < |r|
      ensures |q[0].1| <= |r[j].1| <= |q[0].1| + 1
    {
      assert r[j] == q[j + 1];
    }
    forall i, j | 0 <= i <= j < |r|
      ensures |r[i].1| <= |r[j].1|
    {
      assert r[i] == q[i + 1] && r[j] == q[j + 1];
    }
    forall x | x in r
      ensures IsWalkFrom(m, x.1, s, x.0)
    {
      assert x in q;
    }
    forall w, n | w in visited && w in m && n in m[w]
      ensures n != e && (n in visited + {q[0].0} || n in QNodes(r))
    {
      assert n != e && (n in visited || n in QNodes(q));
    }
  }

  /** Appending a one-step-longer walk keeps the scan invariant. */
  lemma ScanAppend(m: map<int, seq<int>>, s: int, e: int, qOld: seq<(int, seq<int>)>, seen: set<int>,
                   path: seq<int>, q: seq<(int, seq<int>)>, visited: set<int>, cur: int, nb: int)
    requires ScanInv(m, s, e, qOld, seen, path, q, visited)
    requires IsWalkFrom(m, path, s, cur) && cur in m && nb in m[cur] && nb in m && nb != e
    ensures IsWalkFrom(m, path + [nb], s, nb)
    ensures QNodes(q + [(nb, path + [nb])]) == QNodes(q) + {nb}
    ensures ScanInv(m, s, e, qOld, seen, path, q + [(nb, path + [nb])], visited)
  {
    var walk := path + [nb];
    assert forall k :: 0 <= k < |path| ==> walk[k] == path[k];
    assert IsWalkFrom(m, walk, s, nb);
    var q' := q + [(nb, walk)];
    QNodesAppend(q, (nb, walk));
    assert q'[..|qOld| - 1] == q[..|qOld| - 1];
    forall x | x in q'
      ensures IsWalkFrom(m, x.1, s, x.0)
    {
      if x != (nb, walk) {
        assert x in q;
      }
    }
    forall i, j | 0 <= i <= j < |q'|
      ensures |q'[i].1| <= |q'[j].1|
    {
      if j < |q| {
        assert q'[i] == q[i] && q'[j] == q[j];
      } else if i < |q| {
        assert q'[i] == q[i];
      }
    }
    forall j | 0 <= j < |q'|
      ensures |path| <= |q'[j].1| <= |path| + 1
    {
      if j < |q| {
        assert q'[j] == q[j];
      }
    }
  }

  /** Every entry of the old queue behind its head is still waiting. */
  lemma ScanKeepsOld(m: map<int, seq<int>>, s: int, e: int, qOld: seq<(int, seq<int>)>, seen: set<int>,
                     path: seq<int>, q: seq<(int, seq<int>)>, visited: set<int>)
    requires qOld != []
    requires ScanInv(m, s, e, qOld, seen, path, q, visited)
    ensures forall x :: x in qOld[1..] ==> x in q
    ensures QNodes(qOld[1..]) <= QNodes(q)
    ensures forall n :: QLevel(qOld[1..], n) <= QLevel(q, n)
  {
    forall x | x in qOld[1..]
      ensures x in q
    {
      var j :| 0 <= j < |qOld[1..]| && qOld[1..][j] == x;
      assert q[j] == q[..|qOld| - 1][j];
    }
    QNodesGrow(qOld[1..], q);
  }

  /** The bookkeeping part of the outer invariant after expanding the head. */
  lemma ExpandShape(m: map<int, seq<int>>, s: int, e: int, qOld: seq<(int, seq<int>)>, seen: set<int>,
                    q: seq<(int, seq<int>)>, visited: set<int>)
    requires SearchInv(m, s, e, qOld, seen) && qOld != []
    requires visited == seen + {qOld[0].0}
    requires ScanInv(m, s, e, qOld, seen, qOld[0].1, q, visited)
    requires Closure(m, e, {qOld[0].0}, visited, q)
    ensures QueueShape(m, s, q)
    ensures visited <= m.Keys && e !in visited
    ensures s in visited || s in QNodes(q)
    ensures Closure(m, e, visited, visited, q)
  {
    assert qOld[0] in qOld;
    QNodesPop(qOld);
    ScanKeepsOld(m, s, e, qOld, seen, qOld[0].1, q, visited);
    forall w, n | w in visited && w in m && n in m[w]
      ensures n != e && (n in visited || n in QNodes(q))
    {
      if w in seen {
        assert Closure(m, e, seen, visited, q);
      } else {
        assert w in {qOld[0].0};
      }
    }
  }

  /** The layering part of the outer invariant after expanding the head. */
  lemma ExpandLayers(m: map<int, seq<int>>, s: int, e: int, qOld: seq<(int, seq<int>)>, seen: set<int>,
                     q: seq<(int, seq<int>)>, visited: set<int>)
    requires SearchInv(m, s, e, qOld, seen) && qOld != []
    requires visited == seen + {qOld[0].0}
    requires ScanInv(m, s, e, qOld, seen, qOld[0].1, q, visited)
    requires Closure(m, e, visited, visited, q)
    requires q != []
    ensures Ball(m, s, |q[0].1| - 2) <= visited
    ensures Ball(m, s, |q[0].1| - 1) <= visited + QLevel(q, |q[0].1|)
  {
    var L := |qOld[0].1|;
    assert qOld[0] in qOld;
    QNodesPop(qOld);
    ScanKeepsOld(m, s, e, qOld, seen, qOld[0].1, q, visited);
    LayersAfter(m, s, e, L, seen, qOld[0].0, QLevel(qOld, L), QLevel(qOld[1..], L), q, visited);
  }

  lemma LayersAfter(m: map<int, seq<int>>, s: int, e: int, L: int, seen: set<int>, cur: int,
                    oldLevel: set<int>, restLevel: set<int>, q: seq<(int, seq<int>)>, visited: set<int>)
    requires L >= 1 && visited == seen + {cur}
    requires Ball(m, s, L - 2) <= seen && Ball(m, s, L - 1) <= seen + oldLevel
    requires oldLevel <= {cur} + restLevel && restLevel <= QLevel(q, L)
    requires q != []
    requires forall j :: 0 <= j < |q| ==> L <= |q[j].1| <= L + 1
    requires forall i, j :: 0 <= i <= j < |q| ==> |q[i].1| <= |q[j].1|
    requires Closure(m, e, visited, visited, q)
    ensures Ball(m, s, |q[0].1| - 2) <= visited
    ensures Ball(m, s, |q[0].1| - 1) <= visited + QLevel(q, |q[0].1|)
  {
    if |q[0].1| != L {
      forall x | x in q
        ensures |x.1| == L + 1
      {
        var j :| 0 <= j < |q| && q[j] == x;
      }
      assert QLevel(q, L) == {};
      NextLevel(m, s, e, q, visited, L);
    }
  }

  /** Once the queue holds only paths of `L + 1` vertices and everything
      within `L - 1` steps is visited, everything within `L` steps is visited
      or waiting. */
  lemma NextLevel(m: map<int, seq<int>>, s: int, e: int, q: seq<(int, seq<int>)>, visited: set<int>, L: int)
    requires L >= 1
    requires forall x :: x in q ==> |x.1| == L + 1
    requires Ball(m, s, L - 1) <= visited
    requires Closure(m, e, visited, visited, q)
    ensures Ball(m, s, L) <= visited + QLevel(q, L + 1)
  {
    assert QNodes(q) <= QLevel(q, L + 1);
    forall v | v in Ball(m, s, L)
      ensures v in visited + QLevel(q, L + 1)
    {
      if v !in Ball(m, s, L - 1) {
        var u :| u in Ball(m, s, L - 1) && u in m && v in m[u];
        assert v in visited || v in QNodes(q);
      }
    }
  }

  /** Expanding the head re-establishes the outer invariant. */
  lemma Expand(m: map<int, seq<int>>, s: int, e: int, qOld: seq<(int, seq<int>)>, seen: set<int>,
               q: seq<(int, seq<int>)>, visited: set<int>)
    requires SearchInv(m, s, e, qOld, seen) && qOld != []
    requires visited == seen + {qOld[0].0}
    requires ScanInv(m, s, e, qOld, seen, qOld[0].1, q, visited)
    requires Closure(m, e, {qOld[0].0}, visited, q)
    ensures SearchInv(m, s, e, q, visited)
  {
    ExpandShape(m, s, e, qOld, seen, q, visited);
    if q != [] {
      ExpandLayers(m, s, e, qOld, seen, q, visited);
    }
  }

  /** The path found when the target first appears is a shortest one. */
  lemma FoundIsShortest(m: map<int, seq<int>>, s: int, e: int, seen: set<int>, path: seq<int>, cur: int)
    requires IsWalkFrom(m, path, s, cur) && e in m[cur] && e in m
    requires s != e && e !in seen
    requires Ball(m, s, |path| - 2) <= seen
    requires forall w, n :: w in seen && w in m && n in m[w] ==> n != e
    ensures IsWalkFrom(m, path + [e], s, e)
    ensures forall p :: IsWalkFrom(m, p, s, e) ==> |path| + 1 <= |p|
  {
    var r := path + [e];
    assert forall i :: 0 <= i < |path| ==> r[i] == path[i];
    assert IsWalkFrom(m, r, s, e);
    assert e !in Ball(m, s, |path| - 1) by {
      if |path| > 1 {
        assert e !in Succ(m, Ball(m, s, |path| - 2));
      }
    }
    forall p | IsWalkFrom(m, p, s, e)
      ensures |path| + 1 <= |p|
    {
      WalkInBall(m, p, s, e);
      if |p| <= |path| {
        BallMono(m, s, |p| - 1, |path| - 1);
      }
    }
  }

  /** When the queue runs dry the visited set is closed, holds the start and
      misses the target, so no walk reaches the target. */
  lemma Exhausted(m: map<int, seq<int>>, s: int, e: int, visited: set<int>)
    requires SearchInv(m, s, e, [], visited)
    ensures forall p :: !IsWalkFrom(m, p, s, e)
  {
    assert ClosedUnder(m, visited);
    forall p | IsWalkFrom(m, p, s, e)
      ensures false
    {
      WalkInBall(m, p, s, e);
      ClosedContainsBall(m, s, visited, |p| - 1);
    }
  }

  /** The entries the neighbour loop appends for `nbrs`: each neighbour not
      yet visited, in list order, with `path` extended by it. */
  function Extensions(path: seq<int>, nbrs: seq<int>, visited: set<int>): (r: seq<(int, seq<int>)>) {
    if nbrs == [] then []
    else
      var nb := nbrs[|nbrs| - 1];
      Extensions(path, nbrs[..|nbrs| - 1], visited) + (if nb in visited then [] else [(nb, path + [nb])])
  }

  /** The appended entries are exactly the unvisited neighbours, each with
      the extended path. */
  lemma {:induction false} ExtensionsMembers(path: seq<int>, nbrs: seq<int>, visited: set<int>)
    ensures forall x :: x in Extensions(path, nbrs, visited) <==> x.0 in nbrs && x.0 !in visited && x.1 == path + [x.0]
  {
    if nbrs != [] {
      var t := nbrs[..|nbrs| - 1];
      assert nbrs == t + [nbrs[|nbrs| - 1]];
      ExtensionsMembers(path, t, visited);
    }
  }

  /** Scanning one more neighbour appends at most its own entry. */
  lemma ExtensionsStep(path: seq<int>, nbrs: seq<int>, i: int, visited: set<int>)
    requires 0 <= i < |nbrs|
    ensures Extensions(path, nbrs[..i + 1], visited)
         == Extensions(path, nbrs[..i], visited) + (if nbrs[i] in visited then [] else [(nbrs[i], path + [nbrs[i]])])
  {
    assert nbrs[..i + 1][..i] == nbrs[..i];
  }

  /** The inner loop of the search: appends every unvisited neighbour of
      `cur`, in list order, with its extended path, and stops as soon as a
      neighbour is the target. */
  method ScanNeighbours(g: Graph, s: int, e: int, ghost qOld: seq<(int, seq<int>)>, ghost seen: set<int>,
                        cur: int, path: seq<int>, queue0: seq<(int, seq<int>)>, visited: set<int>)
    returns (queue: seq<(int, seq<int>)>, found: bool)
    requires Valid(g) && TargetsKnown(g.following)
    requires IsWalkFrom(g.following, path, s, cur) && cur in visited
    requires ScanInv(g.following, s, e, qOld, seen, path, queue0, visited)
    ensures found ==> e in g.following[cur]
    ensures !found ==> queue == queue0 + Extensions(path, GetFollowing(g, cur), visited)
    ensures !found ==> ScanInv(g.following, s, e, qOld, seen, path, queue, visited)
    ensures !found ==> Closure(g.following, e, {cur}, visited, queue)
  {
    ghost var m := g.following;
    queue := queue0;
    var nbrs := GetFollowing(g, cur);
    var i := 0;
    assert nbrs[..0] == [];
    while i < |nbrs|
      invariant ScanState(m, s, e, qOld, seen, path, queue0, nbrs, i, visited, queue)
    {
      var nb := nbrs[i];
      if nb == e {
        return queue, true;
      }
      ghost var before := queue;
      if nb !in visited {
        queue := queue + [(nb, path + [nb])];
      }
      ScanStep(m, s, e, qOld, seen, path, queue0, cur, nbrs, i, visited, before, queue);
      i := i + 1;
    }
    assert nbrs[..i] == nbrs;
    return queue, false;
  }

  /** The invariant of the scan: the first `i` neighbours are not the target
      and are visited or waiting, and the queue is the old one followed by
      their extensions. */
  ghost predicate ScanState(m: map<int, seq<int>>, s: int, e: int, qOld: seq<(int, seq<int>)>, seen: set<int>,
                            path: seq<int>, queue0: seq<(int, seq<int>)>, nbrs: seq<int>, i: int,
                            visited: set<int>, queue: seq<(int, seq<int>)>) {
    && 0 <= i <= |nbrs|
    && ScanInv(m, s, e, qOld, seen, path, queue, visited)
    && (forall k :: 0 <= k < i ==> nbrs[k] != e && (nbrs[k] in visited || nbrs[k] in QNodes(queue)))
    && queue == queue0 + Extensions(path, nbrs[..i], visited)
  }

  /** Scanning neighbour `i`, which is not the target: queue it with the
      extended path unless visited. */
  lemma ScanStep(m: map<int, seq<int>>, s: int, e: int, qOld: seq<(int, seq<int>)>, seen: set<int>,
                 path: seq<int>, queue0: seq<(int, seq<int>)>, cur: int, nbrs: seq<int>, i: int,
                 visited: set<int>, before: seq<(int, seq<int>)>, queue: seq<(int, seq<int>)>)
    requires TargetsKnown(m) && cur in m && m[cur] == nbrs && IsWalkFrom(m, path, s, cur)
    requires ScanState(m, s, e, qOld, seen, path, queue0, nbrs, i, visited, before) && i < |nbrs| && nbrs[i] != e
    requires queue == if nbrs[i] !in visited then before + [(nbrs[i], path + [nbrs[i]])] else before
    ensures ScanState(m, s, e, qOld, seen, path, queue0, nbrs, i + 1, visited, queue)
  {
    var nb := nbrs[i];
    ExtensionsStep(path, nbrs, i, visited);
    if nb !in visited {
      ScanAppend(m, s, e, qOld, seen, path, before, visited, cur, nb);
    }
  }

  /** The initial queue holds just the start with the one-vertex path. */
  lemma InitialInv(m: map<int, seq<int>>, s: int, e: int)
    requires s in m && s != e
    ensures SearchInv(m, s, e, [(s, [s])], {})
  {
    assert IsWalkFrom(m, [s], s, s);
    assert QLevel([(s, [s])], 1) == {s};
    assert QNodes([(s, [s])]) == {s};
  }

  /** One round of the outer loop: dequeue the head and, unless it was
      visited already, visit it and scan its neighbours. A non-empty `found`
      is the path to return. */
  method SearchStep(g: Graph, s: int, e: int, queue0: seq<(int, seq<int>)>, visited0: set<int>)
    returns (queue: seq<(int, seq<int>)>, visited: set<int>, found: seq<int>)
    requires Valid(g) && TargetsKnown(g.following) && s != e
    requires queue0 != [] && SearchInv(g.following, s, e, queue0, visited0)
    ensures found != [] ==> IsWalkFrom(g.following, found, s, e)
    ensures found != [] ==> forall p :: IsWalkFrom(g.following, p, s, e) ==> |found| <= |p|
    ensures found == [] ==> SearchInv(g.following, s, e, queue, visited)
    ensures found == [] ==> visited0 <= visited && (visited0 < visited || |queue| < |queue0|)
  {
    ghost var m := g.following;
    var cur, path := queue0[0].0, queue0[0].1;
    Pop(m, s, e, queue0, visited0);
    queue := queue0[1..];
    if cur in visited0 {
      assert visited0 + {cur} == visited0;
      Expand(m, s, e, queue0, visited0, queue, visited0);
      return queue, visited0, [];
    }
    visited := visited0 + {cur};
    var hit;
    queue, hit := ScanNeighbours(g, s, e, queue0, visited0, cur, path, queue, visited);
    if hit {
      FoundIsShortest(m, s, e, visited0, path, cur);
      return queue, visited, path + [e];
    }
    Expand(m, s, e, queue0, visited0, queue, visited);
    found := [];
  }

  /** `shortest_path_bfs`: a shortest chain of follow edges from `s` to `e`,
      or `[]` when there is none (in particular when either id is unknown). */
  method ShortestPath(g: Graph, s: int, e: int) returns (r: seq<int>)
    requires Valid(g)
    ensures s !in g.following || e !in g.following ==> r == []
    ensures s in g.following && s == e ==> r == [s]
    ensures r != [] ==> IsWalkFrom(g.following, r, s, e)
    ensures r != [] ==> forall p :: IsWalkFrom(g.following, p, s, e) ==> |r| <= |p|
    ensures r == [] <==> forall p :: !IsWalkFrom(g.following, p, s, e)
  {
    if s !in g.following || e !in g.following {
      return [];
    }
    if s == e {
      assert IsWalkFrom(g.following, [s], s, s);
      return [s];
    }
    ghost var m := g.following;
    FollowingTargetsKnown(g);
    var visited: set<int> := {};
    var queue: seq<(int, seq<int>)> := [(s, [s])];
    InitialInv(m, s, e);
    while queue != []
      invariant SearchInv(m, s, e, queue, visited)
      decreases |m.Keys - visited|, |queue|
    {
      ghost var before := visited;
      var found;
      queue, visited, found := SearchStep(g, s, e, queue, visited);
      if found != [] {
        return found;
      }
      FewerUnvisited(m.Keys, before, visited);
    }
    Exhausted(m, s, e, visited);
    return [];
  }

  /** `get_degrees_of_separation`: the number of follow edges on a shortest
      chain, or -1 when `b` cannot be reached from `a`. */
  method DegreesOfSeparation(g: Graph, a: int, b: int) returns (d: int)
    requires Valid(g)
    ensures d >= -1
    ensures d == -1 <==> forall p :: !IsWalkFrom(g.following, p, a, b)
    ensures d >= 0 ==> exists p :: IsWalkFrom(g.following, p, a, b) && |p| == d + 1
    ensures d >= 0 ==> forall p :: IsWalkFrom(g.following, p, a, b) ==> d + 1 <= |p|
  {
    var path := ShortestPath(g, a, b);
    if path == [] {
      return -1;
    }
    return |path| - 1;
  }
}
