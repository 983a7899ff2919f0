/** Walks and bounded neighbourhoods over an adjacency map, the reference
    notions against which the two breadth-first searches are specified. */
module Reach {

  /** `p` is a walk along `m`: every vertex has an entry and each step
      follows a listed edge. */
  predicate IsWalk(m: map<int, seq<int>>, p: seq<int>) {
    && |p| > 0
    && (forall i :: 0 <= i < |p| ==> p[i] in m)
    && (forall i :: 0 <= i < |p| - 1 ==> p[i] in m && p[i + 1] in m[p[i]])
  }

  /** A walk from `s` to `v`. */
  predicate IsWalkFrom(m: map<int, seq<int>>, p: seq<int>, s: int, v: int) {
    IsWalk(m, p) && p[0] == s && p[|p| - 1] == v
  }

  /** Every listed neighbour has an entry of its own. */
  ghost predicate TargetsKnown(m: map<int, seq<int>>) {
    forall u, v :: u in m && v in m[u] ==> v in m
  }

  /** No edge of `m` leaves `V`. */
  ghost predicate ClosedUnder(m: map<int, seq<int>>, V: set<int>) {
    forall w, n :: w in V && w in m && n in m[w] ==> n in V
  }

  /** The vertices one step away from `B`. */
  ghost function Succ(m: map<int, seq<int>>, B: set<int>): set<int> {
    set u, v | u in B && u in m && v in m[u] :: v
  }

  /** The vertices within `k` steps of `s` (empty for negative `k`). */
  ghost function Ball(m: map<int, seq<int>>, s: int, k: int): set<int>
    decreases k
  {
    if k < 0 then {}
    else if k == 0 then {s}
    else Ball(m, s, k - 1) + Succ(m, Ball(m, s, k - 1))
  }

  lemma {:induction false} BallMono(m: map<int, seq<int>>, s: int, j: int, k: int)
    requires j <= k
    ensures Ball(m, s, j) <= Ball(m, s, k)
    decreases k - j
  {
    if j < k {
      BallMono(m, s, j, k - 1);
    }
  }

  /** The end of a walk of `n` vertices lies within `n - 1` steps. */
  lemma {:induction false} WalkInBall(m: map<int, seq<int>>, p: seq<int>, s: int, v: int)
    requires IsWalkFrom(m, p, s, v)
    ensures v in Ball(m, s, |p| - 1)
    decreases |p|
  {
    if |p| > 1 {
      var q := p[..|p| - 1];
      assert IsWalkFrom(m, q, s, p[|p| - 2]);
      WalkInBall(m, q, s, p[|p| - 2]);
      assert p[|p| - 2] in m && v in m[p[|p| - 2]];
    }
  }

  /** Conversely, every vertex within `k` steps ends a walk of at most
      `k + 1` vertices. */
  lemma {:induction false} BallHasWalk(m: map<int, seq<int>>, s: int, k: int, v: int)
    requires s in m && TargetsKnown(m) && v in Ball(m, s, k)
    ensures exists p :: IsWalkFrom(m, p, s, v) && |p| <= k + 1
    decreases k
  {
    if k == 0 {
      assert IsWalkFrom(m, [s], s, v);
    } else if v in Ball(m, s, k - 1) {
      BallHasWalk(m, s, k - 1, v);
    } else {
      var u :| u in Ball(m, s, k - 1) && u in m && v in m[u];
      BallHasWalk(m, s, k - 1, u);
      var p :| IsWalkFrom(m, p, s, u) && |p| <= k;
      WalkExtend(m, p, s, u, v);
    }
  }

  /** A walk to `u` continues along an edge of `u` to a known vertex. */
  lemma WalkExtend(m: map<int, seq<int>>, p: seq<int>, s: int, u: int, v: int)
    requires IsWalkFrom(m, p, s, u) && u in m && v in m[u] && v in m
    ensures IsWalkFrom(m, p + [v], s, v) && |p + [v]| == |p| + 1
  {
    var p' := p + [v];
    assert forall i :: 0 <= i < |p| ==> p'[i] == p[i];
  }

  /** A closed set holding `s` holds every ball around `s`. */
  lemma {:induction false} ClosedContainsBall(m: map<int, seq<int>>, s: int, V: set<int>, k: int)
    requires s in V && ClosedUnder(m, V)
    ensures Ball(m, s, k) <= V
    decreases k
  {
    if k > 0 {
      ClosedContainsBall(m, s, V, k - 1);
    }
  }

  /** When no edge leads to an unknown vertex, a ball around a known vertex
      holds only known vertices. */
  lemma BallInKeys(m: map<int, seq<int>>, s: int, k: int)
    requires s in m && TargetsKnown(m)
    ensures Ball(m, s, k) <= m.Keys
  {
    assert ClosedUnder(m, m.Keys);
    ClosedContainsBall(m, s, m.Keys, k);
  }

  /** One more step out of the ball of radius `k - 1`. */
  lemma BallStep(m: map<int, seq<int>>, s: int, k: int, u: int, v: int)
    requires k >= 1 && u in Ball(m, s, k - 1) && u in m && v in m[u]
    ensures v in Ball(m, s, k)
  {
  }

  /** The users waiting in a search queue, whatever each entry carries
      besides its user. */
  ghost function QNodes<T>(q: seq<(int, T)>): set<int> {
    set x | x in q :: x.0
  }

  lemma QNodesAppend<T>(q: seq<(int, T)>, x: (int, T))
    ensures QNodes(q + [x]) == QNodes(q) + {x.0}
  {
    assert forall y :: y in q + [x] <==> y in q || y == x;
  }

  /** Visiting a new user leaves fewer unvisited ones. */
  lemma FewerUnvisited(keys: set<int>, before: set<int>, after: set<int>)
    requires before <= after <= keys
    ensures |keys - after| <= |keys - before|
    ensures before < after ==> |keys - after| < |keys - before|
  {
    assert keys - before == (keys - after) + (after - before);
    assert (keys - after) !! (after - before);
  }
}
