/** `suggest_users_to_follow`: friends of friends, scored by how many of the
    user's followees follow them, plus a small weight for popularity.

    The source's score is `count + 0.1 * followers` as a float; here it is
    scaled by ten to the integer `10 * count + followers`, which orders the
    candidates the same way, except that float rounding can break ties
    between equal scaled scores. */
module Suggestions {
  import opened SeqUtil
  import opened SocialGraph
  import opened Ranking

  /** The followees of `u` who follow `p`. */
  ghost function Via(g: Graph, u: int, p: int): set<int> {
    set f | f in GetFollowing(g, u) && Edge(g, f, p)
  }

  /** How many of `u`'s followees follow `p`. */
  ghost function TwoHop(g: Graph, u: int, p: int): int {
    |Via(g, u, p)|
  }

  /** `p` may be suggested to `u`: it is neither `u` nor already followed. */
  predicate Eligible(g: Graph, u: int, p: int) {
    p != u && !Edge(g, u, p)
  }

  /** The users the source suggests before cutting: eligible users followed
      by at least one of `u`'s followees. */
  ghost function Candidates(g: Graph, u: int): set<int> {
    set p | p in g.following && Eligible(g, u, p) && TwoHop(g, u, p) >= 1
  }

  /** The scaled score: ten per followee of `u` following `p`, plus one per
      follower of `p`. */
  ghost function Score(g: Graph, u: int, p: int): int {
    10 * TwoHop(g, u, p) + |GetFollowers(g, p)|
  }

  /** The number of users in `fs` following `p`, counted along the list. */
  function CountVia(g: Graph, fs: seq<int>, p: int): (r: nat) {
    if fs == [] then 0
    else CountVia(g, fs[..|fs| - 1], p) + (if Edge(g, fs[|fs| - 1], p) then 1 else 0)
  }

  /** On a duplicate-free list, counting along it counts the set. */
  lemma {:induction false} CountViaCard(g: Graph, fs: seq<int>, p: int)
    requires NoDup(fs)
    ensures CountVia(g, fs, p) == |set f | f in fs && Edge(g, f, p)|
  {
    if fs != [] {
      var t, last := fs[..|fs| - 1], fs[|fs| - 1];
      assert fs == t + [last];
      assert NoDup(t);
      CountViaCard(g, t, p);
      var before := set f | f in t && Edge(g, f, p);
      var after := set f | f in fs && Edge(g, f, p);
      if Edge(g, last, p) {
        assert after == before + {last};
        assert last !in before;
      } else {
        assert after == before;
      }
    }
  }

  /** The state after scanning the first `i` followees of `u`: `counts` maps
      each eligible user followed by one of them to how many, and `order`
      lists the same users, each once. */
  ghost predicate TallyInv(g: Graph, u: int, F: seq<int>, i: int, counts: map<int, int>, order: seq<int>) {
    && 0 <= i <= |F|
    && NoDup(order)
    && (forall p :: p in counts <==> p in order)
    && (forall p :: p in counts <==> p != u && p !in F && CountVia(g, F[..i], p) >= 1)
    && (forall p :: p in counts ==> counts[p] == CountVia(g, F[..i], p))
  }

  /** The inner loop of the tally: one more followee `F[i]`, whose own
      followees each gain one count when eligible. */
  method TallyOne(g: Graph, u: int, F: seq<int>, i: int, counts0: map<int, int>, order0: seq<int>)
    returns (counts: map<int, int>, order: seq<int>)
    requires Valid(g) && F == GetFollowing(g, u)
    requires TallyInv(g, u, F, i, counts0, order0) && i < |F|
    ensures TallyInv(g, u, F, i + 1, counts, order)
  {
    var f := F[i];
    var fs := GetFollowing(g, f);
    counts, order := counts0, order0;
    var j := 0;
    while j < |fs|
      invariant 0 <= j <= |fs|
      invariant NoDup(order)
      invariant forall p :: p in counts <==> p in order
      invariant forall p :: p in counts <==> p != u && p !in F && (CountVia(g, F[..i], p) >= 1 || p in fs[..j])
      invariant forall p :: p in counts ==> counts[p] == CountVia(g, F[..i], p) + (if p in fs[..j] then 1 else 0)
    {
      var p := fs[j];
      assert fs[..j + 1] == fs[..j] + [p];
      assert forall k :: 0 <= k < j ==> fs[..j][k] != p;
      if p != u && p !in F {
        if p in counts {
          counts := counts[p := counts[p] + 1];
        } else {
          AppendNoDup(order, p);
          counts := counts[p := 1];
          order := order + [p];
        }
      }
      j := j + 1;
    }
    assert fs[..j] == fs;
    TallyClose(g, u, F, i, fs, counts, order);
  }

  /** Finishing the scan of `F[i]`'s followees completes the tally of the
      first `i + 1` followees. */
  lemma TallyClose(g: Graph, u: int, F: seq<int>, i: int, fs: seq<int>, counts: map<int, int>, order: seq<int>)
    requires 0 <= i < |F| && forall p :: p in fs <==> Edge(g, F[i], p)
    requires NoDup(order) && forall p :: p in counts <==> p in order
    requires forall p :: p in counts <==> p != u && p !in F && (CountVia(g, F[..i], p) >= 1 || p in fs)
    requires forall p :: p in counts ==> counts[p] == CountVia(g, F[..i], p) + (if p in fs then 1 else 0)
    ensures TallyInv(g, u, F, i + 1, counts, order)
  {
    var F' := F[..i + 1];
    assert F'[..|F'| - 1] == F[..i] && F'[|F'| - 1] == F[i];
    forall p
      ensures CountVia(g, F', p) == CountVia(g, F[..i], p) + (if p in fs then 1 else 0)
    {
    }
  }

  lemma AppendNoDup(s: seq<int>, x: int)
    requires NoDup(s) && x !in s
    ensures NoDup(s + [x])
  {
  }

  /** The tally of the source's nested loops: every eligible user followed
      by a followee of `u`, each listed once, with its count. */
  method Tally(g: Graph, u: int) returns (counts: map<int, int>, order: seq<int>)
    requires Valid(g)
    ensures NoDup(order) && forall p :: p in counts <==> p in order
    ensures forall k :: 0 <= k < |order| ==> order[k] in counts
    ensures forall p :: p in counts <==> p in Candidates(g, u)
    ensures forall p :: p in counts ==> counts[p] == TwoHop(g, u, p)
  {
    var F := GetFollowing(g, u);
    counts, order := map[], [];
    var i := 0;
    while i < |F|
      invariant TallyInv(g, u, F, i, counts, order)
    {
      counts, order := TallyOne(g, u, F, i, counts, order);
      i := i + 1;
    }
    assert F[..i] == F;
    assert forall k :: 0 <= k < |order| ==> order[k] in order;
    forall p
      ensures CountVia(g, F, p) == TwoHop(g, u, p)
      ensures p in counts <==> p in Candidates(g, u)
    {
      CountViaCard(g, F, p);
      assert (set f | f in F && Edge(g, f, p)) == Via(g, u, p);
      if p in counts {
        var f :| f in Via(g, u, p);
        EdgeEndsRegistered(g, f, p);
      }
    }
  }

  /** The source's second loop: each tallied user with its count scaled by
      ten plus its number of followers, in tally order. */
  function Scored(g: Graph, counts: map<int, int>, order: seq<int>): (r: seq<Entry>)
    requires forall k :: 0 <= k < |order| ==> order[k] in counts
  {
    seq(|order|, k requires 0 <= k < |order| => (order[k], 10 * counts[order[k]] + |GetFollowers(g, order[k])|))
  }

  /** Scoring the tally of `u` gives every tallied user its scaled score. */
  lemma ScoredScores(g: Graph, u: int, counts: map<int, int>, order: seq<int>)
    requires forall k :: 0 <= k < |order| ==> order[k] in counts
    requires forall p :: p in counts ==> counts[p] == TwoHop(g, u, p)
    ensures |Scored(g, counts, order)| == |order|
    ensures forall k :: 0 <= k < |order| ==> Scored(g, counts, order)[k] == (order[k], Score(g, u, order[k]))
  {
  }

  /** `suggest_users_to_follow`: the candidates with their scaled scores,
      highest first, cut to `limit`. */
  method SuggestUsers(g: Graph, u: int, limit: int) returns (r: seq<Entry>)
    requires Valid(g)
    ensures SortedDesc(r) && DistinctIds(r)
    ensures forall x :: x in r ==> x.0 in Candidates(g, u) && x.1 == Score(g, u, x.0)
    ensures forall x, p :: x in r && p in Candidates(g, u) && (forall y :: y in r ==> y.0 != p) ==> Score(g, u, p) <= x.1
    ensures limit >= 0 ==> |r| == if limit < |Candidates(g, u)| then limit else |Candidates(g, u)|
  {
    var counts, order := Tally(g, u);
    var items := Scored(g, counts, order);
    r := Rank(items, limit);
    ScoredEntries(g, u, counts, order);
    RankedSuggestions(g, u, items, limit);
  }

  /** The ranking of the scored tally keeps the promises of
      `suggest_users_to_follow`. */
  lemma RankedSuggestions(g: Graph, u: int, items: seq<Entry>, limit: int)
    requires DistinctIds(items)
    requires forall x :: x in items <==> x.0 in ScoreTable(g, u) && x.1 == ScoreTable(g, u)[x.0]
    ensures var r := Rank(items, limit);
      DistinctIds(r) && forall x :: x in r ==> x.0 in Candidates(g, u) && x.1 == Score(g, u, x.0)
    ensures var r := Rank(items, limit);
      forall x, p :: x in r && p in Candidates(g, u) && (forall y :: y in r ==> y.0 != p) ==> Score(g, u, p) <= x.1
    ensures var r, n := Rank(items, limit), |Candidates(g, u)|;
      limit >= 0 ==> |r| == if limit < n then limit else n
  {
    RankTable(items, ScoreTable(g, u), limit);
    assert ScoreTable(g, u).Keys == Candidates(g, u);
  }

  /** Each candidate with its scaled score. */
  ghost function ScoreTable(g: Graph, u: int): map<int, int> {
    map p | p in Candidates(g, u) :: Score(g, u, p)
  }

  /** The scored list names every candidate once, with its score. */
  lemma ScoredEntries(g: Graph, u: int, counts: map<int, int>, order: seq<int>)
    requires NoDup(order) && forall p :: p in counts <==> p in order
    requires forall k :: 0 <= k < |order| ==> order[k] in counts
    requires forall p :: p in counts <==> p in Candidates(g, u)
    requires forall p :: p in counts ==> counts[p] == TwoHop(g, u, p)
    ensures DistinctIds(Scored(g, counts, order))
    ensures forall x :: x in Scored(g, counts, order) <==> x.0 in ScoreTable(g, u) && x.1 == ScoreTable(g, u)[x.0]
  {
    var items := Scored(g, counts, order);
    var m := ScoreTable(g, u);
    forall x: Entry | x.0 in m && x.1 == m[x.0]
      ensures x in items
    {
      var k :| 0 <= k < |order| && order[k] == x.0;
      assert items[k] == x;
    }
  }

  /** A suggestion never names `u` or a user `u` already follows, and always
      one that a followee of `u` follows. */
  lemma CandidateShape(g: Graph, u: int, p: int)
    requires Valid(g) && p in Candidates(g, u)
    ensures p != u && !IsFollowing(g, u, p)
    ensures exists f :: IsFollowing(g, u, f) && IsFollowing(g, f, p)
  {
    var f :| f in Via(g, u, p);
    assert IsFollowing(g, u, f) && IsFollowing(g, f, p);
  }
}
