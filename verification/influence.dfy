/** `get_influencers` and `get_popular_in_network`: users ranked by their
    number of followers. */
module Influence {
  import opened SeqUtil
  import opened SocialGraph
  import opened Ranking

  /** Pairs each listed user with the length of its follower list. */
  function FollowerCounts(g: Graph, us: seq<int>): (r: seq<Entry>) {
    seq(|us|, i requires 0 <= i < |us| => (us[i], |GetFollowers(g, us[i])|))
  }

  /** In a valid graph the counts are the in-degrees: position `i` holds
      `us[i]` with the number of users following it. */
  lemma FollowerCountsInDegree(g: Graph, us: seq<int>)
    requires Valid(g)
    ensures |FollowerCounts(g, us)| == |us|
    ensures forall i :: 0 <= i < |us| ==> FollowerCounts(g, us)[i] == (us[i], InDegree(g, us[i]))
  {
    forall i | 0 <= i < |us|
      ensures FollowerCounts(g, us)[i] == (us[i], InDegree(g, us[i]))
    {
      FollowerCountIsInDegree(g, us[i]);
    }
  }

  /** The entries are exactly the listed users with their follower counts,
      and a duplicate-free list gives distinct ids. */
  lemma FollowerCountsMembers(g: Graph, us: seq<int>)
    ensures forall x :: x in FollowerCounts(g, us) <==> x.0 in us && x.1 == |GetFollowers(g, x.0)|
    ensures NoDup(us) ==> DistinctIds(FollowerCounts(g, us))
  {
    var r := FollowerCounts(g, us);
    forall x: Entry | x.0 in us && x.1 == |GetFollowers(g, x.0)|
      ensures x in r
    {
      var i :| 0 <= i < |us| && us[i] == x.0;
      assert r[i] == x;
    }
  }

  /** The number of users following `v`, counted on the follow edges. */
  ghost function InDegree(g: Graph, v: int): int {
    |set a | a in g.following && v in g.following[a]|
  }

  /** In a valid graph a follower list is as long as the in-degree. */
  lemma FollowerCountIsInDegree(g: Graph, v: int)
    requires Valid(g)
    ensures |GetFollowers(g, v)| == InDegree(g, v)
  {
    var fs := GetFollowers(g, v);
    NoDupCard(fs);
    assert (set a | a in fs) == (set a | a in g.following && v in g.following[a]) by {
      forall a
        ensures a in fs <==> a in g.following && v in g.following[a]
      {
        FollowingFollowersDual(g, a, v);
      }
    }
  }

  /** `get_influencers`: the registered users with at least `minFollowers`
      followers, most followed first, cut to `limit`. The source walks the
      follower map in insertion order, which is the order of `g.users`. */
  function Influencers(g: Graph, minFollowers: int, limit: int): (r: seq<Entry>)
    ensures SortedDesc(r)
  {
    Rank(AtLeast(FollowerCounts(g, g.users), minFollowers), limit)
  }

  /** The users that qualify as influencers. */
  ghost function Qualifying(g: Graph, minFollowers: int): set<int> {
    set v | v in g.following && |GetFollowers(g, v)| >= minFollowers
  }

  /** Each qualifying user with its follower count. */
  ghost function InfluenceTable(g: Graph, minFollowers: int): map<int, int> {
    map v | v in Qualifying(g, minFollowers) :: |GetFollowers(g, v)|
  }

  /** The filtered counts list every qualifying user once, with its count. */
  lemma QualifyingEntries(g: Graph, minFollowers: int)
    requires Valid(g)
    ensures var s, m := AtLeast(FollowerCounts(g, g.users), minFollowers), InfluenceTable(g, minFollowers);
      DistinctIds(s) && forall x :: x in s <==> x.0 in m && x.1 == m[x.0]
  {
    FollowerCountsMembers(g, g.users);
    AtLeastDistinct(FollowerCounts(g, g.users), minFollowers);
  }

  /** What the influencer list promises: qualifying users with their true
      follower counts, each once; no qualifying user left out has more
      followers than a listed one; and it is as long as the limit and the
      number of qualifying users allow. */
  lemma InfluencersSpec(g: Graph, minFollowers: int, limit: int)
    requires Valid(g)
    ensures var r := Influencers(g, minFollowers, limit);
      DistinctIds(r) && forall x :: x in r ==> x.0 in Qualifying(g, minFollowers) && x.1 == |GetFollowers(g, x.0)|
    ensures var r := Influencers(g, minFollowers, limit);
      forall x, v :: x in r && v in Qualifying(g, minFollowers) && (forall y :: y in r ==> y.0 != v) ==>
        |GetFollowers(g, v)| <= x.1
    ensures var r, q := Influencers(g, minFollowers, limit), Qualifying(g, minFollowers);
      limit >= 0 ==> |r| == if limit < |q| then limit else |q|
  {
    QualifyingEntries(g, minFollowers);
    RankTable(AtLeast(FollowerCounts(g, g.users), minFollowers), InfluenceTable(g, minFollowers), limit);
    assert InfluenceTable(g, minFollowers).Keys == Qualifying(g, minFollowers);
  }

  /** Raising the follower threshold only cuts influencers off the end. */
  lemma InfluencersRaise(g: Graph, k1: int, k2: int, limit: int)
    requires k1 <= k2
    ensures |Influencers(g, k2, limit)| <= |Influencers(g, k1, limit)|
    ensures Influencers(g, k2, limit) == Influencers(g, k1, limit)[..|Influencers(g, k2, limit)|]
  {
    RankRaise(FollowerCounts(g, g.users), k1, k2, limit);
  }

  /** `get_popular_in_network`: the users `u` follows, most followed first,
      cut to `limit`; empty for an unknown user. */
  function PopularInNetwork(g: Graph, u: int, limit: int): (r: seq<Entry>)
    ensures SortedDesc(r)
    ensures u !in g.following ==> r == []
  {
    Rank(FollowerCounts(g, GetFollowing(g, u)), limit)
  }

  /** Each followee of `u` with its follower count. */
  ghost function PopularTable(g: Graph, u: int): map<int, int> {
    map v | v in GetFollowing(g, u) :: |GetFollowers(g, v)|
  }

  /** The counts of `u`'s followees list each of them once, with its count. */
  lemma PopularEntries(g: Graph, u: int)
    requires Valid(g)
    ensures var s, m := FollowerCounts(g, GetFollowing(g, u)), PopularTable(g, u);
      DistinctIds(s) && forall x :: x in s <==> x.0 in m && x.1 == m[x.0]
    ensures |PopularTable(g, u)| == |GetFollowing(g, u)|
  {
    var fs := GetFollowing(g, u);
    FollowerCountsMembers(g, fs);
    assert PopularTable(g, u).Keys == set v | v in fs;
    NoDupCard(fs);
  }

  /** What the popular-in-network list promises: followees of `u` with their
      true follower counts, each once; no followee left out has more
      followers than a listed one; and it is as long as the limit and the
      number of followees allow. */
  lemma PopularSpec(g: Graph, u: int, limit: int)
    requires Valid(g)
    ensures var r := PopularInNetwork(g, u, limit);
      DistinctIds(r) && forall x :: x in r ==> Edge(g, u, x.0) && x.1 == |GetFollowers(g, x.0)|
    ensures var r := PopularInNetwork(g, u, limit);
      forall x, v :: x in r && Edge(g, u, v) && (forall y :: y in r ==> y.0 != v) ==> |GetFollowers(g, v)| <= x.1
    ensures var r, n := PopularInNetwork(g, u, limit), |GetFollowing(g, u)|;
      limit >= 0 ==> |r| == if limit < n then limit else n
  {
    PopularEntries(g, u);
    var m := PopularTable(g, u);
    assert forall v :: v in m <==> Edge(g, u, v);
    RankTable(FollowerCounts(g, GetFollowing(g, u)), m, limit);
  }
}
