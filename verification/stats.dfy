/** `get_network_stats`: the number of users, the number of follow edges and
    the average per user. */
module Stats {
  import opened SeqUtil
  import opened SocialGraph

  /** The three figures the source reports. The average is the exact
      quotient; the source rounds it to two decimals. */
  datatype NetworkStats = NetworkStats(totalUsers: int, totalConnections: int, averageFollowers: real)

  /** The total length of the lists `m` holds for the users in `us`. */
  function SumLens(m: map<int, seq<int>>, us: seq<int>): (r: nat) {
    if us == [] then 0
    else SumLens(m, us[..|us| - 1]) + (if us[|us| - 1] in m then |m[us[|us| - 1]]| else 0)
  }

  /** The pairs (a, b) with `b` listed under `a`, for `a` in `us`. */
  ghost function Pairs(m: map<int, seq<int>>, us: seq<int>): set<(int, int)> {
    set a, b | a in us && a in m && b in m[a] :: (a, b)
  }

  /** The pairs listed under one user. */
  ghost function Out(a: int, bs: seq<int>): set<(int, int)> {
    set b | b in bs :: (a, b)
  }

  lemma {:induction false} OutCard(a: int, bs: seq<int>)
    requires NoDup(bs)
    ensures |Out(a, bs)| == |bs|
  {
    if bs != [] {
      var t, last := bs[..|bs| - 1], bs[|bs| - 1];
      assert bs == t + [last];
      assert NoDup(t);
      OutCard(a, t);
      assert Out(a, bs) == Out(a, t) + {(a, last)};
      assert (a, last) !in Out(a, t);
    }
  }

  /** With duplicate-free lists and users, the summed lengths count the
      pairs. */
  lemma {:induction false} PairsCount(m: map<int, seq<int>>, us: seq<int>)
    requires NoDup(us) && forall v :: v in m ==> NoDup(m[v])
    ensures SumLens(m, us) == |Pairs(m, us)|
  {
    if us != [] {
      var t, last := us[..|us| - 1], us[|us| - 1];
      assert us == t + [last];
      assert NoDup(t);
      PairsCount(m, t);
      if last in m {
        OutCard(last, m[last]);
        assert Pairs(m, us) == Pairs(m, t) + Out(last, m[last]);
        assert Pairs(m, t) !! Out(last, m[last]);
      } else {
        assert Pairs(m, us) == Pairs(m, t);
      }
    }
  }

  /** Every follow edge, as a pair (follower, followed). */
  ghost function EdgeSet(g: Graph): set<(int, int)> {
    set a, b | a in g.following && b in g.following[a] :: (a, b)
  }

  /** `get_network_stats`: the source counts the keys of the following map
      and sums the lengths of its lists. */
  function NetworkStatsOf(g: Graph): (st: NetworkStats)
    ensures st.totalUsers >= 0 && st.totalConnections >= 0
    ensures st.totalUsers == 0 ==> st.averageFollowers == 0.0
    ensures st.totalUsers > 0 ==> st.averageFollowers * st.totalUsers as real == st.totalConnections as real
  {
    var users := |g.following|;
    var connections := SumLens(g.following, g.users);
    NetworkStats(users, connections, if users > 0 then connections as real / users as real else 0.0)
  }

  /** In a valid graph the figures mean what their names say: the number of
      registered users, the number of follow edges, and, because every edge
      is listed once on each side, the same count again when summed over the
      follower lists. */
  lemma NetworkStatsSpec(g: Graph)
    requires Valid(g)
    ensures NetworkStatsOf(g).totalUsers == |g.users|
    ensures NetworkStatsOf(g).totalConnections == |EdgeSet(g)|
    ensures NetworkStatsOf(g).totalConnections == SumLens(g.followers, g.users)
  {
    NoDupCard(g.users);
    assert (set v | v in g.users) == g.following.Keys;
    PairsCount(g.following, g.users);
    assert Pairs(g.following, g.users) == EdgeSet(g);
    PairsCount(g.followers, g.users);
    FollowerPairs(g);
  }

  /** The follower lists hold the edges turned around. */
  lemma FollowerPairs(g: Graph)
    requires Valid(g)
    ensures |Pairs(g.followers, g.users)| == |EdgeSet(g)|
  {
    var E := EdgeSet(g);
    assert Pairs(g.followers, g.users) == Flip(E) by {
      forall e
        ensures e in Pairs(g.followers, g.users) <==> e in Flip(E)
      {
        var b, a := e.0, e.1;
        if e in Pairs(g.followers, g.users) {
          assert FollowerRecorded(g, b, a);
          assert (a, b) in E;
        }
        if e in Flip(E) {
          var d :| d in E && e == (d.1, d.0);
          assert Edge(g, a, b);
          EdgeEndsRegistered(g, a, b);
          assert FollowerRecorded(g, b, a);
        }
      }
    }
    FlipCard(E);
  }

  ghost function Flip(E: set<(int, int)>): set<(int, int)> {
    set e | e in E :: (e.1, e.0)
  }

  lemma FlipCard(E: set<(int, int)>)
    ensures |Flip(E)| == |E|
    decreases |E|
  {
    if E != {} {
      var e :| e in E;
      FlipCard(E - {e});
      assert Flip(E) == Flip(E - {e}) + {(e.1, e.0)};
    }
  }
}
