/** The follow graph of graph.py: a directed graph over integer user ids kept
    as two adjacency maps that are duals of one edge set, with the three
    mutations and the adjacency queries. */
module SocialGraph {
  import opened SeqUtil

  /** `following[u]` lists whom `u` follows and `followers[u]` who follows `u`,
      each in the order the edges were added. `users` records the order in
      which ids were registered, which is the key order of both Python dicts
      (a user is always inserted into both at once). */
  datatype Graph = Graph(users: seq<int>, following: map<int, seq<int>>, followers: map<int, seq<int>>)

  /** The follow edge `a -> b` exists (read from the forward map). */
  predicate Edge(g: Graph, a: int, b: int) {
    a in g.following && b in g.following[a]
  }

  /** `b`'s followers list records `a` (read from the reverse map). */
  predicate FollowerRecorded(g: Graph, b: int, a: int) {
    b in g.followers && a in g.followers[b]
  }

  /** The invariant every method of the class keeps: both maps and the
      registration list name the same users, no list holds a duplicate, and
      the two maps are exact duals of one edge set. */
  ghost predicate Valid(g: Graph) {
    && NoDup(g.users)
    && (forall u :: u in g.users <==> u in g.following)
    && g.following.Keys == g.followers.Keys
    && (forall u :: u in g.following ==> NoDup(g.following[u]) && NoDup(g.followers[u]))
    && (forall a, b :: Edge(g, a, b) <==> FollowerRecorded(g, b, a))
  }

  /** Every endpoint of an edge is registered. */
  lemma EdgeEndsRegistered(g: Graph, a: int, b: int)
    requires Valid(g) && Edge(g, a, b)
    ensures a in g.following && b in g.following && b in g.followers
  {
    assert FollowerRecorded(g, b, a);
  }

  /** The freshly constructed graph (`__init__`). */
  function Empty(): (g: Graph)
    ensures Valid(g)
    ensures forall u :: u !in g.following && u !in g.followers
  {
    Graph([], map[], map[])
  }

  // ---------------------------------------------------------------------
  // Mutations
  // ---------------------------------------------------------------------

  /** `add_user`: registers `u` with empty lists unless it is already known. */
  function AddUser(g: Graph, u: int): (r: Graph)
    ensures r.following.Keys == g.following.Keys + {u}
    ensures forall v :: v in g.following ==> v in r.following && r.following[v] == g.following[v]
    ensures forall v :: v in g.followers && v != u ==> v in r.followers && r.followers[v] == g.followers[v]
    ensures u in g.following ==> r == g
    ensures u !in g.following ==> u in r.followers && r.following[u] == [] && r.followers[u] == [] && r.users == g.users + [u]
    ensures Valid(g) ==> Valid(r) && forall a, b :: Edge(r, a, b) <==> Edge(g, a, b)
  {
    if u !in g.following then
      var r := Graph(g.users + [u], g.following[u := []], g.followers[u := []]);
      AddUserKeepsValid(g, u, r);
      r
    else
      g
  }

  lemma AddUserKeepsValid(g: Graph, u: int, r: Graph)
    requires u !in g.following
    requires r == Graph(g.users + [u], g.following[u := []], g.followers[u := []])
    ensures Valid(g) ==> Valid(r) && forall a, b :: Edge(r, a, b) <==> Edge(g, a, b)
  {
    if Valid(g) {
      assert u !in g.followers && u !in g.users;
      forall a, b
        ensures Edge(r, a, b) <==> Edge(g, a, b)
        ensures FollowerRecorded(r, b, a) <==> FollowerRecorded(g, b, a)
      {
      }
      forall i, j | 0 <= i < j < |r.users|
        ensures r.users[i] != r.users[j]
      {
        if j == |g.users| {
          assert r.users[i] == g.users[i];
        } else {
          assert r.users[i] == g.users[i] && r.users[j] == g.users[j];
        }
      }
    }
  }

  /** Registering twice is registering once. */
  lemma AddUserIdempotent(g: Graph, u: int)
    ensures AddUser(AddUser(g, u), u) == AddUser(g, u)
  {
  }

  /** `follow_user`: registers both endpoints, then appends the edge to both
      lists unless it is already present. */
  function Follow(g: Graph, a: int, b: int): (r: Graph)
    requires Valid(g)
    ensures Valid(r)
  {
    // `add_user` already skips known ids, so the source's two guards are
    // folded into it.
    var g2 := AddUser(AddUser(g, a), b);
    RegisterBoth(g, a, b);
    if b !in g2.following[a] then
      var r := Graph(g2.users, g2.following[a := g2.following[a] + [b]], g2.followers[b := g2.followers[b] + [a]]);
      FollowKeepsValid(g2, a, b, r);
      r
    else
      g2
  }

  /** Following adds exactly the edge `a -> b` and registers both ends. */
  lemma FollowEdges(g: Graph, a: int, b: int)
    requires Valid(g)
    ensures Follow(g, a, b).following.Keys == g.following.Keys + {a, b}
    ensures forall x, y :: Edge(Follow(g, a, b), x, y) <==> Edge(g, x, y) || (x == a && y == b)
  {
    RegisterBoth(g, a, b);
    var g2 := AddUser(AddUser(g, a), b);
    if b !in g2.following[a] {
      var r := Graph(g2.users, g2.following[a := g2.following[a] + [b]], g2.followers[b := g2.followers[b] + [a]]);
      FollowKeepsValid(g2, a, b, r);
    }
  }

  /** An existing edge makes `follow_user` a no-op; a new one is appended at
      the end of both lists, and every other list is the one left by
      registering the endpoints. */
  lemma FollowAppends(g: Graph, a: int, b: int)
    requires Valid(g)
    ensures Edge(g, a, b) ==> Follow(g, a, b) == g
    ensures !Edge(g, a, b) ==>
              && Follow(g, a, b).following[a] == GetFollowing(g, a) + [b]
              && Follow(g, a, b).followers[b] == GetFollowers(g, b) + [a]
    ensures var g2 := AddUser(AddUser(g, a), b);
      !Edge(g, a, b) ==>
        Follow(g, a, b) == Graph(g2.users, g2.following[a := g2.following[a] + [b]],
                                 g2.followers[b := g2.followers[b] + [a]])
  {
    RegisterBoth(g, a, b);
  }

  /** Registering both endpoints keeps the invariant and every edge, and
      leaves `a`'s following list and `b`'s follower list as they were. */
  lemma RegisterBoth(g: Graph, a: int, b: int)
    requires Valid(g)
    ensures var g2 := AddUser(AddUser(g, a), b);
      && Valid(g2) && a in g2.following && b in g2.following
      && g2.following.Keys == g.following.Keys + {a, b}
      && (forall x, y :: Edge(g2, x, y) <==> Edge(g, x, y))
      && g2.following[a] == GetFollowing(g, a) && g2.followers[b] == GetFollowers(g, b)
  {
    var g1 := AddUser(g, a);
    var g2 := AddUser(g1, b);
    assert Valid(g1) && Valid(g2);
    if b !in g.following {
      assert b !in g.followers;
    }
    if a !in g.following {
      assert a !in g.followers;
    }
  }

  /** Registering both endpoints leaves every list of an already-known user
      as it was, gives the new ids empty lists and appends them to the
      registration order. */
  lemma RegisterFrame(g: Graph, a: int, b: int)
    requires Valid(g)
    ensures var g2 := AddUser(AddUser(g, a), b);
      forall v :: v in g.following ==> g2.following[v] == g.following[v] && g2.followers[v] == g.followers[v]
    ensures var g2 := AddUser(AddUser(g, a), b);
      forall v :: v in g2.following && v !in g.following ==> g2.following[v] == [] && g2.followers[v] == []
    ensures var g2 := AddUser(AddUser(g, a), b);
      g2.users == g.users + (if a in g.following then [] else [a])
                          + (if b in g.following || b == a then [] else [b])
  {
    assert g.followers.Keys == g.following.Keys;
    var g1 := AddUser(g, a);
    assert g1.followers.Keys == g1.following.Keys;
    assert g1.users == g.users + (if a in g.following then [] else [a]);
    var g2 := AddUser(g1, b);
    assert g2.users == g1.users + (if b in g1.following then [] else [b]);
    assert b in g1.following <==> b in g.following || b == a;
  }

  lemma FollowKeepsValid(g: Graph, a: int, b: int, r: Graph)
    requires Valid(g) && a in g.following && b in g.following && !Edge(g, a, b)
    requires r == Graph(g.users, g.following[a := g.following[a] + [b]], g.followers[b := g.followers[b] + [a]])
    ensures Valid(r)
    ensures forall x, y :: Edge(r, x, y) <==> Edge(g, x, y) || (x == a && y == b)
  {
    assert !FollowerRecorded(g, b, a);
    forall u | u in r.following
      ensures NoDup(r.following[u]) && NoDup(r.followers[u])
    {
      assert NoDup(g.following[u]) && NoDup(g.followers[u]);
    }
    forall x, y
      ensures Edge(r, x, y) <==> FollowerRecorded(r, y, x)
    {
      assert Edge(r, x, y) <==> Edge(g, x, y) || (x == a && y == b);
      assert FollowerRecorded(r, y, x) <==> FollowerRecorded(g, y, x) || (x == a && y == b);
    }
  }

  /** Following an already-followed user changes nothing. */
  lemma FollowIdempotent(g: Graph, a: int, b: int)
    requires Valid(g)
    ensures Follow(Follow(g, a, b), a, b) == Follow(g, a, b)
  {
    FollowEdges(g, a, b);
    FollowAppends(Follow(g, a, b), a, b);
  }

  /** `unfollow_user`: a no-op unless `a` is registered and follows `b`; then
      the edge is removed from both lists. */
  function Unfollow(g: Graph, a: int, b: int): (r: Graph)
    requires Valid(g)
    ensures Valid(r)
    ensures r.users == g.users && r.following.Keys == g.following.Keys
    ensures forall x, y :: Edge(r, x, y) <==> Edge(g, x, y) && !(x == a && y == b)
    ensures !Edge(g, a, b) ==> r == g
    ensures Edge(g, a, b) ==> r == Graph(g.users, g.following[a := RemoveFirst(g.following[a], b)],
                                         g.followers[b := RemoveFirst(g.followers[b], a)])
  {
    if a in g.following then
      if b in g.following[a] then
        assert FollowerRecorded(g, b, a);
        var r := Graph(g.users, g.following[a := RemoveFirst(g.following[a], b)],
                       g.followers[b := RemoveFirst(g.followers[b], a)]);
        UnfollowKeepsValid(g, a, b, r);
        r
      else
        g
    else
      g
  }

  lemma UnfollowKeepsValid(g: Graph, a: int, b: int, r: Graph)
    requires Valid(g) && Edge(g, a, b) && FollowerRecorded(g, b, a)
    requires r == Graph(g.users, g.following[a := RemoveFirst(g.following[a], b)],
                        g.followers[b := RemoveFirst(g.followers[b], a)])
    ensures Valid(r)
    ensures forall x, y :: Edge(r, x, y) <==> Edge(g, x, y) && !(x == a && y == b)
  {
    RemoveFirstNoDup(g.following[a], b);
    RemoveFirstNoDup(g.followers[b], a);
    UnfollowLists(g, a, b, r);
    UnfollowDual(g, a, b, r.following[a], r.followers[b], r);
  }

  lemma UnfollowLists(g: Graph, a: int, b: int, r: Graph)
    requires Valid(g) && Edge(g, a, b) && FollowerRecorded(g, b, a)
    requires r == Graph(g.users, g.following[a := RemoveFirst(g.following[a], b)],
                        g.followers[b := RemoveFirst(g.followers[b], a)])
    requires NoDup(r.following[a]) && NoDup(r.followers[b])
    ensures forall u :: u in r.following ==> NoDup(r.following[u]) && NoDup(r.followers[u])
  {
    forall u | u in r.following
      ensures NoDup(r.following[u]) && NoDup(r.followers[u])
    {
      assert NoDup(g.following[u]) && NoDup(g.followers[u]);
    }
  }

  lemma UnfollowDual(g: Graph, a: int, b: int, fa: seq<int>, fb: seq<int>, r: Graph)
    requires Valid(g) && Edge(g, a, b) && FollowerRecorded(g, b, a)
    requires r == Graph(g.users, g.following[a := fa], g.followers[b := fb])
    requires forall y :: y in fa <==> y in g.following[a] && y != b
    requires forall x :: x in fb <==> x in g.followers[b] && x != a
    ensures forall x, y :: Edge(r, x, y) <==> Edge(g, x, y) && !(x == a && y == b)
    ensures forall x, y :: FollowerRecorded(r, y, x) <==> FollowerRecorded(g, y, x) && !(x == a && y == b)
  {
  }

  /** Following a user one did not follow and then unfollowing them leaves
      the graph exactly as registering both ids would have. */
  lemma {:induction false} FollowUnfollowRoundTrip(g: Graph, a: int, b: int)
    requires Valid(g) && !Edge(g, a, b)
    ensures Unfollow(Follow(g, a, b), a, b) == AddUser(AddUser(g, a), b)
  {
    var g2 := AddUser(AddUser(g, a), b);
    assert Valid(g2) && !Edge(g2, a, b);
    assert a in g2.following && b in g2.following;
    var f := Follow(g, a, b);
    assert f == Graph(g2.users, g2.following[a := g2.following[a] + [b]], g2.followers[b := g2.followers[b] + [a]]);
    RoundTripRegistered(g2, a, b, f);
  }

  lemma RoundTripRegistered(g: Graph, a: int, b: int, f: Graph)
    requires Valid(g) && a in g.following && b in g.following && !Edge(g, a, b)
    requires f == Graph(g.users, g.following[a := g.following[a] + [b]], g.followers[b := g.followers[b] + [a]])
    requires Valid(f)
    ensures Unfollow(f, a, b) == g
  {
    assert a !in g.followers[b] by {
      assert !FollowerRecorded(g, b, a);
    }
    UpdateUndone(g.following, a, b);
    UpdateUndone(g.followers, b, a);
    assert Edge(f, a, b);
  }

  /** Appending `x` to the list at `k` and then removing it again gives the
      map back. */
  lemma UpdateUndone(m: map<int, seq<int>>, k: int, x: int)
    requires k in m && x !in m[k]
    ensures m[k := m[k] + [x]][k := RemoveFirst(m[k := m[k] + [x]][k], x)] == m
  {
    RemoveFirstAppended(m[k], x);
  }

  /** Between registered users the round trip restores both maps exactly. */
  lemma FollowUnfollowRestores(g: Graph, a: int, b: int)
    requires Valid(g) && a in g.following && b in g.following && !Edge(g, a, b)
    ensures Unfollow(Follow(g, a, b), a, b) == g
  {
    FollowUnfollowRoundTrip(g, a, b);
  }

  // ---------------------------------------------------------------------
  // Adjacency queries
  // ---------------------------------------------------------------------

  /** `get_following`: whom `u` follows; an unknown id has nobody. */
  function GetFollowing(g: Graph, u: int): (r: seq<int>)
    ensures forall v :: v in r <==> Edge(g, u, v)
    ensures Valid(g) ==> NoDup(r)
  {
    if u in g.following then g.following[u] else []
  }

  /** `get_followers`: who follows `u`; an unknown id has nobody. */
  function GetFollowers(g: Graph, u: int): (r: seq<int>)
    ensures forall v :: v in r <==> FollowerRecorded(g, u, v)
    ensures Valid(g) ==> NoDup(r) && forall v :: v in r <==> Edge(g, v, u)
  {
    if u in g.followers then g.followers[u] else []
  }

  /** The two lists describe the same relation from its two ends. */
  lemma FollowingFollowersDual(g: Graph, u: int, v: int)
    requires Valid(g)
    ensures v in GetFollowing(g, u) <==> u in GetFollowers(g, v)
  {
  }

  /** `is_following`: membership in the forward list. */
  function IsFollowing(g: Graph, a: int, b: int): (r: bool)
    ensures r <==> Edge(g, a, b)
    ensures Valid(g) ==> (r <==> a in GetFollowers(g, b))
  {
    b in GetFollowing(g, a)
  }

  /** `get_mutual_followers`: the users both `a` and `b` follow. */
  function MutualFollowing(g: Graph, a: int, b: int): (r: seq<int>)
    ensures NoDup(r)
    ensures forall v :: v in r <==> Edge(g, a, v) && Edge(g, b, v)
  {
    Intersect(GetFollowing(g, a), GetFollowing(g, b))
  }

  /** `get_mutual_friends`: the users who follow both `a` and `b`. */
  function MutualFriends(g: Graph, a: int, b: int): (r: seq<int>)
    ensures NoDup(r)
    ensures forall v :: v in r <==> FollowerRecorded(g, a, v) && FollowerRecorded(g, b, v)
    ensures Valid(g) ==> forall v :: v in r <==> Edge(g, v, a) && Edge(g, v, b)
  {
    Intersect(GetFollowers(g, a), GetFollowers(g, b))
  }

  /** Both intersections hold the same users whichever argument comes first. */
  lemma MutualSymmetric(g: Graph, a: int, b: int)
    ensures forall v :: v in MutualFollowing(g, a, b) <==> v in MutualFollowing(g, b, a)
    ensures forall v :: v in MutualFriends(g, a, b) <==> v in MutualFriends(g, b, a)
  {
  }

  /** `detect_mutual_following`: `a` and `b` follow each other. */
  function DetectMutualFollowing(g: Graph, a: int, b: int): (r: bool)
    ensures r <==> Edge(g, a, b) && Edge(g, b, a)
    ensures Valid(g) ==> (r <==> b in GetFollowing(g, a) && b in GetFollowers(g, a))
  {
    IsFollowing(g, a, b) && IsFollowing(g, b, a)
  }

  /** Reciprocity does not depend on argument order. */
  lemma DetectMutualSymmetric(g: Graph, a: int, b: int)
    ensures DetectMutualFollowing(g, a, b) == DetectMutualFollowing(g, b, a)
  {
  }
}
