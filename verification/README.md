# Social graph — a Dafny model

This project models `SocialGraph` in `graph.py`, the in-memory follow graph
behind a small social-network service. The graph keeps two adjacency maps
over integer user ids. The forward map lists whom each user follows. The
reverse map lists who follows each user. Both lists keep the order in which
edges were added.

The model covers:

- the three mutations: registering a user, following and unfollowing;
- the adjacency queries and the two mutual-connection intersections;
- the breadth-first shortest path and degrees of separation;
- the bounded community size, exploring edges in both directions;
- the rankings: friend-of-friend suggestions, influencers and the most
  popular followees;
- the network statistics.

Modules, one per concern:

| module | file | contents |
|---|---|---|
| `SeqUtil` | seq_util.dfy | duplicate-free lists, Python's `list.remove`, list intersection |
| `SocialGraph` | social_graph.dfy | the `Graph` datatype, its invariant `Valid`, mutations and adjacency queries |
| `Reach` | reach.dfy | walks and the ball of users within `k` steps, the reference for both searches |
| `Paths` | paths.dfy | `shortest_path_bfs` and `get_degrees_of_separation` |
| `Community` | community.dfy | `get_community_size` |
| `Ranking` | ranking.dfy | Python's stable `sort(key=..., reverse=True)` followed by `[:limit]` |
| `Influence` | influence.dfy | `get_influencers` and `get_popular_in_network` |
| `Suggestions` | suggestions.dfy | `suggest_users_to_follow` |
| `Stats` | stats.dfy | `get_network_stats` |

`Graph` has a third field, `users`, the order in which ids were registered.
`add_user` always inserts an id into both dicts at once, so this is the key
order of both dicts. `get_influencers` iterates in that order, which fixes
how its ties are broken.

`Valid(g)` is the invariant every method of the class keeps:

- `users` has no duplicate and names exactly the keys;
- both maps have the same keys;
- no list holds a duplicate;
- the edge `a -> b` is in `a`'s following list exactly when `a` is in `b`'s
  follower list.

`Empty`, `AddUser`, `Follow` and `Unfollow` are proved to keep it.

The searches are specified against reference definitions in `Reach`:

- `IsWalkFrom(m, p, s, v)`: `p` is a walk from `s` to `v` along the map `m`;
- `Ball(m, s, k)`: the users within `k` steps of `s`.

The ranking operations are specified against the table of values they rank.
Their contracts state three things:

- every entry is a key with its true value, and no key appears twice;
- no key left out ranks above a kept one;
- the length is the limit, capped at the size of the table.

## Model

| member | source | states |
|---|---|---|
| SocialGraph.Empty | graph.py:12-14 | a fresh graph satisfies the invariant and knows no user |
| SocialGraph.AddUser | graph.py:16-20 | the keys grow by exactly `u`; every following list already present and every follower list of another user is untouched; a known id changes nothing; a new id gets two empty lists and is appended to the registration order; the invariant and the edge set are preserved |
| SocialGraph.AddUserIdempotent | graph.py:16-20 | registering the same id twice is the same as registering it once |
| SocialGraph.Follow | graph.py:22-35 | following keeps the invariant |
| SocialGraph.FollowEdges | graph.py:22-35 | following registers exactly the two endpoints and adds exactly the edge `a -> b` to the edge set |
| SocialGraph.FollowAppends | graph.py:32-35 | an existing edge leaves the graph unchanged; a new edge is appended at the end of `a`'s following list and of `b`'s follower list, and the result is exactly the registered graph with those two appends, so no other list changes |
| SocialGraph.RegisterBoth | graph.py:27-30 | registering both endpoints keeps the invariant and every edge, and leaves `a`'s following list and `b`'s follower list as they were |
| SocialGraph.RegisterFrame | graph.py:27-30 | registering both endpoints leaves both lists of every known user as they were, gives each new id two empty lists, and appends the new ids to the registration order, `a` before `b` |
| SocialGraph.FollowIdempotent | graph.py:32-35 | following twice is the same as following once |
| SocialGraph.Unfollow | graph.py:37-45 | unfollowing keeps the invariant, the users and the keys; it removes exactly the edge `a -> b`; without that edge, including for an unknown follower, it changes nothing; with it, the result is the graph with `b` removed from `a`'s following list and `a` from `b`'s follower list by `list.remove`, every other list unchanged |
| SocialGraph.UnfollowKeepsValid | graph.py:43-45 | removing the edge from both lists keeps the invariant and removes only that edge |
| SeqUtil.RemoveFirst | graph.py:44-45 | Python's `list.remove`: one element shorter, with one occurrence of the element taken out of the multiset |
| SeqUtil.IndexOf | graph.py:44-45 | the position of the first occurrence: it holds the element and nothing before it does |
| SeqUtil.RemoveFirstKeepsOrder | graph.py:44-45 | removal deletes the first occurrence and keeps the elements before and after it in order |
| SeqUtil.RemoveFirstNoDup | graph.py:44-45 | on a duplicate-free list, removal keeps it duplicate-free and removes exactly that element |
| SocialGraph.FollowUnfollowRoundTrip | graph.py:22-45 | following a user one did not follow and then unfollowing them gives the graph with both ids registered and nothing else changed |
| SocialGraph.FollowUnfollowRestores | graph.py:22-45 | between registered users, follow then unfollow restores the graph exactly, lists in order included |
| SocialGraph.GetFollowing | graph.py:47-52 | holds exactly the users `u` follows, with nobody for an unknown id, and has no duplicate in a valid graph |
| SocialGraph.GetFollowers | graph.py:54-59 | holds exactly the users recorded as following `u`; in a valid graph that is exactly the users with an edge to `u`, without duplicates |
| SocialGraph.FollowingFollowersDual | graph.py:47-59 | `v` is among `u`'s followees exactly when `u` is among `v`'s followers |
| SocialGraph.IsFollowing | graph.py:61-63 | true exactly when the edge exists; in a valid graph equivalently when `a` is among `b`'s followers |
| SocialGraph.MutualFollowing | graph.py:65-72 | duplicate-free, and holds exactly the users both `a` and `b` follow |
| SocialGraph.MutualFriends | graph.py:74-80 | duplicate-free, and holds exactly the users recorded as following both; in a valid graph, the users with edges to both |
| SeqUtil.Intersect | graph.py:70-72 | the intersection has no duplicate and holds exactly the elements common to both lists |
| SocialGraph.MutualSymmetric | graph.py:65-80 | both intersections hold the same users whichever argument comes first |
| SocialGraph.DetectMutualFollowing | graph.py:217-220 | true exactly when each user follows the other; in a valid graph, when `b` is both a followee and a follower of `a` |
| SocialGraph.DetectMutualSymmetric | graph.py:217-220 | reciprocity does not depend on argument order |
| Reach.WalkInBall | graph.py:110-142 | the end of a walk of `n` vertices is within `n - 1` steps of its start |
| Reach.BallHasWalk | graph.py:110-142 | every user within `k` steps ends a walk of at most `k + 1` vertices |
| Reach.ClosedContainsBall | graph.py:126-142 | a vertex set closed under the edges and containing the start contains every ball around it; this is why an exhausted search proves there is no path |
| Paths.FollowWalk | graph.py:134-140 | in a valid graph, a walk along the following map is exactly a chain of follow edges starting at a registered user |
| Paths.FoundIsShortest | graph.py:135-137 | when the target first appears among the neighbours of a dequeued user, the extended path is a walk to the target and no walk is shorter |
| Paths.Exhausted | graph.py:126-142 | once the queue is empty, no walk leads from the start to the target |
| Paths.ScanNeighbours | graph.py:134-140 | the neighbour loop either meets the target among `cur`'s followees, or leaves the queue as the old one followed by each unvisited followee, in list order, with `path` extended by it; every followee is then visited or waiting and the scan invariant holds |
| Paths.ExtensionsMembers | graph.py:135-140 | the entries the neighbour loop appends are exactly the unvisited followees, each paired with `path` extended by it |
| Paths.SearchStep | graph.py:126-140 | one dequeue either returns a shortest walk to the target, or keeps the invariant while visiting a new user or shrinking the queue |
| Paths.ShortestPath | graph.py:110-142 | `[]` for an unknown endpoint, `[s]` from a known user to itself; otherwise a non-empty result is a walk of follow edges from `s` to `e` with no shorter walk, and the result is empty exactly when no such walk exists |
| Paths.DegreesOfSeparation | graph.py:144-152 | -1 exactly when `b` is unreachable from `a`; otherwise the length in edges of a shortest chain of follows, which is attained by some walk |
| Community.UndirectedStep | graph.py:190-197 | the neighbours scanned from a user are exactly the users joined to it by a follow edge in either direction |
| Community.DeeperMembers | graph.py:190-197 | the entries a round appends are exactly the unvisited neighbours, each one step deeper than the dequeued user |
| Community.ScanNeighbours | graph.py:190-197 | the two neighbour loops, run as one loop over the followees followed by the followers: the queue becomes the old one followed by each unvisited neighbour, in list order, one step deeper; every neighbour is then visited or waiting, and the queue stays a valid continuation of the search |
| Community.CommunityStep | graph.py:182-197 | one dequeue: a head already visited or deeper than `max_depth` is dropped; otherwise it is visited and its unvisited followees, then its unvisited followers, are queued one step deeper in list order; the search invariant holds again and either a user was newly visited or the queue got shorter |
| Community.Explore | graph.py:179-197 | the search loop visits exactly the users within `maxDepth` undirected steps of `u` |
| Community.CommunitySize | graph.py:171-199 | 0 for an unknown user or a negative depth bound; otherwise the number of users within `maxDepth` undirected steps; never more than the number of registered users |
| Community.CommunityMembers | graph.py:171-199 | a user counts exactly when it ends a walk from `u` of at most `maxDepth` steps, each step a follow edge taken either way |
| Community.CommunityMonotone | graph.py:185-188 | the community grows with the depth bound, and contains `u` exactly when the bound is not negative |
| Ranking.Insert | graph.py:107 | insertion adds exactly one entry, keeping the multiset |
| Ranking.InsertSorted | graph.py:107 | inserting into a descending list keeps it descending |
| Ranking.SortDesc | graph.py:107 | the sort is a permutation of its input, in descending order of value |
| Ranking.SortStable | graph.py:107 | entries of equal value keep their relative order, as in Python's stable sort with `reverse=True` |
| Ranking.SortSorted | graph.py:107 | sorting an already descending list changes nothing |
| Ranking.Take | graph.py:108 | Python's `s[:limit]`: a prefix whose length is `limit` capped at the length, and for a negative `limit` the length plus `limit`, floored at zero |
| Ranking.Rank | graph.py:107-108 | the ranking is descending and is a prefix of the sorted list |
| Ranking.RankTop | graph.py:107-108 | the ranking draws from its input, has length `min(limit, |s|)` for a non-negative limit, and no entry left out is worth more than one kept |
| Ranking.RankTable | graph.py:107-108 | ranking a table lists each of its keys at most once with its value, leaves out no key worth more than a listed one, and has length `min(limit, |table|)` |
| Ranking.AtLeast | graph.py:162-165 | the threshold filter keeps exactly the entries whose value reaches it |
| Ranking.SortAtLeast | graph.py:162-168 | filtering then sorting equals sorting then filtering |
| Ranking.AtLeastPrefix | graph.py:162-168 | on a sorted list the entries reaching a threshold form a prefix |
| Ranking.RankRaise | graph.py:154-169 | raising the threshold can only cut entries off the end of the ranking |
| Influence.FollowerCountsInDegree | graph.py:162-163 | in a valid graph the counts list pairs each listed user, in list order, with the number of users that follow it |
| Influence.FollowerCountsMembers | graph.py:210-212 | the entries are exactly the listed users with their follower-list lengths, with distinct ids when the list has no duplicate |
| Influence.FollowerCountIsInDegree | graph.py:163 | in a valid graph a follower-list length is the number of users with an edge to that user |
| Influence.Influencers | graph.py:154-169 | the influencer list is in descending order of follower count |
| Influence.InfluencersSpec | graph.py:154-169 | only registered users with at least `minFollowers` followers, each once, with their true counts; no qualifying user left out has more followers than a listed one; length `min(limit, number of qualifying users)` |
| Influence.InfluencersRaise | graph.py:154-169 | a higher threshold gives a prefix of the ranking for a lower one |
| Influence.PopularInNetwork | graph.py:201-215 | the list is in descending order of follower count, and empty for an unknown user |
| Influence.PopularSpec | graph.py:201-215 | only followees of `u`, each once, with their true follower counts; no followee left out has more followers than a listed one; length `min(limit, number of followees)` |
| Suggestions.CountViaCard | graph.py:95-99 | counting along a duplicate-free list of followees counts the followees with an edge to `p` |
| Suggestions.TallyOne | graph.py:96-99 | scanning one more followee's followees extends the tally to that followee |
| Suggestions.Tally | graph.py:91-99 | the tally holds exactly the candidates, each listed once, each with the number of `u`'s followees who follow it |
| Suggestions.ScoredScores | graph.py:101-104 | scoring the tally of `u` pairs each tallied user, in tally order, with its scaled score: ten per followee of `u` who follows it, plus one per follower |
| Suggestions.SuggestUsers | graph.py:82-108 | descending by score, each suggestion once, only candidates with their true scores; no candidate left out scores higher than a listed one; length `min(limit, number of candidates)` |
| Suggestions.CandidateShape | graph.py:95-99 | a candidate is never `u` or a user `u` already follows, and is followed by some followee of `u` |
| Stats.NetworkStatsOf | graph.py:222-234 | non-negative counts; the average is 0 without users and otherwise multiplies back to the number of connections |
| Stats.NetworkStatsSpec | graph.py:222-234 | in a valid graph, the user count is the number of registered users; the connection count is the number of follow edges, and equals the summed lengths of the follower lists |
| Stats.PairsCount | graph.py:225 | the summed lengths of duplicate-free lists count the (user, listed user) pairs |

## Left out

- The web layer, the data models and schemas, and the process-wide shared
  instance are not part of this model. It covers the graph class alone, and
  every operation is a pure function or a method on an immutable value.
- Concurrency: the class has no locking, and the model is sequential.
- `SocialGraph.Follow`: its own contract states only the invariant. What it
  does to the edge set and to the lists is stated by `FollowEdges`,
  `FollowAppends` and `RegisterFrame`. The two registration guards are
  folded into `AddUser`, which already skips known ids.
- `Valid` is required by `Follow`, `Unfollow` and the searches. On a state
  the class never builds, `follow_user` and `unfollow_user` could raise
  `KeyError` on the reverse map, and the searches would not be known to
  terminate. The queries and rankings need it only for their
  characterisations.
- `Suggestions.SuggestUsers`: scores are scaled by ten. The source's score
  is `count + 0.1 * followers` as a float; the model uses the integer
  `10 * count + followers`, which orders the candidates the same way,
  except that float rounding can break ties between equal scaled scores
  (`1 + 14 * 0.1` exceeds `2 + 4 * 0.1` as floats, while both scale to 24).
  Floating-point rounding of the sum is not modelled.
- `Stats.NetworkStatsOf`: the average is the exact rational quotient. The
  rounding to two decimals is not modelled.
- Iteration order of Python sets. `suggest_users_to_follow` iterates over
  `set(following)`, and the mutual intersections return `list(set & set)`.
  The model iterates in list order instead. This changes only how ties are
  ordered in a suggestion list and the order of the intersection lists;
  every contract about them is independent of order.
- `get_community_size` scans followees and then followers in two loops. The
  model scans the concatenation in one loop, which appends to the queue in
  the same order.
- `SocialGraph.GetFollowing` returns a value. In the source it returns the
  stored list itself, so a caller that mutates the result changes the
  forward map without the reverse one; no caller inside the class does.
- Default argument values (`limit=5`, `min_followers=100`, `max_depth=3`)
  are left to the caller.
