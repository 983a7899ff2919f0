/** The ranking idiom shared by the recommendation and ranking queries:
    a list of (user id, value) pairs sorted by value, largest first, with
    Python's stable `list.sort(key=..., reverse=True)`, then cut with the
    slice `[:limit]`. */
module Ranking {
  import opened SeqUtil

  /** A user id paired with the value it is ranked by. */
  type Entry = (int, int)

  predicate SortedDesc(s: seq<Entry>) {
    forall i, j :: 0 <= i < j < |s| ==> s[i].1 >= s[j].1
  }

  /** Inserts `x` in front of the first entry whose value does not exceed
      its own, so `x` precedes every entry of equal value. */
  function Insert(x: Entry, s: seq<Entry>): (r: seq<Entry>)
    ensures |r| == |s| + 1
    ensures multiset(r) == multiset{x} + multiset(s)
  {
    if s == [] || x.1 >= s[0].1 then
      [x] + s
    else
      assert s == [s[0]] + s[1..];
      [s[0]] + Insert(x, s[1..])
  }

  /** A head no smaller than anything behind it extends a sorted list. */
  lemma ConsSorted(h: Entry, t: seq<Entry>)
    requires SortedDesc(t) && forall y :: y in t ==> y.1 <= h.1
    ensures SortedDesc([h] + t)
  {
    forall i, j | 0 <= i < j < |[h] + t|
      ensures ([h] + t)[i].1 >= ([h] + t)[j].1
    {
      assert ([h] + t)[j] == t[j - 1];
      if i > 0 {
        assert ([h] + t)[i] == t[i - 1];
      }
    }
  }

  lemma {:induction false} InsertSorted(x: Entry, s: seq<Entry>)
    requires SortedDesc(s)
    ensures SortedDesc(Insert(x, s))
  {
    if s == [] || x.1 >= s[0].1 {
      ConsSorted(x, s);
    } else {
      var rest := Insert(x, s[1..]);
      InsertSorted(x, s[1..]);
      forall y | y in rest
        ensures y.1 <= s[0].1
      {
        assert y in multiset(rest);
        if y != x {
          var j :| 0 <= j < |s[1..]| && s[1..][j] == y;
          assert s[j + 1] == y;
        }
      }
      ConsSorted(s[0], rest);
    }
  }

  /** The stable descending sort: insertion from the back keeps entries of
      equal value in their original order. */
  function SortDesc(s: seq<Entry>): (r: seq<Entry>)
    ensures |r| == |s|
    ensures multiset(r) == multiset(s)
    ensures SortedDesc(r)
  {
    if s == [] then []
    else
      assert s == [s[0]] + s[1..];
      InsertSorted(s[0], SortDesc(s[1..]));
      Insert(s[0], SortDesc(s[1..]))
  }

  lemma InsertCons(x: Entry, h: Entry, t: seq<Entry>)
    ensures Insert(x, [h] + t) == if x.1 >= h.1 then [x, h] + t else [h] + Insert(x, t)
  {
    assert ([h] + t)[0] == h && ([h] + t)[1..] == t;
  }

  /** The entries of value `k`, in order. */
  function KeyFilter(s: seq<Entry>, k: int): (r: seq<Entry>) {
    if s == [] then []
    else (if s[0].1 == k then [s[0]] else []) + KeyFilter(s[1..], k)
  }

  lemma KeyFilterCons(h: Entry, t: seq<Entry>, k: int)
    ensures KeyFilter([h] + t, k) == (if h.1 == k then [h] else []) + KeyFilter(t, k)
  {
    assert ([h] + t)[0] == h && ([h] + t)[1..] == t;
  }

  lemma {:induction false} KeyFilterInsert(x: Entry, t: seq<Entry>, k: int)
    ensures KeyFilter(Insert(x, t), k) == (if x.1 == k then [x] else []) + KeyFilter(t, k)
  {
    if t == [] {
      assert Insert(x, t) == [x] + t;
      KeyFilterCons(x, t, k);
    } else {
      var h, rest := t[0], t[1..];
      assert t == [h] + rest;
      InsertCons(x, h, rest);
      KeyFilterCons(h, rest, k);
      if x.1 >= h.1 {
        assert Insert(x, t) == [x] + t;
        KeyFilterCons(x, t, k);
      } else {
        KeyFilterInsert(x, rest, k);
        KeyFilterCons(h, Insert(x, rest), k);
      }
    }
  }

  /** Stability: the sort keeps the relative order of the entries of every
      single value. */
  lemma {:induction false} SortStable(s: seq<Entry>, k: int)
    ensures KeyFilter(SortDesc(s), k) == KeyFilter(s, k)
  {
    if s != [] {
      var t := SortDesc(s[1..]);
      calc {
        KeyFilter(SortDesc(s), k);
      == { assert SortDesc(s) == Insert(s[0], t); }
        KeyFilter(Insert(s[0], t), k);
      == { KeyFilterInsert(s[0], t, k); }
        (if s[0].1 == k then [s[0]] else []) + KeyFilter(t, k);
      == { SortStable(s[1..], k); }
        (if s[0].1 == k then [s[0]] else []) + KeyFilter(s[1..], k);
      == { assert s == [s[0]] + s[1..]; KeyFilterCons(s[0], s[1..], k); }
        KeyFilter(s, k);
      }
    }
  }

  /** A sorted list is its own sort. */
  lemma {:induction false} SortSorted(s: seq<Entry>)
    requires SortedDesc(s)
    ensures SortDesc(s) == s
  {
    if s != [] {
      SortSorted(s[1..]);
      assert s[1..] == [] || s[0].1 >= s[1..][0].1;
    }
  }

  /** Python's `s[:limit]`: a negative `limit` counts from the end. */
  function Take(s: seq<Entry>, limit: int): (r: seq<Entry>)
    ensures |r| <= |s| && r == s[..|r|]
    ensures limit >= 0 ==> |r| == if limit < |s| then limit else |s|
    ensures limit < 0 ==> |r| == if |s| + limit > 0 then |s| + limit else 0
  {
    if limit >= 0 then
      if limit < |s| then s[..limit] else s
    else
      if |s| + limit > 0 then s[..|s| + limit] else []
  }

  /** The ranking: the first `limit` entries of the stable descending sort. */
  function Rank(s: seq<Entry>, limit: int): (r: seq<Entry>)
    ensures SortedDesc(r)
    ensures |r| <= |s| && r == SortDesc(s)[..|r|]
  {
    Take(SortDesc(s), limit)
  }

  /** In a sorted list nothing behind position `n` is worth more than
      anything before it. */
  lemma SortedSplit(t: seq<Entry>, n: int)
    requires SortedDesc(t) && 0 <= n <= |t|
    ensures forall x, y :: x in t[..n] && y in t[n..] ==> y.1 <= x.1
  {
    forall x, y | x in t[..n] && y in t[n..]
      ensures y.1 <= x.1
    {
      var i :| 0 <= i < n && t[..n][i] == x;
      var j :| 0 <= j < |t| - n && t[n..][j] == y;
      assert t[i] == x && t[n + j] == y;
    }
  }

  /** What a ranking promises: it draws its entries from the input, is as
      long as the limit allows, and no entry left out is worth more than one
      kept. */
  lemma RankTop(s: seq<Entry>, limit: int)
    ensures multiset(Rank(s, limit)) <= multiset(s)
    ensures limit >= 0 ==> |Rank(s, limit)| == if limit < |s| then limit else |s|
    ensures forall x, y :: x in Rank(s, limit) && y in multiset(s) - multiset(Rank(s, limit)) ==> y.1 <= x.1
  {
    var t := SortDesc(s);
    var r := Rank(s, limit);
    var n := |r|;
    assert t == r + t[n..];
    assert multiset(s) - multiset(r) == multiset(t[n..]);
    SortedSplit(t, n);
    assert r == t[..n];
  }

  /** Entries whose value reaches the threshold `k`, in order. */
  function AtLeast(s: seq<Entry>, k: int): (r: seq<Entry>)
    ensures |r| <= |s|
    ensures forall y :: y in r <==> y in s && y.1 >= k
  {
    if s == [] then []
    else
      assert s == [s[0]] + s[1..];
      (if s[0].1 >= k then [s[0]] else []) + AtLeast(s[1..], k)
  }

  lemma AtLeastCons(h: Entry, t: seq<Entry>, k: int)
    ensures AtLeast([h] + t, k) == (if h.1 >= k then [h] else []) + AtLeast(t, k)
  {
    assert ([h] + t)[0] == h && ([h] + t)[1..] == t;
  }

  /** Filtering after an insertion is inserting after filtering. */
  lemma {:induction false} AtLeastInsert(x: Entry, t: seq<Entry>, k: int)
    requires SortedDesc(t)
    ensures AtLeast(Insert(x, t), k) == if x.1 >= k then Insert(x, AtLeast(t, k)) else AtLeast(t, k)
  {
    if t == [] {
      assert Insert(x, t) == [x] + [];
      AtLeastCons(x, [], k);
    } else {
      var h, rest := t[0], t[1..];
      assert t == [h] + rest;
      InsertCons(x, h, rest);
      AtLeastCons(h, rest, k);
      if x.1 >= h.1 {
        assert Insert(x, t) == [x] + t;
        AtLeastCons(x, t, k);
        if x.1 >= k && h.1 < k {
          AtLeastSortedTail(t, k);
        } else if h.1 >= k {
          InsertCons(x, h, AtLeast(rest, k));
        }
      } else {
        AtLeastInsert(x, rest, k);
        AtLeastCons(h, Insert(x, rest), k);
        InsertCons(x, h, AtLeast(rest, k));
      }
    }
  }

  /** A sorted list whose head misses the threshold has nothing reaching it. */
  lemma {:induction false} AtLeastSortedTail(t: seq<Entry>, k: int)
    requires SortedDesc(t) && t != [] && t[0].1 < k
    ensures AtLeast(t, k) == []
  {
    if |t| > 1 {
      AtLeastSortedTail(t[1..], k);
    }
  }

  /** Filtering by a threshold commutes with the stable sort. */
  lemma {:induction false} SortAtLeast(s: seq<Entry>, k: int)
    ensures SortDesc(AtLeast(s, k)) == AtLeast(SortDesc(s), k)
  {
    if s != [] {
      SortAtLeast(s[1..], k);
      AtLeastInsert(s[0], SortDesc(s[1..]), k);
      var a := AtLeast(s, k);
      if s[0].1 >= k {
        assert a[0] == s[0] && a[1..] == AtLeast(s[1..], k);
      } else {
        assert a == AtLeast(s[1..], k);
      }
    }
  }

  lemma SortedTail(t: seq<Entry>)
    requires SortedDesc(t) && t != []
    ensures SortedDesc(t[1..])
  {
  }

  /** On a sorted list the entries reaching a threshold form a prefix. */
  lemma {:induction false} AtLeastPrefix(t: seq<Entry>, k: int)
    requires SortedDesc(t)
    ensures AtLeast(t, k) == t[..|AtLeast(t, k)|]
  {
    if t != [] {
      if t[0].1 >= k {
        var rest := t[1..];
        assert t == [t[0]] + rest;
        SortedTail(t);
        AtLeastPrefix(rest, k);
        var a := AtLeast(rest, k);
        AtLeastCons(t[0], rest, k);
        assert AtLeast(t, k) == [t[0]] + a;
        assert t[..|a| + 1] == [t[0]] + rest[..|a|];
      } else {
        AtLeastSortedTail(t, k);
      }
    }
  }

  /** Raising the threshold on a sorted list can only cut entries off its end. */
  lemma {:induction false} AtLeastRaise(t: seq<Entry>, k1: int, k2: int)
    requires SortedDesc(t) && k1 <= k2
    ensures |AtLeast(t, k2)| <= |AtLeast(t, k1)|
    ensures AtLeast(t, k2) == AtLeast(t, k1)[..|AtLeast(t, k2)|]
  {
    if t != [] {
      if t[0].1 >= k2 {
        AtLeastRaise(t[1..], k1, k2);
        var a1, a2 := AtLeast(t[1..], k1), AtLeast(t[1..], k2);
        assert AtLeast(t, k1) == [t[0]] + a1 && AtLeast(t, k2) == [t[0]] + a2;
        assert ([t[0]] + a1)[..|a2| + 1] == [t[0]] + a1[..|a2|];
      } else {
        AtLeastSortedTail(t, k2);
      }
    }
  }

  /** Cutting a prefix of a list gives a prefix of the cut list. */
  lemma TakePrefix(a: seq<Entry>, b: seq<Entry>, limit: int)
    requires |a| <= |b| && a == b[..|a|]
    ensures |Take(a, limit)| <= |Take(b, limit)|
    ensures Take(a, limit) == Take(b, limit)[..|Take(a, limit)|]
  {
  }

  /** Ranking the entries that reach a higher threshold gives a prefix of the
      ranking at a lower one, for every limit. */
  lemma RankRaise(s: seq<Entry>, k1: int, k2: int, limit: int)
    requires k1 <= k2
    ensures |Rank(AtLeast(s, k2), limit)| <= |Rank(AtLeast(s, k1), limit)|
    ensures Rank(AtLeast(s, k2), limit) == Rank(AtLeast(s, k1), limit)[..|Rank(AtLeast(s, k2), limit)|]
  {
    SortAtLeast(s, k1);
    SortAtLeast(s, k2);
    AtLeastRaise(SortDesc(s), k1, k2);
    TakePrefix(AtLeast(SortDesc(s), k2), AtLeast(SortDesc(s), k1), limit);
  }

  /** No user id occurs twice. */
  predicate DistinctIds(s: seq<Entry>) {
    forall i, j :: 0 <= i < j < |s| ==> s[i].0 != s[j].0
  }

  lemma ConsDistinct(h: Entry, t: seq<Entry>)
    requires DistinctIds(t) && forall y :: y in t ==> y.0 != h.0
    ensures DistinctIds([h] + t)
  {
    forall i, j | 0 <= i < j < |[h] + t|
      ensures ([h] + t)[i].0 != ([h] + t)[j].0
    {
      assert ([h] + t)[j] == t[j - 1];
      if i > 0 {
        assert ([h] + t)[i] == t[i - 1];
      }
    }
  }

  lemma {:induction false} InsertDistinct(x: Entry, s: seq<Entry>)
    requires DistinctIds(s) && forall y :: y in s ==> y.0 != x.0
    ensures DistinctIds(Insert(x, s))
  {
    if s == [] || x.1 >= s[0].1 {
      ConsDistinct(x, s);
    } else {
      var rest := Insert(x, s[1..]);
      InsertDistinct(x, s[1..]);
      forall y | y in rest
        ensures y.0 != s[0].0
      {
        assert y in multiset(rest);
        if y != x {
          var j :| 0 <= j < |s[1..]| && s[1..][j] == y;
          assert s[j + 1] == y;
        }
      }
      ConsDistinct(s[0], rest);
    }
  }

  /** Sorting keeps the ids distinct. */
  lemma {:induction false} SortDistinct(s: seq<Entry>)
    requires DistinctIds(s)
    ensures DistinctIds(SortDesc(s))
  {
    if s != [] {
      var t := SortDesc(s[1..]);
      SortDistinct(s[1..]);
      forall y | y in t
        ensures y.0 != s[0].0
      {
        assert y in multiset(s[1..]);
        var j :| 0 <= j < |s[1..]| && s[1..][j] == y;
        assert s[j + 1] == y;
      }
      InsertDistinct(s[0], t);
    }
  }

  /** A ranking of entries with distinct ids has distinct ids. */
  lemma RankDistinct(s: seq<Entry>, limit: int)
    requires DistinctIds(s)
    ensures DistinctIds(Rank(s, limit))
  {
    SortDistinct(s);
  }

  /** Filtering keeps the ids distinct. */
  lemma {:induction false} AtLeastDistinct(s: seq<Entry>, k: int)
    requires DistinctIds(s)
    ensures DistinctIds(AtLeast(s, k))
  {
    if s != [] {
      AtLeastDistinct(s[1..], k);
      assert s == [s[0]] + s[1..];
      AtLeastCons(s[0], s[1..], k);
      if s[0].1 >= k {
        forall y | y in AtLeast(s[1..], k)
          ensures y.0 != s[0].0
        {
          var j :| 0 <= j < |s[1..]| && s[1..][j] == y;
          assert s[j + 1] == y;
        }
        ConsDistinct(s[0], AtLeast(s[1..], k));
      }
    }
  }

  /** An id missing from a list of distinct ids, paired with its value, is
      among the entries a ranking leaves out. */
  lemma LeftOut(s: seq<Entry>, limit: int, y: Entry)
    requires y in s && forall x :: x in Rank(s, limit) ==> x.0 != y.0
    ensures y in multiset(s) - multiset(Rank(s, limit))
  {
    assert y !in Rank(s, limit);
  }

  /** A list of entries with distinct ids has as many entries as ids. */
  lemma EntriesCount(s: seq<Entry>, ids: set<int>)
    requires DistinctIds(s) && forall v :: v in ids <==> exists x :: x in s && x.0 == v
    ensures |s| == |ids|
  {
    var keys := seq(|s|, i requires 0 <= i < |s| => s[i].0);
    assert NoDup(keys);
    NoDupCard(keys);
    forall v
      ensures v in ids <==> v in keys
    {
      if v in ids {
        var x :| x in s && x.0 == v;
        var i :| 0 <= i < |s| && s[i] == x;
        assert keys[i] == v;
      }
    }
    assert ids == set v | v in keys;
  }

  /** Ranking a table: when the entries list each key of `m` once with its
      value, the ranking lists keys of `m` with their values, each once; no
      key left out has a larger value than a listed one; and it is as long as
      the limit and the table allow. */
  lemma RankTable(s: seq<Entry>, m: map<int, int>, limit: int)
    requires DistinctIds(s)
    requires forall x :: x in s <==> x.0 in m && x.1 == m[x.0]
    ensures var r := Rank(s, limit);
      DistinctIds(r) && forall x :: x in r ==> x.0 in m && x.1 == m[x.0]
    ensures var r := Rank(s, limit);
      forall x, v :: x in r && v in m && (forall y :: y in r ==> y.0 != v) ==> m[v] <= x.1
    ensures limit >= 0 ==> |Rank(s, limit)| == if limit < |m| then limit else |m|
  {
    var r := Rank(s, limit);
    RankDistinct(s, limit);
    RankTop(s, limit);
    forall x | x in r
      ensures x in s
    {
      assert x in multiset(s);
    }
    forall x, v | x in r && v in m && (forall y :: y in r ==> y.0 != v)
      ensures m[v] <= x.1
    {
      var y := (v, m[v]);
      assert y in s;
      LeftOut(s, limit, y);
    }
    forall v
      ensures v in m.Keys <==> exists x :: x in s && x.0 == v
    {
      if v in m {
        assert (v, m[v]) in s;
      }
    }
    EntriesCount(s, m.Keys);
  }
}
