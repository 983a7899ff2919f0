/** Sequence helpers shared by the follow-graph model: duplicate-freedom,
    Python's `list.remove` and an order-free intersection. */
module SeqUtil {

  /** No element occurs twice. */
  predicate NoDup(s: seq<int>) {
    forall i, j :: 0 <= i < j < |s| ==> s[i] != s[j]
  }

  /** The position of the first occurrence of `x` (Python's `list.index`). */
  function IndexOf(s: seq<int>, x: int): (i: nat)
    requires x in s
    ensures i < |s| && s[i] == x && x !in s[..i]
  {
    if s[0] == x then 0
    else
      assert s == [s[0]] + s[1..];
      var j := IndexOf(s[1..], x);
      assert s[..j + 1] == [s[0]] + s[1..][..j];
      j + 1
  }

  /** Python's `list.remove(x)`: drops the first occurrence of `x`. The source
      only calls it when `x` is known to be present (otherwise it raises). */
  function RemoveFirst(s: seq<int>, x: int): (r: seq<int>)
    requires x in s
    ensures |r| == |s| - 1
    ensures multiset(r) == multiset(s) - multiset{x}
  {
    if s[0] == x then
      assert s == [s[0]] + s[1..];
      s[1..]
    else
      assert s == [s[0]] + s[1..];
      [s[0]] + RemoveFirst(s[1..], x)
  }

  /** Removal takes out the first occurrence of `x` and keeps everything else
      in order. */
  lemma {:induction false} RemoveFirstKeepsOrder(s: seq<int>, x: int)
    requires x in s
    ensures RemoveFirst(s, x) == s[..IndexOf(s, x)] + s[IndexOf(s, x) + 1..]
  {
    if s[0] != x {
      var t := s[1..];
      var j := IndexOf(t, x);
      assert IndexOf(s, x) == j + 1;
      calc {
        RemoveFirst(s, x);
        [s[0]] + RemoveFirst(t, x);
      == { RemoveFirstKeepsOrder(t, x); }
        [s[0]] + (t[..j] + t[j + 1..]);
      == { TailSlices(s, j); }
        s[..j + 1] + s[j + 2..];
      }
    }
  }

  lemma TailSlices(s: seq<int>, j: int)
    requires 0 <= j < |s| - 1
    ensures [s[0]] + (s[1..][..j] + s[1..][j + 1..]) == s[..j + 1] + s[j + 2..]
  {
    assert s[..j + 1] == [s[0]] + s[1..][..j];
    assert s[j + 2..] == s[1..][j + 1..];
  }

  /** On a duplicate-free list, removal deletes exactly `x` and keeps the
      list duplicate-free. */
  lemma {:induction false} RemoveFirstNoDup(s: seq<int>, x: int)
    requires x in s && NoDup(s)
    ensures NoDup(RemoveFirst(s, x))
    ensures forall y :: y in RemoveFirst(s, x) <==> y in s && y != x
  {
    assert s == [s[0]] + s[1..];
    if s[0] != x {
      assert NoDup(s[1..]);
      RemoveFirstNoDup(s[1..], x);
      var t := RemoveFirst(s[1..], x);
      assert RemoveFirst(s, x) == [s[0]] + t;
      assert s[0] !in t;
      forall i, j | 0 <= i < j < |[s[0]] + t|
        ensures ([s[0]] + t)[i] != ([s[0]] + t)[j]
      {
        if i > 0 {
          assert ([s[0]] + t)[i] == t[i - 1];
        }
        assert ([s[0]] + t)[j] == t[j - 1];
      }
    }
  }

  /** Removing what was just appended gives the list back. */
  lemma {:induction false} RemoveFirstAppended(s: seq<int>, x: int)
    requires x !in s
    ensures RemoveFirst(s + [x], x) == s
  {
    if s != [] {
      assert (s + [x])[0] == s[0];
      assert (s + [x])[1..] == s[1..] + [x];
      RemoveFirstAppended(s[1..], x);
    }
  }

  /** The elements common to both lists, each once. The source builds a Python
      set, so the order of the result is not observable; this one keeps the
      order of `xs`. */
  function Intersect(xs: seq<int>, ys: seq<int>): (r: seq<int>)
    ensures NoDup(r)
    ensures forall z :: z in r <==> z in xs && z in ys
  {
    if xs == [] then []
    else
      var rest := Intersect(xs[1..], ys);
      assert forall z :: z in xs <==> z == xs[0] || z in xs[1..] by {
        assert xs == [xs[0]] + xs[1..];
      }
      if xs[0] in ys && xs[0] !in xs[1..] then [xs[0]] + rest else rest
  }

  /** The number of distinct values in a duplicate-free list is its length. */
  lemma {:induction false} NoDupCard(s: seq<int>)
    requires NoDup(s)
    ensures |set x | x in s| == |s|
  {
    if s != [] {
      var t := s[..|s| - 1];
      assert s == t + [s[|s| - 1]];
      assert NoDup(t);
      NoDupCard(t);
      assert (set x | x in s) == (set x | x in t) + {s[|s| - 1]};
      assert s[|s| - 1] !in t;
    }
  }
}
