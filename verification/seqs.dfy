/** Sequence helpers standing in for pandas boolean masks, `unique()` and `groupby`. */
module Seqs {

  /** The elements of `s` satisfying `p`, in their original order (a boolean mask). */
  function Filter<T(!new)>(s: seq<T>, p: T -> bool): (r: seq<T>)
    ensures |r| <= |s|
    ensures forall x :: x in r <==> x in s && p(x)
    ensures forall i :: 0 <= i < |r| ==> p(r[i])
  {
    if |s| == 0 then []
    else Filter(s[..|s| - 1], p) + (if p(s[|s| - 1]) then [s[|s| - 1]] else [])
  }

  /**
   * A mask distributes over concatenation. Together with the membership
   * clause of `Filter` (at most one element kept from a one-element frame)
   * this fixes the result: the kept elements, in frame order.
   */
  lemma {:induction false} FilterConcat<T(!new)>(a: seq<T>, b: seq<T>, p: T -> bool)
    ensures Filter(a + b, p) == Filter(a, p) + Filter(b, p)
  {
    if |b| == 0 {
      assert a + b == a;
    } else {
      var b' := b[..|b| - 1];
      assert (a + b)[..|a + b| - 1] == a + b';
      assert (a + b)[|a + b| - 1] == b[|b| - 1];
      FilterConcat(a, b', p);
    }
  }

  /** The key of every element, in order (a column of a frame). */
  function Project<T, K>(s: seq<T>, key: T -> K): (r: seq<K>)
    ensures |r| == |s|
    ensures forall i :: 0 <= i < |s| ==> r[i] == key(s[i])
  {
    seq(|s|, i requires 0 <= i < |s| => key(s[i]))
  }

  predicate NoDuplicates<T(==)>(s: seq<T>) {
    forall i, j :: 0 <= i < j < |s| ==> s[i] != s[j]
  }

  /** The distinct elements of `s` in order of first appearance, as pandas `unique()` returns them. */
  function Distinct<T(==,!new)>(s: seq<T>): (d: seq<T>)
    ensures NoDuplicates(d)
    ensures forall x :: x in d <==> x in s
  {
    if |s| == 0 then []
    else
      var d := Distinct(s[..|s| - 1]);
      if s[|s| - 1] in d then d else d + [s[|s| - 1]]
  }

  /** The index of the first occurrence of `x` in `s`. */
  function FirstIndex<T(==)>(s: seq<T>, x: T): (i: nat)
    requires x in s
    ensures i < |s| && s[i] == x
    ensures forall j :: 0 <= j < i ==> s[j] != x
  {
    if s[0] == x then 0 else 1 + FirstIndex(s[1..], x)
  }

  /** A first occurrence is not moved by appending. */
  lemma FirstIndexSnoc<T>(s: seq<T>, y: T, x: T)
    requires x in s
    ensures FirstIndex(s + [y], x) == FirstIndex(s, x)
  {
    var i := FirstIndex(s, x);
    var k := FirstIndex(s + [y], x);
    assert (s + [y])[i] == x;
    assert k <= i;
  }

  /**
   * `unique()` lists values in order of first appearance: of two listed
   * values, the one listed first occurs first in `s`.
   */
  lemma {:induction false} DistinctFirstAppearance<T(!new)>(s: seq<T>)
    ensures forall i, j :: 0 <= i < j < |Distinct(s)| ==>
      FirstIndex(s, Distinct(s)[i]) < FirstIndex(s, Distinct(s)[j])
  {
    if |s| > 0 {
      var init, x := s[..|s| - 1], s[|s| - 1];
      assert s == init + [x];
      var d := Distinct(init);
      DistinctFirstAppearance(init);
      forall e | e in d
        ensures FirstIndex(s, e) == FirstIndex(init, e) < |init|
      {
        FirstIndexSnoc(init, x, e);
      }
      if x !in d {
        assert x !in init;
        assert FirstIndex(s, x) == |init|;
        forall i, j | 0 <= i < j < |Distinct(s)|
          ensures FirstIndex(s, Distinct(s)[i]) < FirstIndex(s, Distinct(s)[j])
        {
          assert Distinct(s) == d + [x];
          assert Distinct(s)[i] in d;
        }
      }
    }
  }

  /** How often `x` occurs in `s`. */
  function Count<T(==)>(s: seq<T>, x: T): nat {
    if |s| == 0 then 0
    else Count(s[..|s| - 1], x) + (if s[|s| - 1] == x then 1 else 0)
  }

  /** The total number of occurrences in `s` of the keys listed in `ks`. */
  function CountSum<T(==)>(s: seq<T>, ks: seq<T>): nat {
    if |ks| == 0 then 0
    else CountSum(s, ks[..|ks| - 1]) + Count(s, ks[|ks| - 1])
  }

  lemma {:induction false} CountAbsent<T>(s: seq<T>, x: T)
    requires x !in s
    ensures Count(s, x) == 0
  {
    if |s| > 0 {
      assert s[..|s| - 1] <= s;
      CountAbsent(s[..|s| - 1], x);
    }
  }

  lemma {:induction false} CountUnique<T>(s: seq<T>, x: T)
    requires NoDuplicates(s)
    requires x in s
    ensures Count(s, x) == 1
  {
    var init := s[..|s| - 1];
    if s[|s| - 1] == x {
      assert x !in init;
      CountAbsent(init, x);
    } else {
      assert x in init;
      CountUnique(init, x);
    }
  }

  /** Appending `x` to `s` adds, over keys `ks`, one count per listing of `x` in `ks`. */
  lemma {:induction false} CountSumSnoc<T>(s: seq<T>, x: T, ks: seq<T>)
    ensures CountSum(s + [x], ks) == CountSum(s, ks) + Count(ks, x)
  {
    assert (s + [x])[..|s|] == s;
    if |ks| > 0 {
      CountSumSnoc(s, x, ks[..|ks| - 1]);
    }
  }

  /**
   * Grouping by distinct key covers every element exactly once: the group
   * sizes over `Distinct(s)` add up to `|s|`.
   */
  lemma {:induction false} DistinctPartition<T(!new)>(s: seq<T>)
    ensures CountSum(s, Distinct(s)) == |s|
  {
    if |s| > 0 {
      var init, x := s[..|s| - 1], s[|s| - 1];
      assert s == init + [x];
      var d := Distinct(init);
      DistinctPartition(init);
      CountSumSnoc(init, x, d);
      if x in d {
        CountUnique(d, x);
      } else {
        CountAbsent(d, x);
        assert x !in init;
        CountAbsent(init, x);
        assert (d + [x])[..|d|] == d;
      }
    }
  }

  /** The group of key `k` has as many elements as `k` has occurrences among the keys. */
  lemma {:induction false} GroupSize<T(!new), K>(s: seq<T>, key: T -> K, k: K)
    ensures |Group(s, key, k)| == Count(Project(s, key), k)
  {
    if |s| > 0 {
      GroupSize(s[..|s| - 1], key, k);
      assert Project(s, key)[..|s| - 1] == Project(s[..|s| - 1], key);
    }
  }

  /** The elements of `s` whose key is `k`, in order (`df[df[col] == k]`). */
  function Group<T(!new), K(==)>(s: seq<T>, key: T -> K, k: K): (g: seq<T>)
    ensures forall x :: x in g <==> x in s && key(x) == k
  {
    if |s| == 0 then []
    else Group(s[..|s| - 1], key, k) + (if key(s[|s| - 1]) == k then [s[|s| - 1]] else [])
  }

  /** Grouping distributes over concatenation, so a group keeps frame order. */
  lemma {:induction false} GroupConcat<T(!new), K>(a: seq<T>, b: seq<T>, key: T -> K, k: K)
    ensures Group(a + b, key, k) == Group(a, key, k) + Group(b, key, k)
  {
    if |b| == 0 {
      assert a + b == a;
    } else {
      var b' := b[..|b| - 1];
      assert (a + b)[..|a + b| - 1] == a + b';
      assert (a + b)[|a + b| - 1] == b[|b| - 1];
      GroupConcat(a, b', key, k);
    }
  }

  /** Every key listed in `s` has a non-empty group. */
  lemma GroupNonEmpty<T(!new), K>(s: seq<T>, key: T -> K, k: K)
    requires k in Project(s, key)
    ensures |Group(s, key, k)| > 0
  {
    var i :| 0 <= i < |s| && Project(s, key)[i] == k;
    assert s[i] in Group(s, key, k);
  }
}
