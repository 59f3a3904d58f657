/**
 * The whole LSD radix sort as a value: `k` counting-sort passes from the
 * least significant digit up, the maximum the number of passes is derived
 * from, and the theorems that the result is the sorted permutation of the
 * input.
 */
module Lsd {
  import opened Digits
  import opened CountingSort

  /** The sequence after passes 0 .. k-1. */
  function LsdSort(s: seq<u32>, k: nat): seq<u32>
  {
    if k == 0 then s else Pass(LsdSort(s, k - 1), k - 1)
  }

  /** Ascending order. */
  ghost predicate Sorted(t: seq<u32>)
  {
    forall a, b :: 0 <= a < b < |t| ==> t[a] <= t[b]
  }

  /** The maximum of `s` as a left-to-right scan starting from 0 finds it. */
  function MaxOf(s: seq<u32>): u32
  {
    if s == [] then 0
    else
      var m := MaxOf(s[..|s| - 1]);
      if s[|s| - 1] > m then s[|s| - 1] else m
  }

  /** `MaxOf` bounds every element, and is one of them unless `s` is empty. */
  lemma {:induction false} MaxOfIsMaximum(s: seq<u32>)
    ensures forall x :: x in s ==> x <= MaxOf(s)
    ensures s != [] ==> MaxOf(s) in s
    ensures s == [] ==> MaxOf(s) == 0
  {
    if s != [] {
      var init := s[..|s| - 1];
      MaxOfIsMaximum(init);
      assert s == init + [s[|s| - 1]];
    }
  }

  /** Every pass only permutes. */
  lemma {:induction false} LsdSortPermutes(s: seq<u32>, k: nat)
    ensures multiset(LsdSort(s, k)) == multiset(s)
    ensures |LsdSort(s, k)| == |s|
  {
    if k > 0 {
      var prev := LsdSort(s, k - 1);
      assert LsdSort(s, k) == Pass(prev, k - 1);
      LsdSortPermutes(s, k - 1);
      PassPermutes(prev, k - 1);
    }
  }

  /** After `k` passes the sequence is ordered by its `k` lowest digits. */
  lemma {:induction false} LsdSortSortedOnLow(s: seq<u32>, k: nat)
    ensures SortedOnLow(LsdSort(s, k), k)
  {
    if k == 0 {
      assert Pow10(0) == 1;
    } else {
      LsdSortSortedOnLow(s, k - 1);
      PassSortsOneMoreDigit(LsdSort(s, k - 1), k - 1);
    }
  }

  /** Key order on `m` digits is value order once every value is below 10^m. */
  lemma SortedOnLowSmall(t: seq<u32>, m: nat)
    requires SortedOnLow(t, m)
    requires forall x :: x in t ==> x < Pow10(m)
    ensures Sorted(t)
  {
    forall a, b | 0 <= a < b < |t|
      ensures t[a] <= t[b]
    {
      assert t[a] in t && t[b] in t;
      KeyOfSmall(t[a], m);
      KeyOfSmall(t[b], m);
    }
  }

  /**
   * With at least as many passes as the maximum has digits, the result is
   * the input in ascending order.
   */
  lemma LsdSortSorts(s: seq<u32>, k: nat)
    requires DecimalWidth(MaxOf(s)) <= k
    ensures Sorted(LsdSort(s, k))
    ensures multiset(LsdSort(s, k)) == multiset(s)
  {
    var r := LsdSort(s, k);
    var max := MaxOf(s);
    MaxOfIsMaximum(s);
    DecimalWidthBounds(max);
    Pow10Monotone(DecimalWidth(max), k);
    assert max < Pow10(k);
    LsdSortPermutes(s, k);
    LsdSortSortedOnLow(s, k);
    forall x | x in r
      ensures x < Pow10(k)
    {
      assert x in multiset(r);
      assert x in multiset(s);
      assert x in s;
    }
    SortedOnLowSmall(r, k);
  }

  /** The first element of a sorted sequence is its least. */
  lemma SortedHead(a: seq<u32>, x: u32)
    requires Sorted(a) && x in multiset(a)
    ensures a[0] <= x
  {
    var k :| 0 <= k < |a| && a[k] == x;
    assert a[0] <= a[k];
  }

  /** Two sorted arrangements of one multiset start with the same element. */
  lemma SortedSameHead(a: seq<u32>, b: seq<u32>)
    requires Sorted(a) && Sorted(b) && multiset(a) == multiset(b) && a != [] && b != []
    ensures a[0] == b[0]
  {
    assert a[0] in multiset(b) && b[0] in multiset(a);
    SortedHead(a, b[0]);
    SortedHead(b, a[0]);
  }

  /** Removing equal heads leaves equal multisets. */
  lemma SameTails(a: seq<u32>, b: seq<u32>)
    requires multiset(a) == multiset(b) && a != [] && b != [] && a[0] == b[0]
    ensures multiset(a[1..]) == multiset(b[1..])
  {
    assert a == [a[0]] + a[1..] && b == [b[0]] + b[1..];
    assert multiset(a) == multiset{a[0]} + multiset(a[1..]);
    assert multiset(b) == multiset{b[0]} + multiset(b[1..]);
    assert multiset(a[1..]) == multiset(a) - multiset{a[0]};
    assert multiset(b[1..]) == multiset(b) - multiset{b[0]};
  }

  lemma SortedTail(a: seq<u32>)
    requires Sorted(a) && a != []
    ensures Sorted(a[1..])
  {
    forall x, y | 0 <= x < y < |a[1..]|
      ensures a[1..][x] <= a[1..][y]
    {
      assert a[1..][x] == a[x + 1] && a[1..][y] == a[y + 1];
    }
  }

  /** There is one sorted arrangement of a multiset. */
  lemma {:induction false} SortedUnique(a: seq<u32>, b: seq<u32>)
    requires Sorted(a) && Sorted(b) && multiset(a) == multiset(b)
    ensures a == b
    decreases |a|
  {
    assert |a| == |multiset(a)| == |multiset(b)| == |b|;
    if a != [] {
      SortedSameHead(a, b);
      SameTails(a, b);
      SortedTail(a);
      SortedTail(b);
      SortedUnique(a[1..], b[1..]);
      assert a == [a[0]] + a[1..] && b == [b[0]] + b[1..];
    }
  }

  /** Sorting an already sorted sequence leaves it as it was. */
  lemma LsdSortIdempotent(s: seq<u32>, k: nat)
    requires Sorted(s) && DecimalWidth(MaxOf(s)) <= k
    ensures LsdSort(s, k) == s
  {
    LsdSortSorts(s, k);
    SortedUnique(LsdSort(s, k), s);
  }

  /**
   * Any two sufficient pass counts give the same output; in particular the
   * serial and the parallel sort agree on every input.
   */
  lemma LsdSortPassesAgree(s: seq<u32>, k1: nat, k2: nat)
    requires DecimalWidth(MaxOf(s)) <= k1 && DecimalWidth(MaxOf(s)) <= k2
    ensures LsdSort(s, k1) == LsdSort(s, k2)
  {
    LsdSortSorts(s, k1);
    LsdSortSorts(s, k2);
    SortedUnique(LsdSort(s, k1), LsdSort(s, k2));
  }
}
