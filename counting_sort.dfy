/**
 * One pass of the LSD radix sort as a value: the stable counting sort of a
 * sequence on digit `j`. `WithDigit` is one bucket, `Below` the elements
 * that go before a bucket, `Arrange` the first buckets laid end to end, and
 * `Pass` all ten of them.
 */
module CountingSort {
  import opened Digits

  /** The elements of `s` whose digit `j` is `d`, in their order in `s`. */
  function WithDigit(s: seq<u32>, j: nat, d: int): (r: seq<u32>)
    ensures |r| <= |s|
  {
    if s == [] then []
    else (if Digit(s[0], j) == d then [s[0]] else []) + WithDigit(s[1..], j, d)
  }

  /** The elements of `s` whose digit `j` is below `d`, in their order in `s`. */
  function Below(s: seq<u32>, j: nat, d: int): (r: seq<u32>)
    ensures |r| <= |s|
  {
    if s == [] then []
    else (if Digit(s[0], j) < d then [s[0]] else []) + Below(s[1..], j, d)
  }

  /** The buckets of digits 0 .. d-1 of `s`, one after the other. */
  function Arrange(s: seq<u32>, j: nat, d: nat): seq<u32>
    requires d <= DigitsAmount
  {
    if d == 0 then [] else Arrange(s, j, d - 1) + WithDigit(s, j, d - 1)
  }

  /** The result of one counting-sort pass on digit `j`. */
  function Pass(s: seq<u32>, j: nat): seq<u32>
  {
    Arrange(s, j, DigitsAmount)
  }

  /** Every digit of `t` at position `j` is no larger than the digits after it. */
  ghost predicate DigitOrdered(t: seq<u32>, j: nat)
  {
    forall a, b :: 0 <= a < b < |t| ==> Digit(t[a], j) <= Digit(t[b], j)
  }

  /** `t` is ordered by the key of its `m` least significant digits. */
  ghost predicate SortedOnLow(t: seq<u32>, m: nat)
  {
    forall a, b :: 0 <= a < b < |t| ==> Key(t[a], m) <= Key(t[b], m)
  }

  /** Every digit `j` in `t` is below `c`. */
  ghost predicate DigitsBelow(t: seq<u32>, j: nat, c: int)
  {
    forall i :: 0 <= i < |t| ==> Digit(t[i], j) < c
  }

  /** Every digit `j` in `t` is `c`. */
  ghost predicate DigitsAre(t: seq<u32>, j: nat, c: int)
  {
    forall i :: 0 <= i < |t| ==> Digit(t[i], j) == c
  }

  /** Every key of `m` digits in `t` is at least `lo`. */
  ghost predicate KeysAtLeast(t: seq<u32>, m: nat, lo: int)
  {
    forall i :: 0 <= i < |t| ==> lo <= Key(t[i], m)
  }

  // ---------------------------------------------------------------------
  // Buckets

  /** Taking a bucket distributes over concatenation. */
  lemma {:induction false} WithDigitAppend(a: seq<u32>, b: seq<u32>, j: nat, d: int)
    ensures WithDigit(a + b, j, d) == WithDigit(a, j, d) + WithDigit(b, j, d)
  {
    if a == [] {
      assert a + b == b;
    } else {
      var head := if Digit(a[0], j) == d then [a[0]] else [];
      assert (a + b)[0] == a[0];
      assert (a + b)[1..] == a[1..] + b;
      WithDigitAppend(a[1..], b, j, d);
      assert WithDigit(a + b, j, d) == head + WithDigit(a[1..] + b, j, d);
      assert WithDigit(a, j, d) == head + WithDigit(a[1..], j, d);
    }
  }

  /** Growing a prefix by one element adds it to its bucket only. */
  lemma WithDigitSnoc(s: seq<u32>, i: nat, j: nat, d: int)
    requires i < |s|
    ensures |WithDigit(s[..i + 1], j, d)| ==
            |WithDigit(s[..i], j, d)| + (if Digit(s[i], j) == d then 1 else 0)
  {
    assert s[..i + 1] == s[..i] + [s[i]];
    WithDigitAppend(s[..i], [s[i]], j, d);
  }

  /** Every element of bucket `d` has digit `d`. */
  lemma {:induction false} WithDigitDigits(s: seq<u32>, j: nat, d: int)
    ensures DigitsAre(WithDigit(s, j, d), j, d)
  {
    if s != [] {
      var head, rest := if Digit(s[0], j) == d then [s[0]] else [], WithDigit(s[1..], j, d);
      WithDigitDigits(s[1..], j, d);
      forall i | 0 <= i < |head + rest|
        ensures Digit((head + rest)[i], j) == d
      {
        if i >= |head| {
          assert (head + rest)[i] == rest[i - |head|];
        }
      }
    }
  }

  /** A bucket keeps a lower bound on the keys. */
  lemma {:induction false} WithDigitKeysAtLeast(s: seq<u32>, j: nat, d: int, m: nat, lo: int)
    requires KeysAtLeast(s, m, lo)
    ensures KeysAtLeast(WithDigit(s, j, d), m, lo)
  {
    if s != [] {
      var head, rest := if Digit(s[0], j) == d then [s[0]] else [], WithDigit(s[1..], j, d);
      assert KeysAtLeast(s[1..], m, lo) by {
        forall i | 0 <= i < |s[1..]|
          ensures lo <= Key(s[1..][i], m)
        {
          assert s[1..][i] == s[i + 1];
        }
      }
      WithDigitKeysAtLeast(s[1..], j, d, m, lo);
      forall i | 0 <= i < |head + rest|
        ensures lo <= Key((head + rest)[i], m)
      {
        if i >= |head| {
          assert (head + rest)[i] == rest[i - |head|];
        }
      }
    }
  }

  /** Taking a bucket twice changes nothing. */
  lemma {:induction false} WithDigitSame(s: seq<u32>, j: nat, d: int)
    ensures WithDigit(WithDigit(s, j, d), j, d) == WithDigit(s, j, d)
  {
    if s != [] {
      var head := if Digit(s[0], j) == d then [s[0]] else [];
      WithDigitAppend(head, WithDigit(s[1..], j, d), j, d);
      WithDigitSame(s[1..], j, d);
    }
  }

  /** A bucket has nothing for another digit. */
  lemma {:induction false} WithDigitOther(s: seq<u32>, j: nat, e: int, d: int)
    requires e != d
    ensures WithDigit(WithDigit(s, j, e), j, d) == []
  {
    if s != [] {
      var head := if Digit(s[0], j) == e then [s[0]] else [];
      WithDigitAppend(head, WithDigit(s[1..], j, e), j, d);
      WithDigitOther(s[1..], j, e, d);
    }
  }

  // ---------------------------------------------------------------------
  // Occurrences

  /** How often `x` occurs in `s`. */
  function Occurrences(s: seq<u32>, x: u32): nat
  {
    if s == [] then 0 else (if s[0] == x then 1 else 0) + Occurrences(s[1..], x)
  }

  /** `Occurrences` is the multiplicity in the multiset of `s`. */
  lemma {:induction false} OccurrencesMultiset(s: seq<u32>, x: u32)
    ensures Occurrences(s, x) == multiset(s)[x]
  {
    if s != [] {
      OccurrencesMultiset(s[1..], x);
      assert s == [s[0]] + s[1..];
      assert multiset(s) == multiset{s[0]} + multiset(s[1..]);
    }
  }

  lemma {:induction false} OccurrencesAppend(a: seq<u32>, b: seq<u32>, x: u32)
    ensures Occurrences(a + b, x) == Occurrences(a, x) + Occurrences(b, x)
  {
    if a == [] {
      assert a + b == b;
    } else {
      OccurrencesAppend(a[1..], b, x);
      assert (a + b)[1..] == a[1..] + b;
    }
  }

  /** A bucket holds every copy in `s` of a value with its digit. */
  lemma {:induction false} WithDigitCountSame(s: seq<u32>, j: nat, x: u32)
    ensures Occurrences(WithDigit(s, j, Digit(x, j)), x) == Occurrences(s, x)
  {
    if s != [] {
      var head := if Digit(s[0], j) == Digit(x, j) then [s[0]] else [];
      WithDigitCountSame(s[1..], j, x);
      assert s == [s[0]] + s[1..];
      OccurrencesAppend([s[0]], s[1..], x);
      OccurrencesAppend(head, WithDigit(s[1..], j, Digit(x, j)), x);
    }
  }

  /** A bucket holds no copy of a value with another digit. */
  lemma {:induction false} WithDigitCountOther(s: seq<u32>, j: nat, d: int, x: u32)
    requires Digit(x, j) != d
    ensures Occurrences(WithDigit(s, j, d), x) == 0
  {
    if s != [] {
      var head := if Digit(s[0], j) == d then [s[0]] else [];
      WithDigitCountOther(s[1..], j, d, x);
      OccurrencesAppend(head, WithDigit(s[1..], j, d), x);
    }
  }

  /**
   * A permutation does not change the digit counts: this is why a histogram
   * taken once, from the original array, still fits every later pass.
   */
  lemma CountsOfPermutation(a: seq<u32>, b: seq<u32>, j: nat, d: int)
    requires multiset(a) == multiset(b)
    ensures |WithDigit(a, j, d)| == |WithDigit(b, j, d)|
  {
    var wa, wb := WithDigit(a, j, d), WithDigit(b, j, d);
    var ma: multiset<u32>, mb: multiset<u32> := multiset(wa), multiset(wb);
    forall x: u32
      ensures ma[x] == mb[x]
    {
      OccurrencesMultiset(wa, x);
      OccurrencesMultiset(wb, x);
      if Digit(x, j) == d {
        WithDigitCountSame(a, j, x);
        WithDigitCountSame(b, j, x);
        OccurrencesMultiset(a, x);
        OccurrencesMultiset(b, x);
      } else {
        WithDigitCountOther(a, j, d, x);
        WithDigitCountOther(b, j, d, x);
      }
    }
    assert ma == mb;
    assert |ma| == |wa| && |mb| == |wb|;
  }


  /** The tail of a sequence sorted on `m` digits is sorted, with keys no smaller than the head's. */
  lemma SortedOnLowTail(s: seq<u32>, m: nat)
    requires s != [] && SortedOnLow(s, m)
    ensures SortedOnLow(s[1..], m) && KeysAtLeast(s[1..], m, Key(s[0], m))
  {
    forall a, b | 0 <= a < b < |s[1..]|
      ensures Key(s[1..][a], m) <= Key(s[1..][b], m)
    {
      assert s[1..][a] == s[a + 1] && s[1..][b] == s[b + 1];
    }
    forall i | 0 <= i < |s[1..]|
      ensures Key(s[0], m) <= Key(s[1..][i], m)
    {
      assert s[1..][i] == s[i + 1];
    }
  }

  /** A head with a key no larger than any in a sorted tail keeps the sequence sorted. */
  lemma SortedOnLowCons(head: seq<u32>, rest: seq<u32>, x: u32, m: nat)
    requires head == [] || head == [x]
    requires SortedOnLow(rest, m) && KeysAtLeast(rest, m, Key(x, m))
    ensures SortedOnLow(head + rest, m)
  {
    if head == [] {
      assert head + rest == rest;
    } else {
      var t := head + rest;
      forall a, b | 0 <= a < b < |t|
        ensures Key(t[a], m) <= Key(t[b], m)
      {
        assert t[b] == rest[b - 1];
        if a == 0 {
          assert t[a] == x;
        } else {
          assert t[a] == rest[a - 1];
        }
      }
    }
  }

  /** A bucket of a sequence sorted on its low digits is sorted on them too. */
  lemma {:induction false} WithDigitSorted(s: seq<u32>, j: nat, d: int, m: nat)
    requires SortedOnLow(s, m)
    ensures SortedOnLow(WithDigit(s, j, d), m)
  {
    if s != [] {
      var head, rest := if Digit(s[0], j) == d then [s[0]] else [], WithDigit(s[1..], j, d);
      SortedOnLowTail(s, m);
      WithDigitSorted(s[1..], j, d, m);
      WithDigitKeysAtLeast(s[1..], j, d, m, Key(s[0], m));
      SortedOnLowCons(head, rest, s[0], m);
    }
  }

  // ---------------------------------------------------------------------
  // Cumulative counts

  /** The count below digit `d + 1` is the count below `d` plus the size of bucket `d`. */
  lemma {:induction false} BelowStepSize(s: seq<u32>, j: nat, d: int)
    ensures |Below(s, j, d + 1)| == |Below(s, j, d)| + |WithDigit(s, j, d)|
  {
    if s != [] {
      BelowStepSize(s[1..], j, d);
    }
  }

  /** No element has a digit below 0, and every element has one below 10. */
  lemma {:induction false} BelowEnds(s: seq<u32>, j: nat)
    ensures Below(s, j, 0) == []
    ensures Below(s, j, DigitsAmount) == s
  {
    if s != [] {
      BelowEnds(s[1..], j);
    }
  }

  /** Fewer digits admitted, no more elements below. */
  lemma {:induction false} BelowMonotone(s: seq<u32>, j: nat, d: int, e: int)
    requires d <= e
    ensures |Below(s, j, d)| <= |Below(s, j, e)|
  {
    if s != [] {
      BelowMonotone(s[1..], j, d, e);
    }
  }

  /** The cumulative counts, like the bucket counts, survive a permutation. */
  lemma {:induction false} BelowOfPermutation(a: seq<u32>, b: seq<u32>, j: nat, d: nat)
    requires multiset(a) == multiset(b) && d <= DigitsAmount
    ensures |Below(a, j, d)| == |Below(b, j, d)|
  {
    if d == 0 {
      BelowEnds(a, j);
      BelowEnds(b, j);
    } else {
      BelowOfPermutation(a, b, j, d - 1);
      BelowStepSize(a, j, d - 1);
      BelowStepSize(b, j, d - 1);
      CountsOfPermutation(a, b, j, d - 1);
    }
  }

  /** The sum of the entries of `h`. */
  function Total(h: seq<int>): int
  {
    if h == [] then 0 else Total(h[..|h| - 1]) + h[|h| - 1]
  }

  lemma {:induction false} TotalOfCounts(s: seq<u32>, j: nat, h: seq<int>, d: nat)
    requires |h| == DigitsAmount && d <= DigitsAmount
    requires forall e :: 0 <= e < DigitsAmount ==> h[e] == |WithDigit(s, j, e)|
    ensures Total(h[..d]) == |Below(s, j, d)|
  {
    if d == 0 {
      BelowEnds(s, j);
    } else {
      TotalOfCounts(s, j, h, d - 1);
      assert h[..d][..d - 1] == h[..d - 1];
      BelowStepSize(s, j, d - 1);
    }
  }

  /** The ten bucket counts of a pass add up to the length of the sequence. */
  lemma CountsTotal(s: seq<u32>, j: nat, h: seq<int>)
    requires |h| == DigitsAmount
    requires forall e :: 0 <= e < DigitsAmount ==> h[e] == |WithDigit(s, j, e)|
    ensures Total(h) == |s|
  {
    TotalOfCounts(s, j, h, DigitsAmount);
    BelowEnds(s, j);
    assert h[..DigitsAmount] == h;
  }

  // ---------------------------------------------------------------------
  // The pass

  /** Occurrences in the first `d` buckets are those in the first `d - 1` plus those in bucket `d - 1`. */
  lemma ArrangeOccurrences(s: seq<u32>, j: nat, d: nat, x: u32)
    requires 0 < d <= DigitsAmount
    ensures Occurrences(Arrange(s, j, d), x) ==
            Occurrences(Arrange(s, j, d - 1), x) + Occurrences(WithDigit(s, j, d - 1), x)
  {
    OccurrencesAppend(Arrange(s, j, d - 1), WithDigit(s, j, d - 1), x);
  }

  /** The buckets of digits below `d` hold no copy of a value whose digit is `d` or more. */
  lemma {:induction false} ArrangeCountAbove(s: seq<u32>, j: nat, d: nat, x: u32)
    requires d <= DigitsAmount && d <= Digit(x, j)
    ensures Occurrences(Arrange(s, j, d), x) == 0
  {
    if d > 0 {
      ArrangeOccurrences(s, j, d, x);
      ArrangeCountAbove(s, j, d - 1, x);
      WithDigitCountOther(s, j, d - 1, x);
    }
  }

  /** The buckets of digits below `d` hold every copy of a value whose digit is below `d`. */
  lemma {:induction false} ArrangeCountBelow(s: seq<u32>, j: nat, d: nat, x: u32)
    requires d <= DigitsAmount && Digit(x, j) < d
    ensures Occurrences(Arrange(s, j, d), x) == Occurrences(s, x)
  {
    ArrangeOccurrences(s, j, d, x);
    if Digit(x, j) == d - 1 {
      ArrangeCountAbove(s, j, d - 1, x);
      WithDigitCountSame(s, j, x);
    } else {
      ArrangeCountBelow(s, j, d - 1, x);
      WithDigitCountOther(s, j, d - 1, x);
    }
  }

  /** A pass only rearranges its input. */
  lemma PassPermutes(s: seq<u32>, j: nat)
    ensures multiset(Pass(s, j)) == multiset(s)
    ensures |Pass(s, j)| == |s|
  {
    forall x: u32
      ensures multiset(Pass(s, j))[x] == multiset(s)[x]
    {
      ArrangeCountBelow(s, j, DigitsAmount, x);
      OccurrencesMultiset(Pass(s, j), x);
      OccurrencesMultiset(s, x);
    }
    assert multiset(Pass(s, j)) == multiset(s);
    assert |multiset(Pass(s, j))| == |Pass(s, j)|;
  }

  /** The first `d` buckets hold only elements whose digit is below `d`. */
  lemma {:induction false} ArrangeDigits(s: seq<u32>, j: nat, d: nat)
    requires d <= DigitsAmount
    ensures DigitsBelow(Arrange(s, j, d), j, d)
  {
    if d > 0 {
      var front, bucket := Arrange(s, j, d - 1), WithDigit(s, j, d - 1);
      ArrangeDigits(s, j, d - 1);
      WithDigitDigits(s, j, d - 1);
      forall i | 0 <= i < |front + bucket|
        ensures Digit((front + bucket)[i], j) < d
      {
        if i < |front| {
          assert (front + bucket)[i] == front[i];
        } else {
          assert (front + bucket)[i] == bucket[i - |front|];
        }
      }
    }
  }

  /** Two runs ordered by digit `j`, all digits of the first below those of the second, stay ordered when joined. */
  lemma ConcatDigitOrdered(front: seq<u32>, back: seq<u32>, j: nat, c: int)
    requires DigitOrdered(front, j)
    requires DigitsBelow(front, j, c) && DigitsAre(back, j, c)
    ensures DigitOrdered(front + back, j)
  {
    var t := front + back;
    forall a, b | 0 <= a < b < |t|
      ensures Digit(t[a], j) <= Digit(t[b], j)
    {
      if b < |front| {
        assert t[a] == front[a] && t[b] == front[b];
      } else if a < |front| {
        assert t[a] == front[a] && t[b] == back[b - |front|];
      } else {
        assert t[a] == back[a - |front|] && t[b] == back[b - |front|];
      }
    }
  }

  lemma {:induction false} ArrangeDigitOrdered(s: seq<u32>, j: nat, d: nat)
    requires d <= DigitsAmount
    ensures DigitOrdered(Arrange(s, j, d), j)
  {
    if d > 0 {
      var front, bucket := Arrange(s, j, d - 1), WithDigit(s, j, d - 1);
      assert Arrange(s, j, d) == front + bucket;
      ArrangeDigitOrdered(s, j, d - 1);
      ArrangeDigits(s, j, d - 1);
      WithDigitDigits(s, j, d - 1);
      ConcatDigitOrdered(front, bucket, j, d - 1);
    }
  }

  /** A pass leaves the sequence ordered by digit `j`. */
  lemma PassDigitOrdered(s: seq<u32>, j: nat)
    ensures DigitOrdered(Pass(s, j), j)
  {
    ArrangeDigitOrdered(s, j, DigitsAmount);
  }

  /** The first `k` buckets hold nothing for a digit outside 0 .. k-1. */
  lemma {:induction false} ArrangeNoBucket(s: seq<u32>, j: nat, k: nat, d: int)
    requires k <= DigitsAmount && !(0 <= d < k)
    ensures WithDigit(Arrange(s, j, k), j, d) == []
  {
    if k > 0 {
      var front, bucket := Arrange(s, j, k - 1), WithDigit(s, j, k - 1);
      assert Arrange(s, j, k) == front + bucket;
      ArrangeNoBucket(s, j, k - 1, d);
      WithDigitAppend(front, bucket, j, d);
      WithDigitOther(s, j, k - 1, d);
    }
  }

  /** Bucket `d` of the first `k` buckets, for `d` below `k`, is bucket `d` of `s`. */
  lemma {:induction false} ArrangeBucket(s: seq<u32>, j: nat, k: nat, d: int)
    requires k <= DigitsAmount && 0 <= d < k
    ensures WithDigit(Arrange(s, j, k), j, d) == WithDigit(s, j, d)
  {
    var front, bucket := Arrange(s, j, k - 1), WithDigit(s, j, k - 1);
    assert Arrange(s, j, k) == front + bucket;
    WithDigitAppend(front, bucket, j, d);
    if d == k - 1 {
      ArrangeNoBucket(s, j, k - 1, d);
      WithDigitSame(s, j, d);
    } else {
      ArrangeBucket(s, j, k - 1, d);
      WithDigitOther(s, j, k - 1, d);
    }
  }

  /**
   * Stability: the elements with any one digit `d` come out of a pass in
   * the order they went in.
   */
  lemma PassStable(s: seq<u32>, j: nat, d: int)
    requires 0 <= d < DigitsAmount
    ensures WithDigit(Pass(s, j), j, d) == WithDigit(s, j, d)
  {
    ArrangeBucket(s, j, DigitsAmount, d);
  }

  /**
   * A run sorted on `j + 1` digits followed by a run sorted on `j` digits
   * whose digit `j` is above every digit `j` of the first is sorted on
   * `j + 1` digits.
   */
  lemma ConcatSortedOnLow(front: seq<u32>, back: seq<u32>, j: nat, c: int)
    requires SortedOnLow(front, j + 1) && SortedOnLow(back, j)
    requires DigitsBelow(front, j, c) && DigitsAre(back, j, c)
    ensures SortedOnLow(front + back, j + 1)
  {
    var t := front + back;
    forall a, b | 0 <= a < b < |t|
      ensures Key(t[a], j + 1) <= Key(t[b], j + 1)
    {
      if b < |front| {
        assert t[a] == front[a] && t[b] == front[b];
      } else if a < |front| {
        assert t[a] == front[a] && t[b] == back[b - |front|];
        KeyOrderByDigit(t[a], t[b], j);
      } else {
        assert t[a] == back[a - |front|] && t[b] == back[b - |front|];
        KeyOrderSameDigit(t[a], t[b], j);
      }
    }
  }

  lemma {:induction false} ArrangeSortedOnLow(s: seq<u32>, j: nat, d: nat)
    requires d <= DigitsAmount
    requires SortedOnLow(s, j)
    ensures SortedOnLow(Arrange(s, j, d), j + 1)
  {
    if d > 0 {
      ArrangeSortedOnLow(s, j, d - 1);
      ArrangeDigits(s, j, d - 1);
      WithDigitDigits(s, j, d - 1);
      WithDigitSorted(s, j, d - 1, j);
      ConcatSortedOnLow(Arrange(s, j, d - 1), WithDigit(s, j, d - 1), j, d - 1);
    }
  }

  /**
   * A pass on digit `j` of a sequence sorted on its `j` lowest digits
   * leaves it sorted on its `j + 1` lowest digits.
   */
  lemma PassSortsOneMoreDigit(s: seq<u32>, j: nat)
    requires SortedOnLow(s, j)
    ensures SortedOnLow(Pass(s, j), j + 1)
  {
    ArrangeSortedOnLow(s, j, DigitsAmount);
  }

  // ---------------------------------------------------------------------
  // Regions of the output

  /** Where the region of digit `d` starts in the output: the number of elements with a smaller digit. */
  function RegionStart(s: seq<u32>, j: nat, d: int): nat
  {
    |Below(s, j, d)|
  }

  /** Where the region of digit `d` ends: the number of elements whose digit is at most `d`. */
  function RegionEnd(s: seq<u32>, j: nat, d: int): nat
  {
    |Below(s, j, d + 1)|
  }

  /** The regions of the ten digits cover `[0, |s|)`, each as long as its bucket. */
  lemma RegionFacts(s: seq<u32>, j: nat)
    ensures RegionStart(s, j, 0) == 0 && RegionEnd(s, j, DigitsAmount - 1) == |s|
    ensures forall d :: RegionEnd(s, j, d) == RegionStart(s, j, d) + |WithDigit(s, j, d)|
  {
    BelowEnds(s, j);
    forall d
      ensures RegionEnd(s, j, d) == RegionStart(s, j, d) + |WithDigit(s, j, d)|
    {
      BelowStepSize(s, j, d);
    }
  }

  /** Region `d` ends no later than region `e` starts when `d < e`: the regions lie in digit order. */
  lemma RegionsOrdered(s: seq<u32>, j: nat, d: int, e: int)
    requires d < e
    ensures RegionEnd(s, j, d) <= RegionStart(s, j, e)
  {
    BelowMonotone(s, j, d + 1, e);
  }

  /** The running sums: region 0 ends after bucket 0, and each later region ends bucket `d` after the one before. */
  lemma RegionEndStep(s: seq<u32>, j: nat, d: int)
    ensures d == 0 ==> RegionEnd(s, j, d) == |WithDigit(s, j, 0)|
    ensures RegionEnd(s, j, d) == RegionEnd(s, j, d - 1) + |WithDigit(s, j, d)|
  {
    BelowEnds(s, j);
    BelowStepSize(s, j, d);
    assert (d - 1) + 1 == d;
  }

  /** Region ends never decrease with the digit. */
  lemma RegionEndMonotone(s: seq<u32>, j: nat, d: int, e: int)
    requires d <= e
    ensures RegionEnd(s, j, d) <= RegionEnd(s, j, e)
  {
    BelowMonotone(s, j, d + 1, e + 1);
  }

  /** The region of digit `d` in `t` holds bucket `d` of `s`. */
  ghost predicate RegionFilled(t: seq<u32>, s: seq<u32>, j: nat, d: int)
  {
    RegionStart(s, j, d) <= RegionEnd(s, j, d) <= |t| &&
    t[RegionStart(s, j, d)..RegionEnd(s, j, d)] == WithDigit(s, j, d)
  }

  /** A sequence whose every region holds its bucket of `s` is the pass of `s`. */
  lemma PassFromRegions(t: seq<u32>, s: seq<u32>, j: nat)
    requires |t| == |s|
    requires forall d :: 0 <= d < DigitsAmount ==> RegionFilled(t, s, j, d)
    ensures t == Pass(s, j)
  {
    BelowEnds(s, j);
    RegionsArrange(t, s, j, DigitsAmount);
  }

  lemma {:induction false} RegionsArrange(t: seq<u32>, s: seq<u32>, j: nat, d: nat)
    requires d <= DigitsAmount && |t| == |s|
    requires forall d :: 0 <= d < DigitsAmount ==> RegionFilled(t, s, j, d)
    ensures RegionStart(s, j, d) <= |t|
    ensures t[..RegionStart(s, j, d)] == Arrange(s, j, d)
  {
    BelowEnds(s, j);
    if d > 0 {
      RegionsArrange(t, s, j, d - 1);
      assert RegionFilled(t, s, j, d - 1);
      var lo, hi := RegionStart(s, j, d - 1), RegionEnd(s, j, d - 1);
      assert hi == RegionStart(s, j, d);
      assert t[..hi] == t[..lo] + t[lo..hi];
    }
  }

  // ---------------------------------------------------------------------
  // The right-to-left scatter

  /** The sequence facts behind one step of the right-to-left scatter, for bucket `d`. */
  lemma ScatterStep(s: seq<u32>, j: nat, i: nat, d: int)
    requires i < |s|
    ensures WithDigit(s[i..], j, d) ==
            (if Digit(s[i], j) == d then [s[i]] else []) + WithDigit(s[i + 1..], j, d)
  {
    assert s[i..][0] == s[i] && s[i..][1..] == s[i + 1..];
  }

  /** Each bucket of `s` is split by a cut at `i` into the parts on either side. */
  lemma SplitCounts(s: seq<u32>, j: nat, i: nat)
    requires i <= |s|
    ensures forall d :: |WithDigit(s[..i], j, d)| + |WithDigit(s[i..], j, d)| == |WithDigit(s, j, d)|
  {
    assert s == s[..i] + s[i..];
    forall d
      ensures |WithDigit(s[..i], j, d)| + |WithDigit(s[i..], j, d)| == |WithDigit(s, j, d)|
    {
      WithDigitAppend(s[..i], s[i..], j, d);
    }
  }

  /**
   * The counters of the scatter of `s` on digit `j` once the elements after
   * index `i` are placed: `b[d]` has come down from the end of region `d`
   * by the number of digit-`d` elements placed.
   */
  ghost predicate CountersAt(s: seq<u32>, j: nat, i: int, b: seq<int>)
  {
    && -1 <= i < |s| && |b| == DigitsAmount
    && (forall d :: 0 <= d < DigitsAmount ==>
          b[d] == RegionStart(s, j, d) + |WithDigit(s[..i + 1], j, d)|)
    && (forall d :: 0 <= d < DigitsAmount ==>
          b[d] + |WithDigit(s[i + 1..], j, d)| == RegionEnd(s, j, d))
  }

  /** The slots `lo .. hi-1` of `t` hold `xs`, in order. */
  ghost predicate SlotsHold(t: seq<u32>, lo: int, hi: int, xs: seq<u32>)
  {
    0 <= lo <= hi <= |t| && t[lo..hi] == xs
  }

  /** Storing `v` just below filled slots extends them by `v` at the front. */
  lemma StoreBelow(t: seq<u32>, lo: int, hi: int, xs: seq<u32>, v: u32)
    requires SlotsHold(t, lo, hi, xs) && 0 < lo
    ensures SlotsHold(t[lo - 1 := v], lo - 1, hi, [v] + xs)
  {
    var t' := t[lo - 1 := v];
    forall k | 0 <= k < hi - lo + 1
      ensures t'[lo - 1..hi][k] == ([v] + xs)[k]
    {
      if k > 0 {
        assert t'[lo - 1..hi][k] == t[lo..hi][k - 1];
      }
    }
  }

  /** Storing outside filled slots leaves them as they are. */
  lemma StoreOutside(t: seq<u32>, lo: int, hi: int, xs: seq<u32>, p: int, v: u32)
    requires SlotsHold(t, lo, hi, xs) && 0 <= p < |t| && (p < lo || hi <= p)
    ensures SlotsHold(t[p := v], lo, hi, xs)
  {
    var t' := t[p := v];
    forall k | 0 <= k < hi - lo
      ensures t'[lo..hi][k] == xs[k]
    {
      assert t'[lo..hi][k] == t[lo..hi][k];
    }
  }

  /**
   * The slots of `t` from `b[d]` to the end of region `d` hold the
   * digit-`d` elements after index `i`, in their order in `s`.
   */
  ghost predicate PlacedAt(t: seq<u32>, s: seq<u32>, j: nat, i: int, b: seq<int>)
    requires |b| == DigitsAmount && -1 <= i < |s|
  {
    && |t| == |s|
    && (forall d | 0 <= d < DigitsAmount ::
          SlotsHold(t, b[d], RegionEnd(s, j, d), WithDigit(s[i + 1..], j, d)))
  }

  /** The state of the scatter of `s` into `t` once the elements after index `i` are placed. */
  ghost predicate ScatterState(t: seq<u32>, s: seq<u32>, j: nat, i: int, b: seq<int>)
  {
    && CountersAt(s, j, i, b)
    && PlacedAt(t, s, j, i, b)
  }

  /** Before the scatter nothing is placed and the counters are the running sums. */
  lemma ScatterStart(t: seq<u32>, s: seq<u32>, j: nat, b: seq<int>)
    requires |t| == |s| && |b| == DigitsAmount
    requires forall d :: 0 <= d < DigitsAmount ==> b[d] == RegionEnd(s, j, d)
    ensures ScatterState(t, s, j, |s| - 1, b)
  {
    RegionFacts(s, j);
    SplitCounts(s, j, |s|);
    assert s[..|s|] == s;
    assert s[|s|..] == [];
    forall d | 0 <= d < DigitsAmount
      ensures SlotsHold(t, b[d], RegionEnd(s, j, d), WithDigit(s[|s|..], j, d))
    {
      RegionEndMonotone(s, j, d, DigitsAmount - 1);
    }
  }

  /**
   * One step on `s[i]`: the pre-decremented counter of its digit lies in the
   * region of that digit, so in `[0, |s|)`.
   */
  lemma CounterInRegion(s: seq<u32>, j: nat, i: int, b: seq<int>)
    requires CountersAt(s, j, i, b) && 0 <= i
    ensures RegionStart(s, j, Digit(s[i], j)) <= b[Digit(s[i], j)] - 1 < RegionEnd(s, j, Digit(s[i], j))
    ensures 0 <= b[Digit(s[i], j)] - 1 < |s|
  {
    RegionFacts(s, j);
    var d0 := Digit(s[i], j);
    ScatterStep(s, j, i, d0);
    WithDigitSnoc(s, i, j, d0);
    assert b[d0] == RegionStart(s, j, d0) + |WithDigit(s[..i + 1], j, d0)|;
    assert RegionEnd(s, j, d0) <= |s| by {
      if d0 < DigitsAmount - 1 {
        RegionsOrdered(s, j, d0, DigitsAmount - 1);
      }
    }
  }

  /** Decrementing the counter of the digit of `s[i]` accounts for `s[i]` as placed. */
  lemma CountersAdvance(s: seq<u32>, j: nat, i: int, b: seq<int>)
    requires CountersAt(s, j, i, b) && 0 <= i
    ensures CountersAt(s, j, i - 1, b[Digit(s[i], j) := b[Digit(s[i], j)] - 1])
  {
    var d0 := Digit(s[i], j);
    var b' := b[d0 := b[d0] - 1];
    var i' := i - 1;
    assert s[..i' + 1] == s[..i] && s[i' + 1..] == s[i..];
    forall d | 0 <= d < DigitsAmount
      ensures b'[d] == RegionStart(s, j, d) + |WithDigit(s[..i' + 1], j, d)|
      ensures b'[d] + |WithDigit(s[i' + 1..], j, d)| == RegionEnd(s, j, d)
    {
      ScatterStep(s, j, i, d);
      WithDigitSnoc(s, i, j, d);
    }
  }

  /** Storing `s[i]` at its pre-decremented counter keeps the placed slots of bucket `d`. */
  lemma PlacedAdvanceAt(t: seq<u32>, s: seq<u32>, j: nat, i: int, b: seq<int>, d: int,
                        t': seq<u32>, b': seq<int>)
    requires ScatterState(t, s, j, i, b) && 0 <= i && 0 <= d < DigitsAmount
    requires RegionStart(s, j, Digit(s[i], j)) <= b[Digit(s[i], j)] - 1 < RegionEnd(s, j, Digit(s[i], j))
    requires 0 <= b[Digit(s[i], j)] - 1 < |s|
    requires t' == t[b[Digit(s[i], j)] - 1 := s[i]]
    requires b' == b[Digit(s[i], j) := b[Digit(s[i], j)] - 1]
    ensures SlotsHold(t', b'[d], RegionEnd(s, j, d), WithDigit(s[i..], j, d))
  {
    var v, d0 := s[i], Digit(s[i], j);
    var p := b[d0] - 1;
    ScatterStep(s, j, i, d);
    WithDigitSnoc(s, i, j, d);
    assert SlotsHold(t, b[d], RegionEnd(s, j, d), WithDigit(s[i + 1..], j, d));
    if d == d0 {
      StoreBelow(t, b[d], RegionEnd(s, j, d), WithDigit(s[i + 1..], j, d), v);
    } else {
      assert b[d] == RegionStart(s, j, d) + |WithDigit(s[..i + 1], j, d)|;
      if d < d0 {
        RegionsOrdered(s, j, d, d0);
      } else {
        RegionsOrdered(s, j, d0, d);
      }
      StoreOutside(t, b[d], RegionEnd(s, j, d), WithDigit(s[i + 1..], j, d), p, v);
    }
  }

  /**
   * One scatter step on `s[i]`: with the counter of its digit decremented
   * and `s[i]` stored at the new counter value, the scatter state holds for
   * the elements from index `i` on.
   */
  lemma ScatterAdvance(t: seq<u32>, s: seq<u32>, j: nat, i: int, b: seq<int>, t': seq<u32>, b': seq<int>)
    requires ScatterState(t, s, j, i, b) && 0 <= i
    requires RegionStart(s, j, Digit(s[i], j)) <= b[Digit(s[i], j)] - 1 < RegionEnd(s, j, Digit(s[i], j))
    requires 0 <= b[Digit(s[i], j)] - 1 < |s|
    requires t' == t[b[Digit(s[i], j)] - 1 := s[i]]
    requires b' == b[Digit(s[i], j) := b[Digit(s[i], j)] - 1]
    ensures ScatterState(t', s, j, i - 1, b')
  {
    CountersAdvance(s, j, i, b);
    var i' := i - 1;
    assert s[i' + 1..] == s[i..];
    forall d | 0 <= d < DigitsAmount
      ensures SlotsHold(t', b'[d], RegionEnd(s, j, d), WithDigit(s[i' + 1..], j, d))
    {
      PlacedAdvanceAt(t, s, j, i, b, d, t', b');
    }
  }

  /** After the last step `t` is the pass of `s` and each counter is where its region starts. */
  lemma ScatterFinish(t: seq<u32>, s: seq<u32>, j: nat, b: seq<int>)
    requires ScatterState(t, s, j, -1, b)
    ensures t == Pass(s, j)
    ensures forall d :: 0 <= d < DigitsAmount ==> b[d] == RegionStart(s, j, d)
  {
    RegionFacts(s, j);
    assert s[0..] == s && s[..0] == [];
    forall d | 0 <= d < DigitsAmount
      ensures RegionFilled(t, s, j, d)
    {
      assert SlotsHold(t, b[d], RegionEnd(s, j, d), WithDigit(s[0..], j, d));
    }
    PassFromRegions(t, s, j);
  }
}
