/**
 * The serial radix sort: a recursive power function in `uint32_t`
 * arithmetic, and `radixsort`, whose steps (maximum, digit width into the
 * global `maxlen`, and per pass: count, accumulate, scatter, copy back) are
 * the methods below. The global `maxlen` is a field of `SerialSorter`.
 */
module RadixSortSerial {
  import opened Digits
  import opened CountingSort
  import opened Lsd

  /**
   * `p(base, exp)`: `exp` recursive multiplications in wrapping `uint32_t`
   * arithmetic, which is base^exp reduced modulo 2^32.
   */
  function P(base: u32, exp: u32): (r: u32)
    ensures r == Pow(base, exp) % TwoTo32
    decreases exp
  {
    if exp == 0 then 1
    else
      MulModLeft(Pow(base, exp - 1), base, TwoTo32);
      (P(base, exp - 1) * base) % TwoTo32
  }

  /** For base 10 and exponents up to 9 no wrap-around happens: `p(10, j)` is 10^j. */
  lemma PowerOfTenExact(exp: u32)
    requires exp <= 9
    ensures P(10, exp) == Pow10(exp)
  {
    Pow10FitsU32(exp);
    DivModUnique(Pow10(exp), 0, Pow10(exp), TwoTo32);
  }

  /** Step 0.1: the maximum, scanning from 0. */
  method MaxScan(a: array<u32>) returns (max: u32)
    ensures max == MaxOf(a[..])
    ensures forall k :: 0 <= k < a.Length ==> a[k] <= max
    ensures a.Length > 0 ==> exists k :: 0 <= k < a.Length && a[k] == max
    ensures a.Length == 0 ==> max == 0
  {
    max := 0;
    var i := 0;
    while i < a.Length
      invariant 0 <= i <= a.Length
      invariant max == MaxOf(a[..i])
    {
      assert a[..i + 1][..i] == a[..i];
      if a[i] > max {
        max := a[i];
      }
      i := i + 1;
    }
    assert a[..a.Length] == a[..];
    MaxOfIsMaximum(a[..]);
    assert forall k :: 0 <= k < a.Length ==> a[k] in a[..];
  }

  /** Step 2: each bucket counts how often its digit occurs at pass `j`. */
  method CountDigits(a: array<u32>, digit: u32, ghost j: nat, bucket: array<int>)
    requires bucket.Length == DigitsAmount && digit == Pow10(j)
    requires forall d :: 0 <= d < DigitsAmount ==> bucket[d] == 0
    modifies bucket
    ensures forall d :: 0 <= d < DigitsAmount ==> bucket[d] == |WithDigit(a[..], j, d)|
    ensures Total(bucket[..]) == a.Length
  {
    var i := 0;
    while i < a.Length
      invariant 0 <= i <= a.Length
      invariant forall d :: 0 <= d < DigitsAmount ==> bucket[d] == |WithDigit(a[..i], j, d)|
    {
      forall d | 0 <= d < DigitsAmount
        ensures |WithDigit(a[..i + 1], j, d)| ==
                |WithDigit(a[..i], j, d)| + (if Digit(a[i], j) == d then 1 else 0)
      {
        WithDigitSnoc(a[..], i, j, d);
        assert a[..][..i] == a[..i] && a[..][..i + 1] == a[..i + 1];
      }
      DigitIsDivMod(a[i], j);
      var d := a[i] / digit % DigitsAmount;
      bucket[d] := bucket[d] + 1;
      i := i + 1;
    }
    assert a[..a.Length] == a[..];
    CountsTotal(a[..], j, bucket[..]);
  }

  /**
   * Step 3: running sums in place; afterwards `bucket[d]` is the number of
   * elements whose digit is at most `d`.
   */
  method Accumulate(bucket: array<int>, ghost s: seq<u32>, ghost j: nat)
    requires bucket.Length == DigitsAmount
    requires forall d :: 0 <= d < DigitsAmount ==> bucket[d] == |WithDigit(s, j, d)|
    modifies bucket
    ensures forall d :: 0 <= d < DigitsAmount ==> bucket[d] == RegionEnd(s, j, d)
    ensures bucket[DigitsAmount - 1] == |s|
    ensures forall d, e :: 0 <= d <= e < DigitsAmount ==> bucket[d] <= bucket[e]
  {
    RegionEndStep(s, j, 0);
    var i := 1;
    while i < DigitsAmount
      invariant 1 <= i <= DigitsAmount
      invariant forall d :: 0 <= d < i ==> bucket[d] == RegionEnd(s, j, d)
      invariant forall d :: i <= d < DigitsAmount ==> bucket[d] == |WithDigit(s, j, d)|
    {
      RegionEndStep(s, j, i);
      bucket[i] := bucket[i] + bucket[i - 1];
      i := i + 1;
    }
    forall d, e | 0 <= d <= e < DigitsAmount
      ensures bucket[d] <= bucket[e]
    {
      RegionEndMonotone(s, j, d, e);
    }
    RegionFacts(s, j);
  }

  /**
   * Step 4: from the last element to the first, pre-decrement the element's
   * bucket and store the element at that index of `tmp`. Every index is in
   * range, and `tmp` ends up as the stable counting sort on digit `j`.
   */
  method Scatter(a: array<u32>, tmp: array<u32>, bucket: array<int>, digit: u32, ghost j: nat)
    requires a != tmp && tmp.Length == a.Length
    requires bucket.Length == DigitsAmount && digit == Pow10(j)
    requires forall d :: 0 <= d < DigitsAmount ==> bucket[d] == RegionEnd(a[..], j, d)
    modifies tmp, bucket
    ensures tmp[..] == Pass(a[..], j)
    ensures forall d :: 0 <= d < DigitsAmount ==> bucket[d] == RegionStart(a[..], j, d)
  {
    ghost var s := a[..];
    ghost var t, b := tmp[..], bucket[..];
    ScatterStart(t, s, j, b);
    var i := a.Length - 1;
    while i >= 0
      invariant tmp[..] == t && |b| == DigitsAmount
      invariant forall d :: 0 <= d < DigitsAmount ==> bucket[d] == b[d]
      invariant ScatterState(t, s, j, i, b)
      decreases i + 1
    {
      CounterInRegion(s, j, i, b);
      DigitIsDivMod(a[i], j);
      var unit := a[i] / digit % DigitsAmount;
      assert unit == Digit(s[i], j);
      ghost var t', b' := t[b[unit] - 1 := s[i]], b[unit := b[unit] - 1];
      ScatterAdvance(t, s, j, i, b, t', b');
      label Before:
      bucket[unit] := bucket[unit] - 1;
      assert forall d :: 0 <= d < DigitsAmount && d != unit ==> bucket[d] == old@Before(bucket[d]);
      tmp[bucket[unit]] := a[i];
      assert tmp[..] == t';
      t, b := t', b';
      i := i - 1;
    }
    ScatterFinish(t, s, j, b);
  }

  /** Step 5: copy `tmp` into the input array. */
  method CopyBack(tmp: array<u32>, a: array<u32>)
    requires a != tmp && tmp.Length == a.Length
    modifies a
    ensures a[..] == tmp[..]
  {
    var i := 0;
    while i < a.Length
      invariant 0 <= i <= a.Length
      invariant a[..i] == tmp[..i]
    {
      a[i] := tmp[i];
      assert a[..i + 1] == a[..i] + [a[i]];
      assert tmp[..i + 1] == tmp[..i] + [tmp[i]];
      i := i + 1;
    }
    assert a[..a.Length] == a[..] && tmp[..a.Length] == tmp[..];
  }

  /**
   * One pass of the loop in `radixsort` on digit `j`: count, accumulate,
   * scatter into `tmp` with the divisor `p(10, j)`, and copy back. The
   * array becomes the stable counting sort of its old contents on digit `j`.
   */
  method SortPass(a: array<u32>, tmp: array<u32>, j: nat)
    requires a != tmp && tmp.Length == a.Length && j <= 9
    modifies a, tmp
    ensures a[..] == Pass(old(a[..]), j)
  {
    var digit := P(10, j as u32);
    PowerOfTenExact(j as u32);
    var bucket := new int[DigitsAmount](_ => 0);
    CountDigits(a, digit, j, bucket);
    Accumulate(bucket, a[..], j);
    Scatter(a, tmp, bucket, digit, j);
    CopyBack(tmp, a);
  }

  /** The pass loop of `radixsort`: passes 0 .. k-1 through one temporary array. */
  method SortPasses(a: array<u32>, k: int)
    requires 0 <= k <= 10
    modifies a
    ensures a[..] == LsdSort(old(a[..]), k)
  {
    var tmp := new u32[a.Length];
    var j := 0;
    while j < k
      invariant 0 <= j <= k
      invariant a[..] == LsdSort(old(a[..]), j)
      modifies a, tmp
    {
      SortPass(a, tmp, j);
      j := j + 1;
    }
  }

  /** The program's global state: `maxlen`, which sorting adds to and never resets. */
  class SerialSorter {
    var maxlen: int

    /** The program start, where `maxlen` is 0. */
    constructor ()
      ensures maxlen == 0
    {
      maxlen := 0;
    }

    /** Step 0.2: add the decimal width of `max` to `maxlen`, one division by 10 at a time. */
    method AddWidth(max: u32)
      modifies this
      ensures maxlen == old(maxlen) + DecimalWidth(max)
    {
      var t: u32 := max / 10;
      while t > 0
        invariant maxlen - old(maxlen) + (if t == 0 then 1 else DecimalWidth(t) + 1) == DecimalWidth(max)
      {
        maxlen := maxlen + 1;
        t := t / 10;
      }
      maxlen := maxlen + 1;
    }

    /**
     * `radixsort(in, n)`: `maxlen` grows by the width of the maximum, and
     * `maxlen` passes sort the array in place. On the first call `maxlen`
     * is 0; a later call still sorts while the total stays at most ten
     * passes, for which every power of ten fits in `uint32_t`.
     */
    method RadixSort(a: array<u32>)
      requires a.Length < 0x8000_0000
      requires 0 <= maxlen && maxlen + DecimalWidth(MaxOf(a[..])) <= 10
      modifies this, a
      ensures maxlen == old(maxlen) + DecimalWidth(MaxOf(old(a[..])))
      ensures a[..] == LsdSort(old(a[..]), maxlen)
      ensures Sorted(a[..]) && multiset(a[..]) == multiset(old(a[..]))
    {
      ghost var s0 := a[..];
      var max := MaxScan(a);
      AddWidth(max);
      SortPasses(a, maxlen);
      LsdSortSorts(s0, maxlen);
    }
  }
}
