/**
 * The OpenMP radix sort: a table of the powers of ten, the computation of
 * the pass count `K` from the maximum, and `radixsort_parallel`, which fills
 * a `K` x 10 matrix of shared buckets for every pass from the unsorted
 * input before the first pass, and then runs the passes one row at a time.
 * The parallel counting loop is modelled in one sequential order.
 */
module RadixSortParallel {
  import opened Digits
  import opened CountingSort
  import opened Lsd
  import RadixSortSerial

  /** The table `tenPowers`: 10^0 .. 10^9, every power of ten a `uint32_t` holds. */
  const TenPowers: seq<u32> :=
    [1, 10, 100, 1000, 10000, 100000, 1000000, 10000000, 100000000, 1000000000]

  /** Entry `e` of the table is 10^e, and there are no more powers of ten in `uint32_t`. */
  lemma TenPowersExact()
    ensures |TenPowers| == DigitsAmount
    ensures forall e :: 0 <= e < |TenPowers| ==> TenPowers[e] == Pow10(e)
    ensures Pow10(|TenPowers|) >= TwoTo32
  {
    assert Pow10(0) == 1;
    assert Pow10(1) == 10;
    assert Pow10(2) == 100;
    assert Pow10(3) == 1000;
    assert Pow10(4) == 10000;
    assert Pow10(5) == 100000;
    assert Pow10(6) == 1000000;
    assert Pow10(7) == 10000000;
    assert Pow10(8) == 100000000;
    assert Pow10(9) == 1000000000;
    Pow10FitsU32(10);
  }

  /** `p(exp)`: a table lookup, defined for the exponents 0 .. 9 only. */
  function P(exp: int): (r: u32)
    requires 0 <= exp < |TenPowers|
    ensures r == Pow10(exp)
  {
    TenPowersExact();
    TenPowers[exp]
  }

  /**
   * The computation of `K` in `main`: one plus the number of divisions by 10
   * that leave a positive value, which is the decimal width of the maximum.
   */
  method MaxDigitsSize(maxValue: u32) returns (k: int)
    ensures k == DecimalWidth(maxValue)
    ensures 1 <= k <= 10
    ensures k == 1 <==> maxValue <= 9
  {
    k := 0;
    var t: u32 := maxValue / 10;
    while t > 0
      invariant k + (if t == 0 then 1 else DecimalWidth(t) + 1) == DecimalWidth(maxValue)
    {
      k := k + 1;
      t := t / 10;
    }
    k := k + 1;
    DecimalWidthU32(maxValue);
    DecimalWidthBounds(maxValue);
  }

  /** Row `r` of the bucket matrix as a sequence of ten counters. */
  ghost function Row(m: array2<int>, r: int): (b: seq<int>)
    requires 0 <= r < m.Length0 && m.Length1 == DigitsAmount
    reads m
    ensures |b| == DigitsAmount
    ensures forall d :: 0 <= d < DigitsAmount ==> b[d] == m[r, d]
  {
    seq(DigitsAmount, d requires 0 <= d < DigitsAmount reads m => m[r, d])
  }

  /** Step 1.2: every shared bucket starts at zero. */
  method InitBuckets(m: array2<int>)
    requires m.Length1 == DigitsAmount
    modifies m
    ensures forall r, d :: 0 <= r < m.Length0 && 0 <= d < DigitsAmount ==> m[r, d] == 0
  {
    var j := 0;
    while j < m.Length0
      invariant 0 <= j <= m.Length0
      invariant forall r, d :: 0 <= r < j && 0 <= d < DigitsAmount ==> m[r, d] == 0
    {
      var f := 0;
      while f < DigitsAmount
        invariant 0 <= f <= DigitsAmount
        invariant forall r, d :: 0 <= r < j && 0 <= d < DigitsAmount ==> m[r, d] == 0
        invariant forall d :: 0 <= d < f ==> m[j, d] == 0
      {
        m[j, f] := 0;
        f := f + 1;
      }
      j := j + 1;
    }
  }

  /**
   * Step 2: for every element and every pass `j`, increment the bucket of the
   * element's digit `j` in row `j`. Afterwards row `j` holds the bucket
   * sizes of the input on digit `j`, for every pass at once.
   */
  method CountAllDigits(input: array<u32>, m: array2<int>)
    requires m.Length0 <= |TenPowers| && m.Length1 == DigitsAmount
    requires forall r, d :: 0 <= r < m.Length0 && 0 <= d < DigitsAmount ==> m[r, d] == 0
    modifies m
    ensures forall r, d :: 0 <= r < m.Length0 && 0 <= d < DigitsAmount ==>
              m[r, d] == |WithDigit(input[..], r, d)|
    ensures forall r :: 0 <= r < m.Length0 ==> Total(Row(m, r)) == input.Length
  {
    var i := 0;
    while i < input.Length
      invariant 0 <= i <= input.Length
      invariant forall r, d :: 0 <= r < m.Length0 && 0 <= d < DigitsAmount ==>
                  m[r, d] == |WithDigit(input[..i], r, d)|
    {
      assert input[..][..i] == input[..i] && input[..][..i + 1] == input[..i + 1];
      var j := 0;
      while j < m.Length0
        invariant 0 <= j <= m.Length0
        invariant forall r, d :: 0 <= r < j && 0 <= d < DigitsAmount ==>
                    m[r, d] == |WithDigit(input[..i + 1], r, d)|
        invariant forall r, d :: j <= r < m.Length0 && 0 <= d < DigitsAmount ==>
                    m[r, d] == |WithDigit(input[..i], r, d)|
      {
        forall d | 0 <= d < DigitsAmount
          ensures |WithDigit(input[..i + 1], j, d)| ==
                  |WithDigit(input[..i], j, d)| + (if Digit(input[i], j) == d then 1 else 0)
        {
          WithDigitSnoc(input[..], i, j, d);
        }
        var digit := P(j);
        DigitIsDivMod(input[i], j);
        var f := input[i] / digit % DigitsAmount;
        assert f == Digit(input[i], j);
        label Before:
        m[j, f] := m[j, f] + 1;
        assert forall r, d :: 0 <= r < m.Length0 && 0 <= d < DigitsAmount && (r != j || d != f) ==>
          m[r, d] == old@Before(m[r, d]);
        j := j + 1;
      }
      i := i + 1;
    }
    assert input[..input.Length] == input[..];
    forall r | 0 <= r < m.Length0
      ensures Total(Row(m, r)) == input.Length
    {
      CountsTotal(input[..], r, Row(m, r));
    }
  }

  /**
   * Step 3: running sums along every row; afterwards `m[j, d]` is the number
   * of elements whose digit `j` is at most `d`, the end of region `d` in
   * pass `j`.
   */
  method AccumulateAll(m: array2<int>, ghost s: seq<u32>)
    requires m.Length1 == DigitsAmount
    requires forall r, d :: 0 <= r < m.Length0 && 0 <= d < DigitsAmount ==> m[r, d] == |WithDigit(s, r, d)|
    modifies m
    ensures forall r, d :: 0 <= r < m.Length0 && 0 <= d < DigitsAmount ==> m[r, d] == RegionEnd(s, r, d)
    ensures forall r :: 0 <= r < m.Length0 ==> Row(m, r)[DigitsAmount - 1] == |s|
    ensures forall r, d, e :: 0 <= r < m.Length0 && 0 <= d <= e < DigitsAmount ==> m[r, d] <= m[r, e]
  {
    var j := 0;
    while j < m.Length0
      invariant 0 <= j <= m.Length0
      invariant forall r, d :: 0 <= r < j && 0 <= d < DigitsAmount ==> m[r, d] == RegionEnd(s, r, d)
      invariant forall r, d :: j <= r < m.Length0 && 0 <= d < DigitsAmount ==> m[r, d] == |WithDigit(s, r, d)|
    {
      RegionEndStep(s, j, 0);
      var i := 1;
      while i < DigitsAmount
        invariant 1 <= i <= DigitsAmount
        invariant forall r, d :: 0 <= r < j && 0 <= d < DigitsAmount ==> m[r, d] == RegionEnd(s, r, d)
        invariant forall r, d :: j < r < m.Length0 && 0 <= d < DigitsAmount ==> m[r, d] == |WithDigit(s, r, d)|
        invariant forall d :: 0 <= d < i ==> m[j, d] == RegionEnd(s, j, d)
        invariant forall d :: i <= d < DigitsAmount ==> m[j, d] == |WithDigit(s, j, d)|
      {
        RegionEndStep(s, j, i);
        m[j, i] := m[j, i] + m[j, i - 1];
        i := i + 1;
      }
      j := j + 1;
    }
    forall r, d, e | 0 <= r < m.Length0 && 0 <= d <= e < DigitsAmount
      ensures m[r, d] <= m[r, e]
    {
      RegionEndMonotone(s, r, d, e);
    }
    forall r | 0 <= r < m.Length0
      ensures Row(m, r)[DigitsAmount - 1] == |s|
    {
      RegionFacts(s, r);
    }
  }

  /**
   * Step 4 of pass `j`: from the last element to the first, pre-decrement
   * the element's counter in row `j` and store the element there. `tmp`
   * becomes the stable counting sort on digit `j`; only row `j` changes.
   */
  method ScatterRow(input: array<u32>, tmp: array<u32>, m: array2<int>, j: int)
    requires input != tmp && tmp.Length == input.Length
    requires 0 <= j < m.Length0 && m.Length0 <= |TenPowers| && m.Length1 == DigitsAmount
    requires forall d :: 0 <= d < DigitsAmount ==> m[j, d] == RegionEnd(input[..], j, d)
    modifies tmp, m
    ensures tmp[..] == Pass(input[..], j)
    ensures forall d :: 0 <= d < DigitsAmount ==> m[j, d] == RegionStart(input[..], j, d)
    ensures forall r, d :: 0 <= r < m.Length0 && r != j && 0 <= d < DigitsAmount ==> m[r, d] == old(m[r, d])
  {
    ghost var s := input[..];
    var digit := P(j);
    ghost var t, b := tmp[..], Row(m, j);
    ScatterStart(t, s, j, b);
    var i := input.Length - 1;
    while i >= 0
      invariant tmp[..] == t && |b| == DigitsAmount
      invariant forall d :: 0 <= d < DigitsAmount ==> m[j, d] == b[d]
      invariant ScatterState(t, s, j, i, b)
      invariant forall r, d :: 0 <= r < m.Length0 && r != j && 0 <= d < DigitsAmount ==> m[r, d] == old(m[r, d])
      decreases i + 1
    {
      CounterInRegion(s, j, i, b);
      DigitIsDivMod(input[i], j);
      var unit := input[i] / digit % DigitsAmount;
      ghost var t', b' := t[b[unit] - 1 := s[i]], b[unit := b[unit] - 1];
      ScatterAdvance(t, s, j, i, b, t', b');
      label Before:
      m[j, unit] := m[j, unit] - 1;
      assert forall r, d :: 0 <= r < m.Length0 && 0 <= d < DigitsAmount && (r != j || d != unit) ==>
        m[r, d] == old@Before(m[r, d]);
      var pos := m[j, unit];
      tmp[pos] := input[i];
      assert tmp[..] == t';
      t, b := t', b';
      i := i - 1;
    }
    ScatterFinish(t, s, j, b);
  }

  /** The bucket sizes and region ends of digit `j` survive any number of passes. */
  lemma HistogramSurvivesPasses(s: seq<u32>, k: nat, j: nat, d: int)
    requires 0 <= d < DigitsAmount
    ensures |WithDigit(LsdSort(s, k), j, d)| == |WithDigit(s, j, d)|
    ensures RegionEnd(LsdSort(s, k), j, d) == RegionEnd(s, j, d)
  {
    LsdSortPermutes(s, k);
    CountsOfPermutation(LsdSort(s, k), s, j, d);
    BelowOfPermutation(LsdSort(s, k), s, j, d + 1);
  }

  /**
   * Steps 4 and 5 for passes 0 .. K-1: pass `j` scatters with row `j` of the
   * buckets, which were counted on the input before the first pass, and
   * copies back.
   */
  method PassesWithBuckets(input: array<u32>, buckets: array2<int>, ghost s0: seq<u32>)
    requires buckets.Length0 <= |TenPowers| && buckets.Length1 == DigitsAmount
    requires input[..] == s0
    requires forall r, d :: 0 <= r < buckets.Length0 && 0 <= d < DigitsAmount ==>
               buckets[r, d] == RegionEnd(s0, r, d)
    modifies input, buckets
    ensures input[..] == LsdSort(s0, buckets.Length0)
  {
    var tmp := new u32[input.Length];
    var j := 0;
    while j < buckets.Length0
      invariant 0 <= j <= buckets.Length0
      invariant input[..] == LsdSort(s0, j)
      invariant forall r, d :: j <= r < buckets.Length0 && 0 <= d < DigitsAmount ==>
                  buckets[r, d] == RegionEnd(s0, r, d)
      modifies input, tmp, buckets
    {
      forall d | 0 <= d < DigitsAmount
        ensures buckets[j, d] == RegionEnd(input[..], j, d)
      {
        HistogramSurvivesPasses(s0, j, j, d);
      }
      ScatterRow(input, tmp, buckets, j);
      RadixSortSerial.CopyBack(tmp, input);
      j := j + 1;
    }
  }

  /**
   * `radixsort_parallel(input, n, K, ...)`: all `K` rows of buckets are built
   * from the unsorted input, then `K` passes sort the array in place. The
   * result is the sequence after `K` passes; it is sorted once `K` is at
   * least the decimal width of the maximum.
   */
  method RadixSortParallel(input: array<u32>, maxDigitsSize: int)
    requires input.Length < 0x8000_0000
    requires 0 <= maxDigitsSize <= |TenPowers|
    modifies input
    ensures input[..] == LsdSort(old(input[..]), maxDigitsSize)
    ensures multiset(input[..]) == multiset(old(input[..]))
    ensures DecimalWidth(MaxOf(old(input[..]))) <= maxDigitsSize ==> Sorted(input[..])
  {
    ghost var s0 := input[..];
    var buckets := new int[maxDigitsSize, DigitsAmount];
    InitBuckets(buckets);
    CountAllDigits(input, buckets);
    AccumulateAll(buckets, s0);
    PassesWithBuckets(input, buckets, s0);
    LsdSortPermutes(s0, maxDigitsSize);
    if DecimalWidth(MaxOf(s0)) <= maxDigitsSize {
      LsdSortSorts(s0, maxDigitsSize);
    }
  }

  /**
   * The sorting part of `main`: the maximum, `K` as its decimal width, and the
   * parallel sort with `K` passes, which leaves the input sorted.
   */
  method SortWithWidthOfMaximum(input: array<u32>)
    requires input.Length < 0x8000_0000
    modifies input
    ensures Sorted(input[..]) && multiset(input[..]) == multiset(old(input[..]))
    ensures input[..] == LsdSort(old(input[..]), DecimalWidth(MaxOf(old(input[..]))))
  {
    var maxValue := RadixSortSerial.MaxScan(input);
    var k := MaxDigitsSize(maxValue);
    RadixSortParallel(input, k);
  }
}
