/**
 * The digit model of the base-10 LSD radix sort: unsigned 32-bit values,
 * powers of ten, the digit of a value at a pass, the key a value is sorted
 * by after a number of passes, and the decimal width of a value.
 */
module Digits {

  /** The C type `uint32_t`. */
  type u32 = x: int | 0 <= x < 0x1_0000_0000

  /** 2^32, the modulus of `uint32_t` arithmetic. */
  const TwoTo32: int := 0x1_0000_0000

  /** Number of possible digit values, the size of one bucket array. */
  const DigitsAmount: int := 10

  /** `b` to the power `e` over the unbounded integers. */
  function Pow(b: int, e: nat): int
  {
    if e == 0 then 1 else Pow(b, e - 1) * b
  }

  /** 10 to the power `e`, the divisor that isolates digit `e`. */
  function Pow10(e: nat): (r: int)
    ensures r >= 1
  {
    PowTenPositive(e);
    Pow(10, e)
  }

  lemma {:induction false} PowTenPositive(e: nat)
    ensures Pow(10, e) >= 1
  {
    if e > 0 {
      PowTenPositive(e - 1);
    }
  }

  /** Digit `j` of `v`, counted from the least significant one. */
  function Digit(v: nat, j: nat): (r: int)
    ensures 0 <= r < DigitsAmount
  {
    if j == 0 then v % 10 else Digit(v / 10, j - 1)
  }

  /** The value formed by the `m` least significant digits of `v`. */
  function Key(v: nat, m: nat): (r: nat)
    ensures r < Pow10(m)
  {
    if m == 0 then 0 else v % 10 + 10 * Key(v / 10, m - 1)
  }

  /** The number of decimal digits of `v`; 0 has one digit. */
  function DecimalWidth(v: nat): nat
  {
    if v < 10 then 1 else 1 + DecimalWidth(v / 10)
  }

  // ---------------------------------------------------------------------
  // Arithmetic building blocks

  lemma MulLe(a: int, b: int, c: int)
    requires a <= b && c >= 0
    ensures a * c <= b * c
  {
    assert b * c - a * c == (b - a) * c;
  }

  /** Euclidean division is determined by its defining equation. */
  lemma DivModUnique(v: int, q: int, r: int, m: int)
    requires m > 0 && 0 <= r < m && v == q * m + r
    ensures v / m == q && v % m == r
  {
    var q0, r0 := v / m, v % m;
    assert v == q0 * m + r0;
    assert (q - q0) * m == r0 - r;
    if q > q0 {
      MulLe(1, q - q0, m);
      assert false;
    } else if q < q0 {
      MulLe(1, q0 - q, m);
      assert false;
    }
  }

  /** Reducing a factor modulo `m` first does not change a product modulo `m`. */
  lemma MulModLeft(x: int, b: int, m: int)
    requires m > 0
    ensures ((x % m) * b) % m == (x * b) % m
  {
    var q, r := x / m, x % m;
    assert x * b == (q * b) * m + r * b by {
      assert x == q * m + r;
    }
    var q1, r1 := (r * b) / m, (r * b) % m;
    assert x * b == (q * b + q1) * m + r1;
    DivModUnique(x * b, q * b + q1, r1, m);
  }

  lemma {:induction false} Pow10Monotone(a: nat, b: nat)
    requires a <= b
    ensures Pow10(a) <= Pow10(b)
    decreases b - a
  {
    if a < b {
      Pow10Monotone(a, b - 1);
    }
  }

  /** 10^9 is the largest power of ten a `uint32_t` holds; 10^10 is not. */
  lemma {:induction false} Pow10FitsU32(e: nat)
    ensures e <= 9 <==> Pow10(e) < TwoTo32
  {
    assert Pow10(9) == 1000000000;
    assert Pow10(10) == 10000000000;
    if e <= 9 {
      Pow10Monotone(e, 9);
    } else {
      Pow10Monotone(10, e);
    }
  }

  // ---------------------------------------------------------------------
  // Keys and digits

  /** Dividing by `a` and then by `b` is dividing by `a * b`. */
  lemma DivDiv(v: nat, a: int, b: int)
    requires a > 0 && b > 0
    ensures (v / a) / b == v / (a * b)
  {
    var q1, r1 := v / a, v % a;
    var q2, r2 := q1 / b, q1 % b;
    assert v == q2 * (a * b) + (a * r2 + r1) by {
      assert v == a * q1 + r1;
      assert q1 == b * q2 + r2;
      assert a * q1 == a * (b * q2) + a * r2;
    }
    MulLe(r2, b - 1, a);
    assert (b - 1) * a == a * b - a;
    DivModUnique(v, q2, a * r2 + r1, a * b);
  }

  /** Digit `j` is what C computes as `v / 10^j % 10`. */
  lemma {:induction false} DigitIsDivMod(v: nat, j: nat)
    ensures Digit(v, j) == (v / Pow10(j)) % 10
  {
    if j > 0 {
      DigitIsDivMod(v / 10, j - 1);
      DivDiv(v, 10, Pow10(j - 1));
      assert Pow10(j) == 10 * Pow10(j - 1);
    }
  }

  /** Peeling the last decimal digit off `v % (10 * p)`. */
  lemma ModTen(v: nat, p: int)
    requires p >= 1
    ensures v % (10 * p) == v % 10 + 10 * ((v / 10) % p)
  {
    var q, k := (v / 10) / p, (v / 10) % p;
    assert v == q * (10 * p) + (v % 10 + 10 * k) by {
      assert v == 10 * (v / 10) + v % 10;
      assert v / 10 == q * p + k;
      assert 10 * (q * p) == q * (10 * p);
    }
    DivModUnique(v, q, v % 10 + 10 * k, 10 * p);
  }

  /** Splitting `v % (10 * p)` at `p`: the digit `v / p % 10` on top of `v % p`. */
  lemma ModStep(v: nat, p: int)
    requires p >= 1
    ensures v % (10 * p) == ((v / p) % 10) * p + v % p
  {
    var q, r := v / p, v % p;
    var a, c := q / 10, q % 10;
    assert v == a * (10 * p) + (c * p + r) by {
      assert v == q * p + r;
      assert q == 10 * a + c;
      assert q * p == (10 * a + c) * p == a * (10 * p) + c * p;
    }
    MulLe(c, 9, p);
    DivModUnique(v, a, c * p + r, 10 * p);
  }

  /** The key of `m` digits is `v` reduced modulo 10^m. */
  lemma {:induction false} KeyIsMod(v: nat, m: nat)
    ensures Key(v, m) == v % Pow10(m)
  {
    if m == 0 {
      DivModUnique(v, v, 0, 1);
    } else {
      KeyIsMod(v / 10, m - 1);
      ModTen(v, Pow10(m - 1));
      assert Pow10(m) == 10 * Pow10(m - 1);
    }
  }

  /**
   * The key of `j + 1` digits is digit `j` scaled by 10^j on top of the
   * key of `j` digits.
   */
  lemma KeyStep(v: nat, j: nat)
    ensures Key(v, j + 1) == Digit(v, j) * Pow10(j) + Key(v, j)
  {
    KeyIsMod(v, j + 1);
    KeyIsMod(v, j);
    DigitIsDivMod(v, j);
    ModStep(v, Pow10(j));
    assert Pow10(j + 1) == 10 * Pow10(j);
  }

  /** The order of `d * p + k` for keys `k` below `p` is decided by `d` first. */
  lemma OrderByHighPart(dx: int, dy: int, kx: int, ky: int, p: int)
    requires dx < dy && 0 <= kx < p && 0 <= ky
    ensures dx * p + kx < dy * p + ky
  {
    MulLe(dx + 1, dy, p);
    assert (dx + 1) * p == dx * p + p;
  }

  /** A smaller digit `j` means a smaller key of `j + 1` digits. */
  lemma KeyOrderByDigit(x: nat, y: nat, j: nat)
    requires Digit(x, j) < Digit(y, j)
    ensures Key(x, j + 1) < Key(y, j + 1)
  {
    KeyStep(x, j);
    KeyStep(y, j);
    OrderByHighPart(Digit(x, j), Digit(y, j), Key(x, j), Key(y, j), Pow10(j));
  }

  /** With equal digit `j`, keys of `j + 1` digits compare like keys of `j` digits. */
  lemma KeyOrderSameDigit(x: nat, y: nat, j: nat)
    requires Digit(x, j) == Digit(y, j)
    ensures Key(x, j) <= Key(y, j) <==> Key(x, j + 1) <= Key(y, j + 1)
  {
    KeyStep(x, j);
    KeyStep(y, j);
  }

  /** A value below 10^m is its own key of `m` digits. */
  lemma KeyOfSmall(v: nat, m: nat)
    requires v < Pow10(m)
    ensures Key(v, m) == v
  {
    KeyIsMod(v, m);
    DivModUnique(v, 0, v, Pow10(m));
  }

  // ---------------------------------------------------------------------
  // Decimal width

  /** `DecimalWidth(v)` is the `w` with 10^(w-1) <= v < 10^w (w = 1 for v = 0). */
  lemma {:induction false} DecimalWidthBounds(v: nat)
    ensures DecimalWidth(v) >= 1
    ensures v < Pow10(DecimalWidth(v))
    ensures v > 0 ==> Pow10(DecimalWidth(v) - 1) <= v
    ensures DecimalWidth(v) == 1 <==> v <= 9
  {
    if v >= 10 {
      DecimalWidthBounds(v / 10);
    }
  }

  /** A value below 10^k has at most `k` digits. */
  lemma {:induction false} DecimalWidthAtMost(v: nat, k: nat)
    requires k >= 1 && v < Pow10(k)
    ensures DecimalWidth(v) <= k
  {
    if v >= 10 {
      if k == 1 {
        assert false;
      }
      DecimalWidthAtMost(v / 10, k - 1);
    }
  }

  /** Every `uint32_t` has at most ten decimal digits. */
  lemma DecimalWidthU32(v: u32)
    ensures 1 <= DecimalWidth(v) <= 10
  {
    Pow10FitsU32(10);
    DecimalWidthBounds(v);
    DecimalWidthAtMost(v, 10);
  }
}
