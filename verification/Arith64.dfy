/**
 64-bit division built from the x86 `divl` instruction (64-bit dividend, 32-bit
 divisor, 32-bit quotient, trap when the quotient does not fit).

 Machine words are integers with explicit ranges. Wherever the C code can wrap
 or truncate, the reduction is written out. The literals 0x8000_0000,
 0x1_0000_0000, 0x8000_0000_0000_0000 and 0x1_0000_0000_0000_0000 are 2^31,
 2^32, 2^63 and 2^64.
 */
module Arith64 {

  type U32 = x: int | 0 <= x < 0x1_0000_0000
  type U64 = x: int | 0 <= x < 0x1_0000_0000_0000_0000
  type S32 = x: int | -0x8000_0000 <= x < 0x8000_0000
  type S64 = x: int | -0x8000_0000_0000_0000 <= x < 0x8000_0000_0000_0000

  const INT64_MIN: S64 := -0x8000_0000_0000_0000

  // Reduction modulo 2^32 (2^64); values already in range are left alone.
  function Wrap32(x: int): U32 { if 0 <= x < 0x1_0000_0000 then x else x % 0x1_0000_0000 }

  function Wrap64(x: int): U64 { if 0 <= x < 0x1_0000_0000_0000_0000 then x else x % 0x1_0000_0000_0000_0000 }

  function Neg64(x: U64): U64 { Wrap64(0x1_0000_0000_0000_0000 - x) }

  // Reinterpretation of the low 32 (64) bits as a two's-complement number.
  function ToS32(x: int): S32 {
    var u := Wrap32(x);
    if u < 0x8000_0000 then u else u - 0x1_0000_0000
  }

  function ToS64(x: int): S64 {
    var u := Wrap64(x);
    if u < 0x8000_0000_0000_0000 then u else u - 0x1_0000_0000_0000_0000
  }

  function Abs(x: int): nat { if x < 0 then -x else x }

  /* ----- left shifts, defined without multiplication ----- */

  function Shl(x: nat, n: nat): nat
  {
    if n == 0 then x else 2 * Shl(x, n - 1)
  }

  function Pow2(n: nat): (p: nat)
    ensures p > 0
  {
    ShlGrows(1, n);
    Shl(1, n)
  }

  lemma {:induction false} ShlGrows(x: nat, n: nat)
    ensures Shl(x, n) >= x
  {
    if n == 0 {
    } else {
      ShlGrows(x, n - 1);
    }
  }

  lemma {:induction false} ShlShl(x: nat, a: nat, b: nat)
    ensures Shl(Shl(x, a), b) == Shl(x, a + b)
  {
    if b == 0 {
    } else {
      ShlShl(x, a, b - 1);
    }
  }

  lemma {:induction false} ShlIsMul(x: nat, n: nat)
    ensures Shl(x, n) == x * Pow2(n)
  {
    if n == 0 {
    } else {
      ShlIsMul(x, n - 1);
      assert 2 * (x * Pow2(n - 1)) == x * (2 * Pow2(n - 1));
    }
  }

  lemma Shl4(x: nat)
    ensures Shl(x, 1) == 2 * x && Shl(x, 2) == 4 * x && Shl(x, 4) == 16 * x
  {
    assert Shl(x, 1) == 2 * Shl(x, 0);
    assert Shl(x, 3) == 2 * Shl(x, 2);
  }

  lemma Shl16(x: nat)
    ensures Shl(x, 8) == 0x100 * x && Shl(x, 16) == 0x1_0000 * x
  {
    Shl4(x);
    Shl4(16 * x);
    ShlShl(x, 4, 4);
    Shl4(0x100 * x);
    Shl4(0x1000 * x);
    ShlShl(0x100 * x, 4, 4);
    ShlShl(x, 8, 8);
  }

  lemma Pow2Split(s: nat)
    requires s < 32
    ensures Pow2(s) * Pow2(32 - s) == 0x1_0000_0000
    ensures Pow2(32 - s) == 2 * Pow2(31 - s)
  {
    ShlShl(1, s, 32 - s);
    ShlIsMul(Pow2(s), 32 - s);
    ShlShl(1, 16, 16);
    Shl16(1);
    Shl16(0x1_0000);
  }

  /** `divl`: the precondition is exactly the absence of the divide trap. */
  function Divl(n: U64, d: U32): (q: U32)
    requires d != 0
    requires n / d < 0x1_0000_0000
    ensures q * d <= n < q * d + d
  {
    DivBounds(n, d);
    n / d
  }

  // What a shift by k does to a value whose top k bits are clear and whose next k bits are not.
  lemma ShiftRange(y: U32, k: nat)
    requires k == 16 ==> 1 <= y < 0x1_0000
    requires k == 8 ==> 0x1_0000 <= y < 0x100_0000
    requires k == 4 ==> 0x100_0000 <= y < 0x1000_0000
    requires k == 2 ==> 0x1000_0000 <= y < 0x4000_0000
    requires k == 1 ==> 0x4000_0000 <= y < 0x8000_0000
    requires k in {1, 2, 4, 8, 16}
    ensures Shl(y, k) < 0x1_0000_0000
    ensures k == 16 ==> 0x1_0000 <= Shl(y, k)
    ensures k == 8 ==> 0x100_0000 <= Shl(y, k)
    ensures k == 4 ==> 0x1000_0000 <= Shl(y, k)
    ensures k == 2 ==> 0x4000_0000 <= Shl(y, k)
    ensures k == 1 ==> 0x8000_0000 <= Shl(y, k)
  {
    Shl4(y);
    Shl16(y);
  }

  /** Number of leading zero bits, by binary search on the top half. No shift loses a bit. */
  method Nlz(x: U32) returns (n: nat)
    requires x != 0
    ensures n < 32
    ensures 0x8000_0000 <= Shl(x, n) < 0x1_0000_0000
  {
    n := 0;
    var y: U32 := x;
    if y <= 0x0000_FFFF {
      ShiftRange(y, 16);
      ShlShl(x, n, 16);
      n, y := n + 16, Shl(y, 16);
    }
    if y <= 0x00FF_FFFF {
      ShiftRange(y, 8);
      ShlShl(x, n, 8);
      n, y := n + 8, Shl(y, 8);
    }
    if y <= 0x0FFF_FFFF {
      ShiftRange(y, 4);
      ShlShl(x, n, 4);
      n, y := n + 4, Shl(y, 4);
    }
    if y <= 0x3FFF_FFFF {
      ShiftRange(y, 2);
      ShlShl(x, n, 2);
      n, y := n + 2, Shl(y, 2);
    }
    if y <= 0x7FFF_FFFF {
      ShiftRange(y, 1);
      ShlShl(x, n, 1);
      n, y := n + 1, Shl(y, 1);
    }
    assert y == Shl(x, n);
  }

  /* ----- products, quotients and order ----- */

  lemma MulLe(a: int, b: int, c: nat)
    requires a <= b
    ensures a * c <= b * c
  {
    assert (b - a) * c >= 0;
  }

  lemma MulLt(a: int, b: int, c: nat)
    requires a < b && c > 0
    ensures a * c < b * c
  {
    MulLe(a + 1, b, c);
    assert (a + 1) * c == a * c + c;
  }

  // Cancelling a positive factor.
  lemma CancelLe(a: int, b: int, c: nat)
    requires a * c < (b + 1) * c
    ensures a <= b
  {
    if a > b {
      MulLe(b + 1, a, c);
    }
  }

  lemma DivBounds(n: nat, d: nat)
    requires d > 0
    ensures 0 <= n / d <= n
    ensures n == (n / d) * d + n % d && 0 <= n % d < d
    ensures (n / d) * d <= n < (n / d + 1) * d
  {
    var q, r := n / d, n % d;
    assert n == d * q + r && 0 <= r < d;
    QuotientBounds(n, d, q, r);
  }

  lemma QuotientBounds(n: nat, d: nat, q: int, r: nat)
    requires n == d * q + r && r < d
    ensures 0 <= q <= n
    ensures q * d == d * q
    ensures (q + 1) * d == d * q + d
  {
    if q < 0 {
      MulLe(q, -1, d);
    } else {
      MulLe(1, d, q);
    }
  }

  lemma DivUnique(n: nat, d: nat, q: int)
    requires d > 0
    requires q * d <= n < (q + 1) * d
    ensures n / d == q
  {
    DivBounds(n, d);
    CancelLe(n / d, q, d);
    CancelLe(q, n / d, d);
  }

  lemma MulAssoc(a: int, b: int, c: int)
    ensures (a * b) * c == a * (b * c)
  {
  }

  lemma MulSwap(a: int, b: int, c: int)
    ensures (a * b) * c == (a * c) * b
  {
    MulAssoc(a, b, c);
    MulAssoc(a, c, b);
  }

  lemma DivDiv(n: nat, a: nat, b: nat)
    requires a > 0 && b > 0
    ensures a * b > 0
    ensures n / a / b == n / (a * b)
  {
    var x := n / a;
    var y := x / b;
    DivBounds(n, a);
    DivBounds(x, b);
    MulLe(y * b, x, a);
    MulLe(x + 1, (y + 1) * b, a);
    MulSwap(y, b, a);
    MulAssoc(y, a, b);
    MulSwap(y + 1, b, a);
    MulAssoc(y + 1, a, b);
    DivUnique(n, a * b, y);
  }

  /* ----- the quotient estimate ----- */

  lemma SquareBound(k: nat, v: nat)
    requires k >= 2 && v >= 0x8000_0000
    ensures 0x1_0000_0000_0000_0000 * (k - 1) <= (v * k) * (v * k)
  {
    var w := v * k;
    MulLe(0x8000_0000, v, k);
    var m := 0x8000_0000 * k;
    MulLe(m, w, m);
    MulLe(m, w, w);
    assert m * m == 0x4000_0000_0000_0000 * (k * k);
    assert k * k - 4 * (k - 1) == (k - 2) * (k - 2);
    assert (k - 2) * (k - 2) >= 0;
  }

  // Rounding the divisor down to a multiple of k loses so little that n/w exceeds n/d by less than 1.
  lemma RoundedDivisorGap(n: U64, d: nat, k: nat, v: nat, w: nat)
    requires k >= 2 && v >= 0x8000_0000 && w == v * k
    requires w <= d < w + k
    ensures n * (d - w) < d * w
  {
    SquareBound(k, v);
    assert w > 0;
    MulLe(w, d, w);
    if d == w {
      assert w * w > 0;
    } else {
      MulLt(n, 0x1_0000_0000_0000_0000, d - w);
    }
  }

  lemma EstimateUpper(n: nat, d: nat, w: nat, q: nat)
    requires w > 0 && d > 0
    requires n * (d - w) < d * w
    requires n < (q + 1) * d
    ensures n < (q + 2) * w
  {
    MulLt(n, (q + 1) * d, w);
    MulSwap(q + 1, d, w);
    assert n * d == n * (d - w) + n * w;
    assert ((q + 1) * w) * d + d * w == ((q + 2) * w) * d by {
      assert (q + 2) * w == (q + 1) * w + w;
    }
    if n >= (q + 2) * w {
      MulLe((q + 2) * w, n, d);
    }
  }

  lemma EstimateBounds(n: U64, d: nat, k: nat, v: nat)
    requires k >= 2 && v >= 0x8000_0000
    requires v * k <= d < v * k + k
    ensures v * k > 0
    ensures n / d <= n / (v * k) <= n / d + 1
  {
    var w := v * k;
    assert w > 0 by { MulLe(1, v, k); }
    var q, e := n / d, n / w;
    DivBounds(n, d);
    DivBounds(n, w);
    MulLe(w, d, q);
    CancelLe(q, e, w);
    RoundedDivisorGap(n, d, k, v, w);
    EstimateUpper(n, d, w, q);
    CancelLe(e, q + 1, w);
  }

  // d1 < k = 2^(32-s) when its s-bit shift fits in 32 bits, so there is room for the bits shifted in below.
  lemma ShiftFits(d1: nat, p: nat, k: nat)
    requires p > 0 && p * k == 0x1_0000_0000
    requires d1 * p < 0x1_0000_0000
    ensures (d1 + 1) * p <= 0x1_0000_0000
  {
    CancelLe(d1, k - 1, p);
    MulLe(d1 + 1, k, p);
  }

  // Dropping the low 32 bits of d * p, where p * k is 2^32, divides d by k.
  lemma TopIsQuotient(d: nat, p: nat, k: nat, v: nat)
    requires p > 0 && p * k == 0x1_0000_0000
    requires 0x1_0000_0000 * v <= d * p < 0x1_0000_0000 * (v + 1)
    ensures v * k <= d < v * k + k
  {
    MulSwap(v, k, p);
    MulAssoc(v, p, k);
    MulSwap(v + 1, k, p);
    MulAssoc(v + 1, p, k);
    assert (v + 1) * k == v * k + k;
    if d < v * k {
      MulLt(d, v * k, p);
    } else if d >= (v + 1) * k {
      MulLe((v + 1) * k, d, p);
    }
  }

  // The top 32 bits of d << s, without the bits below: they are d rounded down to a multiple of k.
  lemma NormalizedTop(d: U64, s: nat, k: nat)
    requires s < 32 && k == Pow2(32 - s)
    requires 0x8000_0000 <= Shl(d / 0x1_0000_0000, s) < 0x1_0000_0000
    ensures Shl(d, s) < 0x1_0000_0000_0000_0000
    ensures 0x8000_0000 <= Shl(d, s) / 0x1_0000_0000 < 0x1_0000_0000
    ensures var v := Shl(d, s) / 0x1_0000_0000; v * k <= d < v * k + k
  {
    var p := Pow2(s);
    var d1, low := d / 0x1_0000_0000, d % 0x1_0000_0000;
    Pow2Split(s);
    ShlIsMul(d1, s);
    ShlIsMul(d, s);
    ShiftFits(d1, p, k);
    SplitProduct(d1, low, p);
    TopIsQuotient(d, p, k, Shl(d, s) / 0x1_0000_0000);
  }

  lemma SplitProduct(d1: nat, low: nat, p: nat)
    requires p > 0 && low < 0x1_0000_0000
    ensures 0x1_0000_0000 * (d1 * p) <= (0x1_0000_0000 * d1 + low) * p < 0x1_0000_0000 * ((d1 + 1) * p)
  {
    assert (0x1_0000_0000 * d1 + low) * p == 0x1_0000_0000 * (d1 * p) + low * p;
    assert (d1 + 1) * p == d1 * p + p;
    MulLt(low, 0x1_0000_0000, p);
    MulLe(0, low, p);
  }

  // What `divl(n >> 1, (d << s) >> 32) >> (31 - s)` is, and that neither step leaves 32 bits.
  lemma Estimate(n: U64, d: U64, s: nat)
    requires s < 32
    requires 0x8000_0000 <= Shl(d / 0x1_0000_0000, s) < 0x1_0000_0000
    ensures Shl(d, s) < 0x1_0000_0000_0000_0000
    ensures 0x8000_0000 <= Shl(d, s) / 0x1_0000_0000 < 0x1_0000_0000
    ensures n / 2 / (Shl(d, s) / 0x1_0000_0000) < 0x1_0000_0000
    ensures d > 0
    ensures n / d <= n / 2 / (Shl(d, s) / 0x1_0000_0000) / Pow2(31 - s) <= n / d + 1
  {
    var k, h := Pow2(32 - s), Pow2(31 - s);
    Pow2Split(s);
    NormalizedTop(d, s, k);
    var v := Shl(d, s) / 0x1_0000_0000;
    MulLe(1, v, k);
    EstimateBounds(n, d, k, v);
    DivDiv(n, 2, v);
    DivDiv(n, 2 * v, h);
    assert (2 * v) * h == v * k by { MulSwap(2, v, h); MulAssoc(2, h, v); }
    var u := n / 2;
    DivBounds(u, v);
    MulLe(0x8000_0000, v, u / v);
  }

  // The corrected quotient, with the subtraction and product carried out modulo 2^64.
  function Correct(n: U64, d: U64, q: U64): U64
    requires q >= 1
  {
    if Wrap64(n - Wrap64((q - 1) * d)) < d then q - 1 else q
  }

  // An estimate of n/d that is right or one too large is put right by a single comparison.
  lemma CorrectionStep(n: U64, d: U64, q: U64)
    requires 0 < d <= n
    requires n / d <= q <= n / d + 1
    ensures 1 <= q
    ensures 0 <= (q - 1) * d <= n
    ensures n / d == Correct(n, d, q)
  {
    var e := n / d;
    DivBounds(n, d);
    CancelLe(1, e, d);
    MulLe(q - 1, e, d);
    MulLe(0, q - 1, d);
    assert (e - 1) * d == e * d - d;
    assert (e + 1) * d == e * d + d;
  }

  // The two-digit schoolbook step used when the divisor fits in 32 bits: n == 2^32 * n1 + n0.
  lemma ShortDivision(n1: U32, n0: U32, d: U32)
    requires d != 0
    ensures 0 <= n1 / d < 0x1_0000_0000 && 0 <= n1 % d < 0x1_0000_0000
    ensures var m := 0x1_0000_0000 * (n1 % d) + n0;
            && m < 0x1_0000_0000_0000_0000
            && 0 <= m / d < 0x1_0000_0000
            && m / d + 0x1_0000_0000 * (n1 / d) == (0x1_0000_0000 * n1 + n0) / d
  {
    DivBounds(n1, d);
    var t, r := n1 / d, n1 % d;
    var m := 0x1_0000_0000 * r + n0;
    DivBounds(m, d);
    var e := m / d;
    CancelLe(e, 0xFFFF_FFFF, d);
    TwoDigits(n1, n0, d, t, r, e);
  }

  lemma TwoDigits(n1: U32, n0: U32, d: U32, t: nat, r: nat, e: nat)
    requires d != 0
    requires n1 == t * d + r
    requires e * d <= 0x1_0000_0000 * r + n0 < (e + 1) * d
    ensures e + 0x1_0000_0000 * t == (0x1_0000_0000 * n1 + n0) / d
  {
    var q := e + 0x1_0000_0000 * t;
    assert q * d == e * d + 0x1_0000_0000 * (t * d);
    assert (q + 1) * d == (e + 1) * d + 0x1_0000_0000 * (t * d);
    DivUnique(0x1_0000_0000 * n1 + n0, d, q);
  }

  /** Divisor of at most 32 bits: one `divl` per 32-bit digit of n. */
  method ShortQuotient(n: U64, d: U32) returns (q: U64)
    requires d != 0
    ensures q == n / d
  {
    var n1: U32, n0: U32 := n / 0x1_0000_0000, n % 0x1_0000_0000;
    ShortDivision(n1, n0, d);
    q := Divl(0x1_0000_0000 * (n1 % d) + n0, d) + 0x1_0000_0000 * (n1 / d);
    assert 0 <= n / d <= n by { DivBounds(n, d); }
  }

  /** Divisor above 32 bits: estimate from the normalized top digit, then correct. */
  method LongQuotient(n: U64, d: U64) returns (q: U64)
    requires 0x1_0000_0000 <= d <= n
    ensures q == n / d
  {
    var d1: U32 := d / 0x1_0000_0000;
    var s := Nlz(d1);
    Estimate(n, d, s);
    var e := Divl(n / 2, Shl(d, s) / 0x1_0000_0000);
    assert e / Pow2(31 - s) <= e by { DivBounds(e, Pow2(31 - s)); }
    q := e / Pow2(31 - s);
    CorrectionStep(n, d, q);
    q := Correct(n, d, q);
  }

  /** Unsigned division. Every `Divl` call meets its no-trap precondition. */
  method UDiv64(n: U64, d: U64) returns (q: U64)
    requires d != 0
    ensures q == n / d
  {
    if d < 0x1_0000_0000 {  // d >> 32 is zero
      q := ShortQuotient(n, d);
    } else if n < d {
      q := 0;
    } else {
      q := LongQuotient(n, d);
    }
  }

  /** Unsigned remainder: the C function returns it through a 32-bit type. */
  method UMod64(n: U64, d: U64) returns (r: U32)
    requires d != 0
    ensures r == Wrap32(n % d)
  {
    var q := UDiv64(n, d);
    assert d * q == n - n % d && 0 <= d * q <= n by {
      DivBounds(n, d);
      assert d * q == q * d;
    }
    r := Wrap32(Wrap64(n - Wrap64(d * q)));
  }

  /** The 32-bit return type loses nothing, whatever n is, exactly for divisors up to 2^32. */
  lemma UModExactIff(d: U64)
    requires d != 0
    ensures (forall n: U64 :: Wrap32(n % d) == n % d) <==> d <= 0x1_0000_0000
  {
    if d > 0x1_0000_0000 {
      var n: U64 := 0x1_0000_0000;
      DivUnique(n, d, 0);
      DivBounds(n, d);
      assert Wrap32(n % d) != n % d;
    } else {
      forall n: U64
        ensures Wrap32(n % d) == n % d
      {
        DivBounds(n, d);
      }
    }
  }

  /* ----- signed division ----- */

  /** Division rounding toward zero, and the remainder that goes with it. */
  function TruncDiv(n: int, d: int): int
    requires d != 0
  {
    if (n < 0) == (d < 0) then Abs(n) / Abs(d) else -(Abs(n) / Abs(d))
  }

  function TruncMod(n: int, d: int): int
    requires d != 0
  {
    n - d * TruncDiv(n, d)
  }

  /** TruncDiv and TruncMod are the C operators: the remainder takes the dividend's sign. */
  lemma TruncMeaning(n: int, d: int)
    requires d != 0
    ensures Abs(TruncMod(n, d)) == Abs(n) % Abs(d) < Abs(d)
    ensures Abs(TruncMod(n, d)) <= Abs(n)
    ensures TruncMod(n, d) != 0 ==> (TruncMod(n, d) < 0 <==> n < 0)
  {
    var a: int, b: int := Abs(n), Abs(d);
    var q: int := a / b;
    DivBounds(a, b);
    MulLe(0, q, b);
    assert b * q == q * b;
    assert (-b) * q == -(b * q);
    assert b * (-q) == -(b * q);
    assert (-b) * (-q) == b * q;
  }

  // The magnitude of a quotient reaches 2^63 only when 2^63 is divided by one.
  lemma AbsQuotient(n: nat, d: nat)
    requires n <= 0x8000_0000_0000_0000 && d > 0
    ensures n / d <= 0x8000_0000_0000_0000
    ensures n / d == 0x8000_0000_0000_0000 <==> n == 0x8000_0000_0000_0000 && d == 1
  {
    DivBounds(n, d);
    if d > 1 {
      MulLe(2, d, n / d);
    }
  }

  /** Signed division; negating INT64_MIN is taken to wrap around. INT64_MIN / -1 is the one quotient that does not fit. */
  method SDiv64(n: S64, d: S64) returns (q: S64)
    requires d != 0
    ensures q == TruncDiv(n, d) <==> !(n == INT64_MIN && d == -1)
    ensures n == INT64_MIN && d == -1 ==> q == INT64_MIN
  {
    var nAbs: U64 := if n >= 0 then n else Neg64(Wrap64(n));
    var dAbs: U64 := if d >= 0 then d else Neg64(Wrap64(d));
    assert nAbs == Abs(n) && dAbs == Abs(d);
    var qAbs := UDiv64(nAbs, dAbs);
    AbsQuotient(nAbs, dAbs);
    q := if (n < 0) == (d < 0) then ToS64(qAbs) else ToS64(Neg64(qAbs));
  }

  // n - d * q with wrap-around at 64 bits, for the q that SDiv64 returns.
  lemma WrappedRemainder(n: S64, d: S64, q: S64)
    requires d != 0
    requires if n == INT64_MIN && d == -1 then q == INT64_MIN else q == TruncDiv(n, d)
    ensures ToS64(n - ToS64(d * q)) == TruncMod(n, d)
  {
    TruncMeaning(n, d);
    var m, p := TruncMod(n, d), d * q;
    if n == INT64_MIN && d == -1 {
      WrapOnce(n, p, m);
    } else {
      assert p == n - m;
      WrapOnce(n, p, m);
    }
  }

  lemma WrapOnce(n: S64, p: int, m: S64)
    requires p == n - m || (n == INT64_MIN && p == 0x8000_0000_0000_0000 && m == 0)
    requires p == n - m ==> -0x8000_0000_0000_0000 <= p < 0x8000_0000_0000_0000
    ensures ToS64(n - ToS64(p)) == m
  {
  }

  /** Signed remainder, returned through a 32-bit type. */
  method SMod64(n: S64, d: S64) returns (r: S32)
    requires d != 0
    ensures r == ToS32(TruncMod(n, d))
  {
    var q := SDiv64(n, d);
    WrappedRemainder(n, d, q);
    r := ToS32(ToS64(n - ToS64(d * q)));
  }

  /** Exact for every n exactly when the divisor's magnitude is at most 2^31. */
  lemma SModExactIff(d: S64)
    requires d != 0
    ensures (forall n: S64 :: ToS32(TruncMod(n, d)) == TruncMod(n, d)) <==> -0x8000_0000 <= d <= 0x8000_0000
  {
    if -0x8000_0000 <= d <= 0x8000_0000 {
      forall n: S64
        ensures ToS32(TruncMod(n, d)) == TruncMod(n, d)
      {
        TruncMeaning(n, d);
      }
    } else {
      var n: S64 := 0x8000_0000;
      DivUnique(n, Abs(d), 0);
      assert TruncMod(n, d) == n;
      assert ToS32(TruncMod(n, d)) != TruncMod(n, d);
    }
  }
}
