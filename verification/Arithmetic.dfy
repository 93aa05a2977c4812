/** 64-bit division built from the x86 64-by-32 divide (lib/arithmetic.c).

    Machine words are integers with their width written out: a shift left or a
    subtraction that the C code performs on an unsigned type is reduced modulo
    the width, so that "no wrap-around happens" is something that is proved. */
module Arithmetic {
  import opened Bits
  import opened Numbers

  ghost predicate IsU32(x: int) { 0 <= x < 0x1_0000_0000 }
  ghost predicate IsU64(x: int) { 0 <= x < 0x1_0000_0000_0000_0000 }
  ghost predicate IsI64(x: int) { -0x8000_0000_0000_0000 <= x < 0x8000_0000_0000_0000 }

  function Wrap64(x: int): int { x % 0x1_0000_0000_0000_0000 }

  // Conversion of a machine word to a signed type of the same width.
  function ToI64(x: int): int {
    var u := Wrap64(x);
    if u < 0x8000_0000_0000_0000 then u else u - 0x1_0000_0000_0000_0000
  }

  function ToI32(x: int): int {
    var u := x % 0x1_0000_0000;
    if u < 0x8000_0000 then u else u - 0x1_0000_0000
  }

  /** The DIVL instruction.  It traps unless the quotient fits in 32 bits, so
      every call below proves that it does not trap. */
  function Divl(n: int, d: int): (q: int)
    requires IsU64(n) && 0 < d < 0x1_0000_0000
    requires n / d < 0x1_0000_0000
    ensures IsU32(q) && q == n / d
  {
    QuotientBounds(n, d);
    n / d
  }

  // Shifts of an unbounded nonnegative integer, one bit at a time.
  function Shl(x: int, k: nat): int {
    if k == 0 then x else 2 * Shl(x, k - 1)
  }

  function Shr(x: int, k: nat): int {
    if k == 0 then x else Shr(x, k - 1) / 2
  }

  /** Number of leading zeros of a nonzero 32-bit word, by halving shifts. */
  method Nlz(word: int) returns (n: nat)
    requires 0 < word < 0x1_0000_0000
    ensures n <= 31
    ensures 0x8000_0000 <= Shl(word, n) < 0x1_0000_0000
  {
    var x := word;
    n := 0;
    if x <= 0x0000_FFFF {
      Shl32Exact(word, n, 16);
      n := n + 16;
      x := Shl32(x, 16);
    }
    assert x == Shl(word, n) && 0x1_0000 <= x < 0x1_0000_0000;
    if x <= 0x00FF_FFFF {
      Shl32Exact(word, n, 8);
      n := n + 8;
      x := Shl32(x, 8);
    }
    assert x == Shl(word, n) && 0x100_0000 <= x < 0x1_0000_0000;
    if x <= 0x0FFF_FFFF {
      Shl32Exact(word, n, 4);
      n := n + 4;
      x := Shl32(x, 4);
    }
    assert x == Shl(word, n) && 0x1000_0000 <= x < 0x1_0000_0000;
    if x <= 0x3FFF_FFFF {
      Shl32Exact(word, n, 2);
      n := n + 2;
      x := Shl32(x, 2);
    }
    assert x == Shl(word, n) && 0x4000_0000 <= x < 0x1_0000_0000;
    if x <= 0x7FFF_FFFF {
      n := n + 1;
    }
  }

  // C's shift of a 32-bit word drops the bits that leave it.
  function Shl32(x: int, k: nat): int {
    Shl(x, k) % 0x1_0000_0000
  }

  // None of nlz's shifts drops a bit.
  lemma Shl32Exact(word: int, n: nat, k: nat)
    requires k in {2, 4, 8, 16}
    requires 0 <= Shl(word, n) <
               (if k == 16 then 0x1_0000 else if k == 8 then 0x100_0000 else if k == 4 then 0x1000_0000
                else 0x4000_0000)
    ensures Shl32(Shl(word, n), k) == Shl(word, n + k) < 0x1_0000_0000
    ensures Shl(word, n + k) ==
              Shl(word, n) * (if k == 16 then 0x1_0000 else if k == 8 then 0x100 else if k == 4 then 16 else 4)
  {
    ShlSum(word, n, k);
    if k == 16 { ShlBy16(word, n); }
    if k == 8 { ShlBy8(word, n); }
    if k == 4 { ShlBy4(word, n); }
    if k == 2 { ShlBy2(word, n); }
  }

  lemma {:induction false} ShlSum(x: int, n: nat, k: nat)
    ensures Shl(x, n + k) == Shl(Shl(x, n), k)
  {
    if k > 0 {
      ShlSum(x, n, k - 1);
    }
  }

  // The shifts that nlz performs, as multiplications.
  lemma ShlBy2(x: int, n: nat)
    ensures Shl(x, n + 2) == 4 * Shl(x, n)
  {
    assert Shl(x, n + 2) == 2 * Shl(x, n + 1);
  }

  lemma ShlBy4(x: int, n: nat)
    ensures Shl(x, n + 4) == 16 * Shl(x, n)
  {
    ShlBy2(x, n);
    ShlBy2(x, n + 2);
  }

  lemma ShlBy8(x: int, n: nat)
    ensures Shl(x, n + 8) == 0x100 * Shl(x, n)
  {
    ShlBy4(x, n);
    ShlBy4(x, n + 4);
  }

  lemma ShlBy16(x: int, n: nat)
    ensures Shl(x, n + 16) == 0x1_0000 * Shl(x, n)
  {
    ShlBy8(x, n);
    ShlBy8(x, n + 8);
  }

  /** Quotient of two unsigned 64-bit integers.  The second branch is the
      Hacker's Delight estimate: see EstimateOffByOne. */
  method Udiv64(n: int, d: int) returns (r: int)
    requires IsU64(n) && 0 < d < 0x1_0000_0000_0000_0000
    ensures r == n / d
    ensures IsU64(r)
  {
    if d / 0x1_0000_0000 == 0 {
      var n1, n0, d0 := n / 0x1_0000_0000, n % 0x1_0000_0000, d % 0x1_0000_0000;
      LongDivision(n, d);
      r := Divl(0x1_0000_0000 * (n1 % d0) + n0, d0) + 0x1_0000_0000 * (n1 / d0);
    } else if n < d {
      SmallRemainder(n, d);
      r := 0;
    } else {
      var d1 := d / 0x1_0000_0000;
      var s := Nlz(d1);
      Normalized(d, s);
      var v := Shl(d, s) % 0x1_0000_0000_0000_0000 / 0x1_0000_0000;
      EstimateOffByOne(n, d, s);
      var q := Shr(Divl(n / 2, v), 31 - s);
      EstimateCheck(n, d, q);
      // The product and the subtraction are unsigned 64-bit operations.
      r := if (n - (q - 1) * d) % 0x1_0000_0000_0000_0000 < d then q - 1 else q;
    }
    QuotientMax(n, d);
  }

  /** Remainder, returned through a 32-bit result type. */
  method Umod64(n: int, d: int) returns (r: int)
    requires IsU64(n) && 0 < d < 0x1_0000_0000_0000_0000
    ensures r == Umod64Value(n, d)
  {
    var q := Udiv64(n, d);
    RemainderWord(n, d);
    r := (n - d * q) % 0x1_0000_0000_0000_0000 % 0x1_0000_0000;
  }

  function Umod64Value(n: int, d: int): (r: int)
    requires d > 0
  {
    n % d % 0x1_0000_0000
  }

  /** Signed quotient, on a machine whose negation of -2^63 wraps around. It is
      right for every pair of arguments but the one whose quotient is 2^63. */
  method Sdiv64(n: int, d: int) returns (q: int)
    requires IsI64(n) && IsI64(d) && d != 0
    ensures IsI64(q)
    ensures q == TruncDiv(n, d) <==> !(n == -0x8000_0000_0000_0000 && d == -1)
    ensures n == -0x8000_0000_0000_0000 && d == -1 ==> q == n
  {
    AbsWord(n);
    AbsWord(d);
    var nAbs := if n >= 0 then Wrap64(n) else Wrap64(0 - Wrap64(n));
    var dAbs := if d >= 0 then Wrap64(d) else Wrap64(0 - Wrap64(d));
    var qAbs := Udiv64(nAbs, dAbs);
    SignedQuotientRange(n, d);
    ToI64Word(qAbs);
    q := if (n < 0) == (d < 0) then ToI64(qAbs) else ToI64(-ToI64(qAbs));
  }

  /** Signed remainder, returned through a 32-bit signed result type. */
  method Smod64(n: int, d: int) returns (r: int)
    requires IsI64(n) && IsI64(d) && d != 0
    ensures r == Smod64Value(n, d)
  {
    var q := Sdiv64(n, d);
    r := ToI32(n - d * q);
    if n == -0x8000_0000_0000_0000 && d == -1 {
      LeastByMinusOne(q);
    }
  }

  // The quotient is wrong, but off by a multiple of 2^32.
  lemma LeastByMinusOne(q: int)
    requires q == -0x8000_0000_0000_0000
    ensures ToI32(-0x8000_0000_0000_0000 - -1 * q) == Smod64Value(-0x8000_0000_0000_0000, -1)
  {
    assert TruncDiv(-0x8000_0000_0000_0000, -1) == 0x8000_0000_0000_0000;
  }

  function Smod64Value(n: int, d: int): (r: int)
    requires d != 0
  {
    ToI32(n - d * TruncDiv(n, d))
  }

  function Abs(x: int): nat { if x >= 0 then x else -x }

  /** C's division: round toward zero. */
  function TruncDiv(n: int, d: int): (q: int)
    requires d != 0
  {
    if (n < 0) == (d < 0) then Abs(n) / Abs(d) else -(Abs(n) / Abs(d))
  }

  // ---------- The 64-by-32 case ----------

  lemma LongDivision(n: int, d: int)
    requires IsU64(n) && 0 < d < 0x1_0000_0000
    ensures var m := 0x1_0000_0000 * (n / 0x1_0000_0000 % d) + n % 0x1_0000_0000;
            0 <= m < 0x1_0000_0000_0000_0000 && 0 <= m / d < 0x1_0000_0000
              && m / d + 0x1_0000_0000 * (n / 0x1_0000_0000 / d) == n / d
  {
    var n1, n0 := n / 0x1_0000_0000, n % 0x1_0000_0000;
    var m, t := 0x1_0000_0000 * (n1 % d) + n0, 0x1_0000_0000 * (n1 / d);
    QuotientBounds(n1, d);
    assert n == m + t * d by { assert 0x1_0000_0000 * (n1 / d * d) == t * d; }
    QuotientShift(m, t, d);
    QuotientBelow(m, 0x1_0000_0000, d);
  }

  // ---------- The estimate ----------

  // With s the leading zeros of d's high word, d shifted by s fills 64 bits.
  lemma Normalized(d: int, s: nat)
    requires 0x1_0000_0000 <= d < 0x1_0000_0000_0000_0000 && s <= 31
    requires 0x8000_0000 <= Shl(d / 0x1_0000_0000, s) < 0x1_0000_0000
    ensures 0x8000_0000_0000_0000 <= Shl(d, s) < 0x1_0000_0000_0000_0000
  {
    var d1, c := d / 0x1_0000_0000, Pow2(32 - s);
    ShlPow2(s);
    if d1 >= c { ShlMono(c, d1, s); assert false; }
    ShlMono(d1 + 1, c, s);
    ShlScale(d1, s);
    ShlScale(d1 + 1, s);
    ShlMono(0x1_0000_0000 * d1, d, s);
    ShlStrict(d, 0x1_0000_0000 * (d1 + 1), s);
  }

  /** The heart of the algorithm: the quotient of n/2 by the top 32 bits of the
      normalised divisor fits in 32 bits, and after the second shift it is the
      true quotient or one more. */
  lemma EstimateOffByOne(n: int, d: int, s: nat)
    requires IsU64(n) && 0x1_0000_0000 <= d < 0x1_0000_0000_0000_0000 && d <= n && s <= 31
    requires 0x8000_0000_0000_0000 <= Shl(d, s) < 0x1_0000_0000_0000_0000
    ensures var v := Shl(d, s) % 0x1_0000_0000_0000_0000 / 0x1_0000_0000;
            && 0x8000_0000 <= v < 0x1_0000_0000
            && n / 2 / v < 0x1_0000_0000
            && n / d <= Shr(n / 2 / v, 31 - s) <= n / d + 1
  {
    var v := Shl(d, s) / 0x1_0000_0000;
    TopWord(Shl(d, s));
    QuotientBelow(n / 2, 0x1_0000_0000, v);
    EstimateGap(d, s, v, Pow2(32 - s));
    ShiftedQuotient(n, v, 31 - s);
    QuotientClose(n, d, v * Pow2(32 - s), Pow2(32 - s));
  }

  lemma TopWord(x: int)
    requires 0x8000_0000_0000_0000 <= x < 0x1_0000_0000_0000_0000
    ensures x % 0x1_0000_0000_0000_0000 == x
    ensures 0x8000_0000 <= x / 0x1_0000_0000 < 0x1_0000_0000
  {}

  // Dividing by w instead of d overshoots by at most one.
  lemma QuotientClose(n: int, d: int, w: int, p: int)
    requires IsU64(n) && p >= 2 && 0 <= d - w < p && w >= 0x8000_0000 * p
    ensures w > 0 && n / d <= n / w <= n / d + 1
  {
    QuotientAntitone(n, w, d);
    EstimateClose(n, d, w, p);
    QuotientNear(n, w, d);
  }

  // The two divisions and the shift divide by their product.
  lemma ShiftedQuotient(n: int, v: int, k: nat)
    requires 0 <= n && 0 < v
    ensures 0 < v * Pow2(k + 1) && Shr(n / 2 / v, k) == n / (v * Pow2(k + 1))
  {
    DivDiv(n, 2, v);
    QuotientBounds(n, 2 * v);
    ShrDiv(n / (2 * v), k);
    DivDiv(n, 2 * v, Pow2(k));
    MulDouble(v, Pow2(k));
  }

  // w, the divisor with its low bits dropped, is below d by less than p.
  lemma EstimateGap(d: int, s: nat, v: int, p: int)
    requires 0x1_0000_0000 <= d < 0x1_0000_0000_0000_0000 && s <= 31 && p == Pow2(32 - s)
    requires 0x8000_0000_0000_0000 <= Shl(d, s) < 0x1_0000_0000_0000_0000 && v == Shl(d, s) / 0x1_0000_0000
    ensures 0 <= d - v * p < p
    ensures p >= 2 && v * p >= 0x8000_0000 * p > 0
  {
    TopWord(Shl(d, s));
    assert p == 2 * Pow2(31 - s);
    MulMono(0x8000_0000, v, p);
    ShiftedMultiple(v, p, s);
    ShiftedMultiple(v + 1, p, s);
    NextMultiple(v, p);
    GapFromShift(d, v, v * p, v * p + p, s);
  }

  lemma NextMultiple(v: int, p: int)
    ensures (v + 1) * p == v * p + p
  {}

  lemma ShiftedMultiple(v: int, p: int, s: nat)
    requires s <= 31 && p == Pow2(32 - s)
    ensures Shl(v * p, s) == v * 0x1_0000_0000
  {
    ShlPow2(s);
    ShlTimes(v, p, s);
  }

  lemma GapFromShift(d: int, v: int, lo: int, hi: int, s: nat)
    requires v == Shl(d, s) / 0x1_0000_0000
    requires Shl(lo, s) == v * 0x1_0000_0000 && Shl(hi, s) == (v + 1) * 0x1_0000_0000
    ensures lo <= d < hi
  {
    if d < lo { ShlStrict(d, lo, s); }
    if d >= hi { ShlMono(hi, d, s); }
  }

  // 4(p - 1) <= p * p is what keeps the estimate within one.
  lemma EstimateClose(n: int, d: int, w: int, p: int)
    requires IsU64(n) && p >= 2 && 0 <= d - w < p && w >= 0x8000_0000 * p
    ensures n * (d - w) < d * w
  {
    var c := 0x8000_0000 * p;
    assert d * w >= c * c by { MulMono(c, d, w); MulMono(c, w, c); }
    assert c * c == 0x4000_0000_0000_0000 * (p * p);
    assert 4 * (p - 1) <= p * p by { assert (p - 2) * (p - 2) >= 0; }
    if d == w {
      MulMono(1, d, w);
    } else {
      assert n * (d - w) < 0x1_0000_0000_0000_0000 * (d - w) by { MulStrict(n, 0x1_0000_0000_0000_0000, d - w); }
    }
  }

  lemma EstimateCheck(n: int, d: int, q: int)
    requires IsU64(n) && 0 < d <= n && n / d <= q <= n / d + 1
    ensures n / d == if (n - (q - 1) * d) % 0x1_0000_0000_0000_0000 < d then q - 1 else q
  {
    QuotientBounds(n, d);
    var m := n / d * d;
    assert (q - 1) * d == if q == n / d then m - d else m;
    assert m >= d by { QuotientAtLeastOne(n, d); MulMono(1, n / d, d); }
  }

  // ---------- Exactly when the 32-bit remainder types suffice ----------

  /** The unsigned remainder is right for every dividend if and only if the
      divisor is at most 2^32. */
  lemma UmodExactness(d: int)
    requires 0 < d < 0x1_0000_0000_0000_0000
    ensures (forall n | IsU64(n) :: Umod64Value(n, d) == n % d) <==> d <= 0x1_0000_0000
  {
    if d > 0x1_0000_0000 {
      assert Umod64Value(0x1_0000_0000, d) == 0
        && 0x1_0000_0000 % d == 0x1_0000_0000 by { SmallRemainder(0x1_0000_0000, d); }
    }
  }

  /** The signed remainder is right for every dividend if and only if the
      divisor's magnitude is at most 2^31. */
  lemma SmodExactness(d: int)
    requires IsI64(d) && d != 0
    ensures (forall n | IsI64(n) :: SmodRight(n, d)) <==> Abs(d) <= 0x8000_0000
  {
    if Abs(d) <= 0x8000_0000 {
      forall n | IsI64(n) ensures SmodRight(n, d) { SmodWithin(n, d); }
    } else {
      SmodBeyond(d);
      assert IsI64(0x8000_0000);
    }
  }

  predicate SmodRight(n: int, d: int)
    requires d != 0
  {
    Smod64Value(n, d) == n - d * TruncDiv(n, d)
  }

  lemma SmodWithin(n: int, d: int)
    requires IsI64(n) && 0 < Abs(d) <= 0x8000_0000
    ensures SmodRight(n, d)
  {
    TruncRemainder(n, d);
  }

  // The dividend 2^31 shows it for every larger divisor.
  lemma SmodBeyond(d: int)
    requires Abs(d) > 0x8000_0000
    ensures !SmodRight(0x8000_0000, d)
  {
    SmallRemainder(0x8000_0000, Abs(d));
    QuotientBounds(0x8000_0000, Abs(d));
    assert TruncDiv(0x8000_0000, d) == 0;
  }

  /** A remainder takes the dividend's sign and is smaller than the divisor. */
  lemma TruncRemainder(n: int, d: int)
    requires d != 0
    ensures var r := n - d * TruncDiv(n, d);
            && Abs(r) < Abs(d)
            && Abs(r) == Abs(n) % Abs(d)
            && (n >= 0 ==> r >= 0) && (n <= 0 ==> r <= 0)
  {
    var a, b := Abs(n), Abs(d);
    QuotientBounds(a, b);
    assert a == a / b * b + a % b;
    var m: int := a / b * b;
    assert d * TruncDiv(n, d) == if n < 0 then -m else m;
  }

  // ---------- Shifts ----------

  lemma {:induction false} ShlPow2(s: nat)
    requires s <= 32
    ensures Shl(Pow2(32 - s), s) == 0x1_0000_0000
  {
    if s == 0 {
      ShlBy16(1, 0);
      ShlBy16(1, 16);
      Pow2Shl(32);
    } else {
      ShlPow2(s - 1);
      var p := Pow2(32 - s);
      ShlSum(p, 1, s - 1);
      assert Shl(p, 1) == 2 * p;
    }
  }

  lemma {:induction false} Pow2Shl(k: nat)
    ensures Pow2(k) == Shl(1, k)
  {
    if k > 0 { Pow2Shl(k - 1); }
  }

  lemma {:induction false} ShlMono(a: int, b: int, k: nat)
    requires a <= b
    ensures Shl(a, k) <= Shl(b, k)
  {
    if k > 0 { ShlMono(a, b, k - 1); }
  }

  lemma {:induction false} ShlStrict(a: int, b: int, k: nat)
    requires a < b
    ensures Shl(a, k) < Shl(b, k)
  {
    if k > 0 { ShlStrict(a, b, k - 1); }
  }

  lemma {:induction false} ShlScale(a: int, k: nat)
    ensures Shl(0x1_0000_0000 * a, k) == 0x1_0000_0000 * Shl(a, k)
  {
    if k > 0 { ShlScale(a, k - 1); }
  }

  lemma {:induction false} ShlTimes(v: int, p: int, k: nat)
    ensures Shl(v * p, k) == v * Shl(p, k)
  {
    if k > 0 {
      ShlTimes(v, p, k - 1);
      assert 2 * (v * Shl(p, k - 1)) == v * (2 * Shl(p, k - 1));
    }
  }

  lemma {:induction false} ShrDiv(x: int, k: nat)
    requires x >= 0
    ensures Shr(x, k) == x / Pow2(k)
  {
    if k > 0 {
      ShrDiv(x, k - 1);
      DivDiv(x, Pow2(k - 1), 2);
    }
  }

  // ---------- Machine words ----------

  lemma RemainderWord(n: int, d: int)
    requires IsU64(n) && 0 < d < 0x1_0000_0000_0000_0000
    ensures (n - d * (n / d)) % 0x1_0000_0000_0000_0000 == n % d
  {
    QuotientBounds(n, d);
    assert n - d * (n / d) == n % d;
    SmallRemainder(n % d, 0x1_0000_0000_0000_0000);
  }

  // Negation modulo 2^64 gives the magnitude of a negative number.
  lemma AbsWord(x: int)
    requires IsI64(x)
    ensures Abs(x) == if x >= 0 then Wrap64(x) else Wrap64(0 - Wrap64(x))
  {
    WrapWord(Abs(x));
    if x < 0 { WrapWord(0x1_0000_0000_0000_0000 + x); }
  }

  lemma WrapWord(x: int)
    requires IsU64(x)
    ensures Wrap64(x) == x && (x > 0 ==> Wrap64(-x) == 0x1_0000_0000_0000_0000 - x)
  {
    ModUnique(x, 0x1_0000_0000_0000_0000, 0, x);
    if x > 0 { ModUnique(-x, 0x1_0000_0000_0000_0000, -1, 0x1_0000_0000_0000_0000 - x); }
  }

  lemma ToI64Word(x: int)
    requires 0 <= x <= 0x8000_0000_0000_0000
    ensures ToI64(x) == (if x < 0x8000_0000_0000_0000 then x else -x) && ToI64(-ToI64(x)) == -x
  {
    WrapWord(x);
  }

  lemma SignedQuotientRange(n: int, d: int)
    requires IsI64(n) && IsI64(d) && d != 0
    ensures 0 <= Abs(n) / Abs(d) <= 0x8000_0000_0000_0000
    ensures Abs(n) / Abs(d) == 0x8000_0000_0000_0000 <==> n == -0x8000_0000_0000_0000 && Abs(d) == 1
  {
    var a, b := Abs(n), Abs(d);
    QuotientMax(a, b);
    QuotientBounds(a, b);
    if a / b == 0x8000_0000_0000_0000 && b >= 2 {
      MulMono(2, b, 0x8000_0000_0000_0000);
    }
  }
}
