/** Bitwise operations on unsigned machine words, bit by bit. */
module Bits {
  import opened Numbers

  function Pow2(k: nat): (p: nat)
    ensures p >= 1
  {
    if k == 0 then 1 else 2 * Pow2(k - 1)
  }

  // Bit k of x.
  predicate Bit(x: nat, k: nat) {
    if k == 0 then x % 2 == 1 else Bit(x / 2, k - 1)
  }

  // x & y
  function And(x: nat, y: nat): nat {
    if x == 0 || y == 0 then 0 else 2 * And(x / 2, y / 2) + (if x % 2 == 1 && y % 2 == 1 then 1 else 0)
  }

  // x | y
  function Or(x: nat, y: nat): nat
    decreases x + y
  {
    if x == 0 then y else if y == 0 then x
    else 2 * Or(x / 2, y / 2) + (if x % 2 == 1 || y % 2 == 1 then 1 else 0)
  }

  // x & ~y
  function AndNot(x: nat, y: nat): nat {
    if x == 0 then 0 else 2 * AndNot(x / 2, y / 2) + (if x % 2 == 1 && y % 2 == 0 then 1 else 0)
  }

  lemma {:induction false} BitZero(k: nat)
    ensures !Bit(0, k)
  {
    if k > 0 { BitZero(k - 1); }
  }

  lemma {:induction false} BitPow2(k: nat, j: nat)
    ensures Bit(Pow2(k), j) <==> j == k
  {
    if j == 0 {
    } else if k == 0 {
      BitZero(j - 1);
    } else {
      BitPow2(k - 1, j - 1);
    }
  }

  /** The three operations act on each bit by itself. */
  lemma {:induction false} BitAnd(x: nat, y: nat, j: nat)
    ensures Bit(And(x, y), j) <==> Bit(x, j) && Bit(y, j)
  {
    if x == 0 || y == 0 { BitZero(j); }
    else if j > 0 { BitAnd(x / 2, y / 2, j - 1); }
  }

  lemma {:induction false} BitOr(x: nat, y: nat, j: nat)
    ensures Bit(Or(x, y), j) <==> Bit(x, j) || Bit(y, j)
  {
    if x == 0 || y == 0 { BitZero(j); }
    else if j > 0 { BitOr(x / 2, y / 2, j - 1); }
  }

  lemma {:induction false} BitAndNot(x: nat, y: nat, j: nat)
    ensures Bit(AndNot(x, y), j) <==> Bit(x, j) && !Bit(y, j)
  {
    if x == 0 { BitZero(j); }
    else if j > 0 { BitAndNot(x / 2, y / 2, j - 1); }
  }

  // Testing one bit with a mask.
  lemma {:induction false} MaskTests(x: nat, k: nat)
    ensures And(x, Pow2(k)) != 0 <==> Bit(x, k)
  {
    if x == 0 {
      BitZero(k);
    } else if k > 0 {
      MaskTests(x / 2, k - 1);
    }
  }

  lemma {:induction false} OrBound(x: nat, y: nat, n: nat)
    requires x < Pow2(n) && y < Pow2(n)
    ensures Or(x, y) < Pow2(n)
  {
    if x != 0 && y != 0 { OrBound(x / 2, y / 2, n - 1); }
  }

  lemma {:induction false} AndNotBound(x: nat, y: nat)
    ensures AndNot(x, y) <= x
  {
    if x != 0 { AndNotBound(x / 2, y / 2); }
  }

  lemma {:induction false} Pow2Monotone(a: nat, b: nat)
    requires a < b
    ensures 2 * Pow2(a) <= Pow2(b)
  {
    if b > a + 1 { Pow2Monotone(a, b - 1); }
  }

  // ---------- Powers of two, as hash.c uses them ----------

  ghost predicate IsPow2(x: nat) {
    exists k: nat :: x == Pow2(k)
  }

  lemma Pow2Twice(x: nat)
    requires x > 0
    ensures IsPow2(2 * x) <==> IsPow2(x)
  {
    if IsPow2(x) {
      var k: nat :| x == Pow2(k);
      assert 2 * x == Pow2(k + 1);
    }
    if IsPow2(2 * x) {
      var k: nat :| 2 * x == Pow2(k);
      assert k > 0 && x == Pow2(k - 1);
    }
  }

  /** x & (x - 1) is zero exactly for powers of two; otherwise it is smaller,
      positive, and has the same powers of two below it. */
  lemma {:induction false} LowestBitOff(x: nat)
    requires x > 0
    ensures And(x, x - 1) < x
    ensures And(x, x - 1) == 0 <==> IsPow2(x)
    ensures forall p: nat :: IsPow2(p) && p <= x && And(x, x - 1) != 0 ==> p <= And(x, x - 1)
  {
    var y := And(x, x - 1);
    if x % 2 == 1 {
      var h := x / 2;
      assert (x - 1) / 2 == h;
      AndSelf(h);
      assert y == 2 * h;
      if x == 1 {
        assert x == Pow2(0);
      } else {
        OddNotPow2(x);
        forall p: nat | IsPow2(p) && p <= x ensures p <= y { OddNotPow2Le(p, x); }
      }
    } else {
      var h := x / 2;
      assert (x - 1) / 2 == h - 1 && (x - 1) % 2 == 1;
      assert h == 1 ==> y == 0;
      if h > 1 { assert y == 2 * And(h, h - 1); }
      LowestBitOff(h);
      Pow2Twice(h);
      forall p: nat | IsPow2(p) && p <= x && y != 0 ensures p <= y { HalfPow2(p, h); }
    }
  }

  lemma {:induction false} AndSelf(x: nat)
    ensures And(x, x) == x
  {
    if x != 0 { AndSelf(x / 2); }
  }

  lemma OddNotPow2(x: nat)
    requires x % 2 == 1 && x > 1
    ensures !IsPow2(x)
  {
    forall k: nat ensures x != Pow2(k) {}
  }

  lemma OddNotPow2Le(p: nat, x: nat)
    requires x % 2 == 1 && x > 1 && IsPow2(p) && p <= x
    ensures p <= x - 1
  {
    OddNotPow2(x);
  }

  lemma HalfPow2(p: nat, h: nat)
    requires h > 0 && IsPow2(p) && p <= 2 * h
    requires And(h, h - 1) != 0
    requires forall q: nat :: IsPow2(q) && q <= h && And(h, h - 1) != 0 ==> q <= And(h, h - 1)
    ensures p <= 2 * And(h, h - 1)
  {
    var k: nat :| p == Pow2(k);
    if k > 0 {
      assert IsPow2(Pow2(k - 1));
    }
  }

  /** Masking with a power of two less one is the remainder. */
  lemma {:induction false} MaskIsMod(x: nat, k: nat)
    ensures And(x, Pow2(k) - 1) == x % Pow2(k)
  {
    if k == 0 {
    } else if x == 0 {
    } else {
      MaskIsMod(x / 2, k - 1);
      var p := Pow2(k - 1);
      assert (2 * p - 1) / 2 == p - 1 && (2 * p - 1) % 2 == 1;
      ModDouble(x, p);
    }
  }

  lemma ModDouble(x: nat, p: nat)
    requires p > 0
    ensures x % (2 * p) == 2 * (x / 2 % p) + x % 2
  {
    var h := x / 2;
    var q, r := h / p, h % p;
    assert h == q * p + r;
    assert x == q * (2 * p) + (2 * r + x % 2);
    ModUnique(x, 2 * p, q, 2 * r + x % 2);
  }
}
