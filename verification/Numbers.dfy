/** Facts about products, quotients and remainders of integers. */
module Numbers {
  // ---------- Products ----------

  lemma MulMono(a: int, b: int, c: int)
    requires a <= b && 0 <= c
    ensures a * c <= b * c && c * a <= c * b
  {}

  lemma MulDouble(a: int, b: int)
    ensures 2 * a * b == a * (2 * b)
  {}

  lemma MulStrict(a: int, b: int, c: int)
    requires a < b && 0 < c
    ensures a * c < b * c
  {}

  // ---------- Quotients ----------

  lemma QuotientBounds(n: int, d: int)
    requires 0 <= n && 0 < d
    ensures 0 <= n / d && n / d * d <= n < n / d * d + d && n - n / d * d == n % d
  {
    var q := n / d;
    if q < 0 { MulMono(q, -1, d); assert false; }
  }

  lemma QuotientUnique(n: int, d: int, q: int)
    requires 0 < d && q * d <= n < q * d + d
    ensures n / d == q
  {
    var e := n / d;
    assert e * d <= n < e * d + d;
    if e < q { MulMono(e + 1, q, d); }
    if e > q { MulMono(q + 1, e, d); }
  }

  lemma QuotientShift(m: int, t: int, d: int)
    requires 0 < d
    ensures (m + t * d) / d == m / d + t
  {
    var e := m / d;
    assert (e + t) * d == e * d + t * d;
    QuotientUnique(m + t * d, d, e + t);
  }

  lemma QuotientBelow(n: int, b: int, d: int)
    requires 0 <= n < b * d && 0 < d
    ensures 0 <= n / d < b
  {
    QuotientBounds(n, d);
    if n / d >= b { MulMono(b, n / d, d); }
  }

  lemma QuotientMono(m: int, n: int, d: int)
    requires 0 <= m <= n && 0 < d
    ensures m / d <= n / d
  {
    QuotientBounds(m, d);
    QuotientBounds(n, d);
    if m / d > n / d { MulMono(n / d + 1, m / d, d); }
  }

  lemma QuotientAtLeastOne(n: int, d: int)
    requires 0 < d <= n
    ensures n / d >= 1
  {
    QuotientBounds(n, d);
  }

  lemma QuotientMax(n: int, d: int)
    requires 0 <= n && 0 < d
    ensures 0 <= n / d <= n
  {
    QuotientBounds(n, d);
    MulMono(1, d, n / d);
  }

  lemma QuotientAntitone(n: int, w: int, d: int)
    requires 0 <= n && 0 < w <= d
    ensures n / d <= n / w
  {
    QuotientBounds(n, d);
    QuotientBounds(n, w);
    if n / d > n / w {
      MulMono(n / w + 1, n / d, w);
      MulMono(w, d, n / d);
    }
  }

  // If n/w and n/d differ by less than one, their floors differ by at most one.
  lemma QuotientNear(n: int, w: int, d: int)
    requires 0 <= n && 0 < w <= d && n * (d - w) < d * w
    ensures n / w <= n / d + 1
  {
    var a, b := n / w, n / d;
    var x, y := n * w, d * w;
    MulStrict(0, d, w);
    assert n * d < x + y by { assert n * (d - w) == n * d - x; }
    assert x < (b + 1) * y by { QuotientAbove(n, d, w); }
    assert a * y <= n * d by { QuotientTimes(n, w, d); }
    NearStep(a, b, n * d, x, y);
  }

  lemma QuotientAbove(n: int, d: int, w: int)
    requires 0 <= n && 0 < d && 0 < w
    ensures n * w < (n / d + 1) * (d * w)
  {
    QuotientBounds(n, d);
    var b := n / d + 1;
    assert n < b * d;
    MulStrict(n, b * d, w);
    assert b * d * w == b * (d * w);
  }

  lemma QuotientTimes(n: int, w: int, d: int)
    requires 0 <= n && 0 < w && 0 < d
    ensures n / w * (d * w) <= n * d
  {
    QuotientBounds(n, w);
    var a := n / w;
    MulMono(a * w, n, d);
    assert a * w * d == a * (d * w);
  }

  lemma NearStep(a: int, b: int, m: int, x: int, y: int)
    requires 0 < y && m < x + y && x < (b + 1) * y && a * y <= m
    ensures a <= b + 1
  {
    assert (b + 1) * y + y == (b + 2) * y;
    if a >= b + 2 { MulMono(b + 2, a, y); }
  }

  lemma DivDiv(n: int, a: int, b: int)
    requires 0 <= n && 0 < a && 0 < b
    ensures 0 < a * b && n / a / b == n / (a * b)
  {
    MulStrict(0, a, b);
    var e := n / a;
    var f := e / b;
    QuotientBounds(n, a);
    QuotientBounds(e, b);
    MulMono(f * b, e, a);
    MulMono(e + 1, f * b + b, a);
    assert f * (a * b) == f * b * a;
    assert (f * b + b) * a == f * (a * b) + a * b;
    QuotientUnique(n, a * b, f);
  }

  lemma SmallRemainder(n: int, d: int)
    requires 0 <= n < d
    ensures n / d == 0 && n % d == n
  {
    QuotientUnique(n, d, 0);
  }

  lemma ModUnique(x: int, m: int, q: int, r: int)
    requires 0 <= r < m && x == q * m + r
    ensures x % m == r
  {
    var d := x / m - q;
    assert d * m == r - x % m;
    assert (d > 0 ==> d * m >= m) && (d < 0 ==> d * m <= -m);
  }

  lemma RemainderOfProduct(q: int, m: int)
    requires 0 < m
    ensures (q * m) % m == 0 && (q * m) / m == q
  {
    ModUnique(q * m, m, q, 0);
    QuotientUnique(q * m, m, q);
  }
}
