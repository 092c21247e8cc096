/** Unsigned 128-bit limits and the floor-division facts every calculation below rests on. */
module Arith {

  const U128_MAX: nat := 0xFFFF_FFFF_FFFF_FFFF_FFFF_FFFF_FFFF_FFFF

  type U128 = n: nat | n <= U128_MAX

  function Min(a: int, b: int): int {
    if a <= b then a else b
  }

  function Max(a: int, b: int): int {
    if a <= b then b else a
  }

  /** `saturating_sub`. */
  function SatSub(a: nat, b: nat): nat {
    if b <= a then a - b else 0
  }

  /** `saturating_add` on u128. */
  function SatAdd(a: nat, b: nat): U128 {
    Min(a + b, U128_MAX)
  }

  /** The integer square root, by its meaning. */
  function Isqrt(n: nat): (r: nat)
    ensures r * r <= n < (r + 1) * (r + 1)
  {
    if n == 0 then 0 else
      var r := Isqrt(n - 1);
      if (r + 1) * (r + 1) <= n then r + 1 else r
  }

  function Quot(n: nat, d: nat): nat
    requires 0 < d
  {
    n / d
  }

  lemma MulMono(a: int, b: int, c: int)
    requires a <= b && 0 <= c
    ensures a * c <= b * c && c * a <= c * b
  {
  }

  lemma MulStrict(a: int, b: int, c: int)
    requires a < b && 0 < c
    ensures a * c < b * c && c * a < c * b
  {
  }

  lemma Distribute(a: int, b: int, c: int)
    ensures (a + b) * c == a * c + b * c
    ensures c * (a + b) == c * a + c * b
  {
  }

  lemma Assoc(a: int, b: int, c: int)
    ensures (a * b) * c == a * (b * c) == (a * c) * b
  {
  }

  lemma MulCancel(a: int, b: int, c: int)
    requires 0 < c && a * c <= b * c
    ensures a <= b
  {
    if b < a {
      MulStrict(b, a, c);
    }
  }

  lemma MulCancelStrict(a: int, b: int, c: int)
    requires 0 < c && a * c < b * c
    ensures a < b
  {
    if b <= a {
      MulMono(b, a, c);
    }
  }

  /** A floor quotient q of n by d is the one integer with q*d <= n < q*d + d. */
  lemma DivBounds(n: int, d: int)
    requires 0 < d
    ensures (n / d) * d <= n < (n / d) * d + d
  {
  }

  lemma DivIs(n: int, d: int, q: int)
    requires 0 < d
    ensures n / d == q <==> q * d <= n < q * d + d
  {
    DivBounds(n, d);
    if q * d <= n < q * d + d {
      MulCancelStrict(q, n / d + 1, d);
      MulCancelStrict(n / d, q + 1, d);
    }
  }

  lemma DivMod(n: int, d: int)
    requires 0 < d
    ensures n == (n / d) * d + n % d && 0 <= n % d < d
    ensures 0 <= n ==> 0 <= n / d
  {
  }

  lemma DivModIs(n: int, d: int, q: int, r: int)
    requires 0 <= r < d && n == q * d + r
    ensures n / d == q && n % d == r
  {
    DivIs(n, d, q);
  }

  /** The floor quotient is the greatest lower bound (a Galois connection). */
  lemma DivGe(n: int, d: int, q: int)
    requires 0 < d
    ensures q <= n / d <==> q * d <= n
  {
    DivBounds(n, d);
    if q <= n / d {
      MulMono(q, n / d, d);
    }
    if q * d <= n {
      MulCancelStrict(q, n / d + 1, d);
    }
  }

  lemma DivLt(n: int, d: int, q: int)
    requires 0 < d
    ensures n / d < q <==> n < q * d
  {
    DivGe(n, d, q);
  }

  lemma DivMono(n: int, m: int, d: int)
    requires 0 < d && n <= m
    ensures n / d <= m / d
  {
    DivBounds(n, d);
    DivGe(m, d, n / d);
  }

  /** Scaling numerator and denominator together does not move a floor quotient. */
  lemma DivScale(n: int, d: int, k: int)
    requires 0 < d && 0 < k
    ensures 0 < d * k && (n * k) / (d * k) == n / d
  {
    MulStrict(0, d, k);
    DivBounds(n, d);
    var q := n / d;
    assert q * (d * k) == (q * d) * k;
    MulMono(q * d, n, k);
    MulStrict(n, q * d + d, k);
    assert (q * d + d) * k == q * (d * k) + d * k;
    DivIs(n * k, d * k, q);
  }

  /** Ratios in order have floors in order. */
  lemma DivRatioMono(n: nat, d: nat, m: nat, e: nat, k: nat)
    requires 0 < d && 0 < e && n * e <= m * d
    ensures n * k / d <= m * k / e
  {
    DivScale(n * k, d, e);
    DivScale(m * k, e, d);
    Assoc(n, k, e);
    Assoc(m, k, d);
    MulMono(n * e, m * d, k);
    assert d * e == e * d;
    DivMono((n * k) * e, (m * k) * d, d * e);
  }

  /** Equal ratios have equal floors: the quotient depends only on n : d. */
  lemma DivSameRatio(n: nat, d: nat, m: nat, e: nat, k: nat)
    requires 0 < d && 0 < e && n * e == m * d
    ensures (n * k) / d == (m * k) / e
  {
    DivScale(n * k, d, e);
    DivScale(m * k, e, d);
    assert (n * k) * e == (n * e) * k == (m * d) * k == (m * k) * d;
    assert d * e == e * d;
  }
}
