/**
 The order on encoded ratios, its agreement with the order of the ratios themselves and with the
 decimals reported to clients.
 */
module RatioOrder {
  import opened Arith
  import opened Results
  import opened ExchangeRatios
  import FixedPoint

  datatype Ordering = Less | Equal | Greater

  /** The high bit is set. */
  predicate IsInverse(e: U32) {
    HIGH_BIT <= e
  }

  /** Bitwise complement on 32 bits. */
  function Complement(e: U32): int {
    U32_SPAN - 1 - e
  }

  function CompareInts(a: int, b: int): Ordering {
    if a < b then Less else if a == b then Equal else Greater
  }

  /** `Ord::cmp` of `ExchangeRatio`. */
  function Cmp(e: U32, f: U32): Ordering {
    if IsInverse(e) then
      if IsInverse(f) then CompareInts(Complement(e), Complement(f)) else Greater
    else CompareInts(e, f)
  }

  predicate Lt(e: U32, f: U32) {
    Cmp(e, f) == Less
  }

  /** `set_if_less` and `set_if_greater`, as the new value of the slot. */
  function SetIfLess(slot: U32, value: U32): U32 {
    if Lt(value, slot) then value else slot
  }

  function SetIfGreater(slot: U32, value: U32): U32 {
    if Cmp(value, slot) == Greater then value else slot
  }

  /** The position of an encoding in the order: inverses come after all others, in reverse. */
  function Rank(e: U32): int {
    if e < HIGH_BIT then e else HIGH_BIT + (U32_SPAN - 1 - e)
  }

  /** The custom comparison is the order of the ranks, and ranks tell encodings apart: so it is total. */
  lemma CmpIsTotalOrder(e: U32, f: U32)
    ensures Cmp(e, f) == CompareInts(Rank(e), Rank(f))
    ensures Rank(e) == Rank(f) <==> e == f
    ensures Rank(MIN_RATIO) <= Rank(e) <= Rank(MAX_RATIO)
    ensures Rank(SetIfLess(e, f)) == Min(Rank(e), Rank(f))
    ensures Rank(SetIfGreater(e, f)) == Max(Rank(e), Rank(f))
  {
  }

  // ---- The encoding is monotone ----

  /** Neither 0:0 nor beyond the reach of 128 bits. */
  predicate IsRatio(n: nat, d: nat) {
    IsU128(n) && IsU128(d) && 0 < n + d
  }

  predicate IsExact(n: nat, d: nat) {
    IsRatio(n, d) && Min(n, d) < TWO_97
  }

  /** The rank of an exactly encoded ratio; 1:1 shares the last rank with "infinity". */
  lemma ExactRank(n: nat, d: nat)
    requires IsExact(n, d)
    ensures n < d ==> Rank(Encode(n, d)) == n * HIGH_BIT / d < HIGH_BIT
    ensures n == d ==> Rank(Encode(n, d)) == Rank(MAX_RATIO)
    ensures d < n ==> d * HIGH_BIT / n < HIGH_BIT && Rank(Encode(n, d)) == Rank(MAX_RATIO) - d * HIGH_BIT / n
  {
    var low, high := Min(n, d), Max(n, d);
    EncodingExact(low, high);
    FullRatio(low, high);
    if n == d {
      DivModIs(n * HIGH_BIT, n, HIGH_BIT, 0);
    }
  }

  lemma QuotientMonotone(n: nat, d: nat, m: nat, e: nat)
    requires 0 < d && 0 < e && n * e <= m * d
    ensures n * HIGH_BIT / d <= m * HIGH_BIT / e
  {
    DivRatioMono(n, d, m, e, HIGH_BIT);
  }

  /** A ratio not below 1:1 is followed only by ratios not below 1:1. */
  lemma SameSide(n: nat, d: nat, m: nat, e: nat)
    requires 0 < n + d && 0 < m + e && n * e <= m * d
    ensures d < n ==> e < m
    ensures d <= n ==> e <= m
  {
    if d <= n && m <= e {
      MulMono(d, n, e);
      MulMono(m, e, d);
      if 0 < d {
        if m < e {
          MulStrict(m, e, d);
        }
        if d < n && 0 < e {
          MulStrict(d, n, e);
        }
        if e == 0 {
          assert m == 0;
        }
      } else {
        assert n * e == 0;
        if 0 < e {
          MulMono(1, n, e);
        }
      }
    }
  }

  /** floor(n * 2^31 / d). */
  function Floor(n: nat, d: nat): nat
    requires 0 < d
  {
    n * HIGH_BIT / d
  }

  /** The bits the rotation code drops from `d` carry the quotient past its floor. */
  predicate Overshoots(n: nat, d: nat)
    requires IsU128(n) && 0 < d
  {
    d - (n * HIGH_BIT) % d <= (Floor(n, d) + 1) * (d % Pow2(Shift(n)))
  }

  lemma EncodedBelow(n: nat, d: nat)
    requires IsU128(d) && n <= d && 0 < d
    ensures EncodeBelow(n, d) == Floor(n, d) + (if Overshoots(n, d) then 1 else 0)
    ensures n < d ==> Floor(n, d) < HIGH_BIT
    ensures n == d ==> EncodeBelow(n, d) == HIGH_BIT
  {
    ShiftIsSafe(n, d);
    EncodingError(n, d, Shift(n));
    FullRatio(n, d);
    if n == d {
      EqualOperands(d);
    }
  }

  lemma EqualOperands(d: nat)
    requires IsU128(d) && 0 < d
    ensures Floor(d, d) == HIGH_BIT && EncodeBelow(d, d) == HIGH_BIT
  {
    ShiftIsSafe(d, d);
    EncodingError(d, d, Shift(d));
    DivModIs(d * HIGH_BIT, d, HIGH_BIT, 0);
    OneToOneIsExact(d, Shift(d));
  }

  /** Nothing is gained at 1:1: what is dropped, even 2^31 + 1 times over, is less than the operand. */
  lemma OneToOneIsExact(d: nat, s: nat)
    requires 0 < d && SafeShift(d, s)
    ensures (HIGH_BIT + 1) * (d % Pow2(s)) < d
  {
    var p := Pow2(s);
    if 0 < s {
      MulMono(d % p, p, HIGH_BIT + 1);
      Distribute(HIGH_BIT + 1, 1, p);
    }
  }

  /**
   The ratios that are stored at the very top of the order: exactly 1:1, those so close below or above it
   that they overshoot to it, and those beyond the reach of 32 bits.
   */
  predicate IsTop(n: nat, d: nat)
    requires IsRatio(n, d)
  {
    || n == d
    || (n < d && Floor(n, d) == HIGH_BIT - 1 && Overshoots(n, d))
    || (d < n && Floor(d, n) == HIGH_BIT - 1 && Overshoots(d, n))
    || (d < n && Floor(d, n) == 0 && !Overshoots(d, n))
  }

  lemma RankOf(n: nat, d: nat)
    requires IsRatio(n, d)
    ensures IsTop(n, d) <==> Rank(Encode(n, d)) == Rank(MAX_RATIO)
    ensures !IsTop(n, d) && n < d ==> Rank(Encode(n, d)) == EncodeBelow(n, d) < HIGH_BIT
    ensures !IsTop(n, d) && d < n ==> Rank(Encode(n, d)) == Rank(MAX_RATIO) - EncodeBelow(d, n) >= HIGH_BIT
  {
    EncodedBelow(Min(n, d), Max(n, d));
  }

  /** With the floor no larger, the quotient is no larger unless it overshoots alone from the same floor. */
  predicate Follows(n: nat, d: nat, m: nat, e: nat)
    requires IsU128(n) && 0 < d && IsU128(m) && 0 < e
  {
    Floor(n, d) < Floor(m, e) || (Overshoots(n, d) ==> Overshoots(m, e))
  }

  lemma BelowOrder(n: nat, d: nat, m: nat, e: nat)
    requires IsU128(d) && IsU128(e) && n < d && m < e && n * e <= m * d
    ensures EncodeBelow(n, d) <= EncodeBelow(m, e) <==> Follows(n, d, m, e)
  {
    EncodedBelow(n, d);
    EncodedBelow(m, e);
    QuotientMonotone(n, d, m, e);
  }

  /**
   The larger ratio is stored at the top; or the smaller one is not, and the two lie on different sides of
   1:1, or on the same side where the one further from it is followed by the one nearer.
   */
  predicate KeepsOrder(n: nat, d: nat, m: nat, e: nat)
    requires IsRatio(n, d) && IsRatio(m, e)
  {
    || IsTop(m, e)
    || (!IsTop(n, d) && (|| (n < d && e < m)
                         || (n < d && m < e && Follows(n, d, m, e))
                         || (d < n && e < m && Follows(e, m, d, n))))
  }

  lemma RanksKeepOrder(n: nat, d: nat, m: nat, e: nat)
    requires IsRatio(n, d) && IsRatio(m, e) && (d < n ==> e < m) && (d <= n ==> e <= m)
    requires n < d && m < e ==> (EncodeBelow(n, d) <= EncodeBelow(m, e) <==> Follows(n, d, m, e))
    requires d < n && e < m ==> (EncodeBelow(e, m) <= EncodeBelow(d, n) <==> Follows(e, m, d, n))
    ensures Rank(Encode(n, d)) <= Rank(Encode(m, e)) <==> KeepsOrder(n, d, m, e)
    ensures Cmp(Encode(n, d), Encode(m, e)) != Greater <==> KeepsOrder(n, d, m, e)
  {
    RankOf(n, d);
    RankOf(m, e);
    CmpIsTotalOrder(Encode(n, d), Encode(m, e));
    CmpIsTotalOrder(Encode(n, d), MAX_RATIO);
  }

  /**
   For any two ratios n:d <= m:e of 128-bit amounts, the encodings are in the same order exactly under that
   condition on the amounts.
   */
  lemma EncodingMonotone(n: nat, d: nat, m: nat, e: nat)
    requires IsRatio(n, d) && IsRatio(m, e) && n * e <= m * d
    ensures Cmp(Encode(n, d), Encode(m, e)) != Greater <==> KeepsOrder(n, d, m, e)
  {
    SameSide(n, d, m, e);
    if n < d && m < e {
      BelowOrder(n, d, m, e);
    } else if d < n && e < m {
      BelowOrder(e, m, d, n);
    }
    RanksKeepOrder(n, d, m, e);
  }

  /** Different amounts are misplaced too when they overshoot to the top: the greatest ratio below 1:1 comes after 2:1. */
  lemma NearOneIsMisplaced()
    ensures Cmp(Encode(U128_MAX - 1, U128_MAX), Encode(2, 1)) == Greater
  {
    EncodingCanOvershoot();
    EncodingExact(1, 2);
  }

  /**
   In particular, for ratios n:d <= m:e with smaller operands below 2^97, whose encodings are exact: in the
   same order, except when the smaller ratio is exactly 1:1 and the larger one is finite and different.
   */
  lemma ExactlyMonotone(n: nat, d: nat, m: nat, e: nat)
    requires IsExact(n, d) && IsExact(m, e) && n * e <= m * d
    ensures Cmp(Encode(n, d), Encode(m, e)) != Greater <==> n != d || m == e || e * HIGH_BIT < m
  {
    SameSide(n, d, m, e);
    if n < d && m < e {
      QuotientMonotone(n, d, m, e);
    } else if d < n && e < m {
      QuotientMonotone(e, m, d, n);
    }
    RanksOf(n, d, m, e);
  }

  lemma RanksOf(n: nat, d: nat, m: nat, e: nat)
    requires IsExact(n, d) && IsExact(m, e)
    requires (d < n ==> e < m) && (d <= n ==> e <= m)
    requires n < d && m < e ==> n * HIGH_BIT / d <= m * HIGH_BIT / e
    requires d < n && e < m ==> e * HIGH_BIT / m <= d * HIGH_BIT / n
    ensures Cmp(Encode(n, d), Encode(m, e)) != Greater <==> n != d || m == e || e * HIGH_BIT < m
  {
    ExactRank(n, d);
    ExactRank(m, e);
    CmpIsTotalOrder(Encode(n, d), Encode(m, e));
    if e < m {
      DivLt(e * HIGH_BIT, m, 1);
    }
  }

  /** The exception is real: 1:1 is ordered after 2:1. */
  lemma OneToOneIsMisplaced()
    ensures Cmp(Encode(1, 1), Encode(2, 1)) == Greater
  {
    ExactlyMonotone(1, 1, 2, 1);
  }

  // ---- Decimals ----

  /** `From<ExchangeRatio> for Decimal`, raw; `None` would be a panic. */
  function ToDecimal(e: U32): Option<nat> {
    if IsInverse(e) then
      var v := e - HIGH_BIT;
      if v == 0 then Some(U128_MAX) else FixedPoint.FromRatio(HIGH_BIT, v)
    else FixedPoint.FromRatio(e, HIGH_BIT)
  }

  /** The raw decimal of a rank. */
  function DecimalAt(rank: int): int
    requires 0 <= rank < U32_SPAN
  {
    if rank < HIGH_BIT then rank * FixedPoint.ONE / HIGH_BIT
    else if rank == U32_SPAN - 1 then U128_MAX
    else HIGH_BIT * FixedPoint.ONE / (U32_SPAN - 1 - rank)
  }

  lemma ToDecimalIsTotal(e: U32)
    ensures ToDecimal(e) == Some(DecimalAt(Rank(e)))
  {
    if e < HIGH_BIT {
      DivLt(e * FixedPoint.ONE, HIGH_BIT, U128_MAX + 1);
    } else if e > HIGH_BIT {
      DivLt(HIGH_BIT * FixedPoint.ONE, e - HIGH_BIT, U128_MAX + 1);
    }
  }

  lemma DecimalStep(rank: nat)
    requires rank + 1 < U32_SPAN
    ensures DecimalAt(rank) < DecimalAt(rank + 1)
  {
    var one := FixedPoint.ONE;
    if rank + 1 < HIGH_BIT {
      DivBounds(rank * one, HIGH_BIT);
      DivGe((rank + 1) * one, HIGH_BIT, rank * one / HIGH_BIT + 1);
    } else if rank + 1 == HIGH_BIT {
      DivLt(rank * one, HIGH_BIT, one);
      DivGe(HIGH_BIT * one, HIGH_BIT - 1, one);
    } else if rank + 2 < U32_SPAN {
      InverseStep(U32_SPAN - 1 - rank);
    } else {
      assert HIGH_BIT * one / 1 < U128_MAX;
    }
  }

  lemma InverseStep(w: nat)
    requires 1 < w <= HIGH_BIT
    ensures HIGH_BIT * FixedPoint.ONE / w < HIGH_BIT * FixedPoint.ONE / (w - 1)
  {
    var top := HIGH_BIT * FixedPoint.ONE;
    var q := top / w;
    DivBounds(top, w);
    DivGe(top, w, HIGH_BIT);
    assert (q + 1) * (w - 1) == q * w - q + w - 1;
    DivGe(top, w - 1, q + 1);
  }

  lemma {:induction false} DecimalStrict(r: nat, s: nat)
    requires r < s < U32_SPAN
    ensures DecimalAt(r) < DecimalAt(s)
    decreases s
  {
    DecimalStep(s - 1);
    if r < s - 1 {
      DecimalStrict(r, s - 1);
    }
  }

  /** The conversion never panics and embeds the order: reported rates compare exactly as the encodings do. */
  lemma DecimalPreservesOrder(e: U32, f: U32)
    ensures ToDecimal(e).Some? && ToDecimal(f).Some?
    ensures CompareInts(ToDecimal(e).value, ToDecimal(f).value) == Cmp(e, f)
  {
    ToDecimalIsTotal(e);
    ToDecimalIsTotal(f);
    CmpIsTotalOrder(e, f);
    if Rank(e) < Rank(f) {
      DecimalStrict(Rank(e), Rank(f));
    } else if Rank(f) < Rank(e) {
      DecimalStrict(Rank(f), Rank(e));
    }
  }
}
