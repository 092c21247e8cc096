/**
 The 18-digit `Decimal`, represented by its raw numerator.  `None` stands for a panic (division by
 zero, or a quotient that does not fit 128 bits).
 */
module FixedPoint {
  import opened Arith
  import opened Results

  const ONE: nat := 1_000_000_000_000_000_000

  function FromRatio(n: nat, d: nat): Option<nat> {
    if d == 0 || n * ONE / d > U128_MAX then None else Some(n * ONE / d)
  }

  function AbsDiff(a: nat, b: nat): nat {
    if a <= b then b - a else a - b
  }

  function SaturatingMul(a: nat, b: nat): nat {
    Min(a * b / ONE, U128_MAX)
  }

  /** A ratio within `t` of one, decided after rounding down, read back as bounds on the amounts. */
  lemma WithinTolerance(n: nat, d: nat, t: nat)
    requires 0 < d
    ensures AbsDiff(n * ONE / d, ONE) <= t <==> d * (ONE - t) <= n * ONE < d * (ONE + t + 1)
  {
    DivGe(n * ONE, d, ONE - t);
    DivLt(n * ONE, d, ONE + t + 1);
  }
}
