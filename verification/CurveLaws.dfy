/** Rounding laws of the constant-product curve and of share redemption. */
module CurveLaws {
  import opened Arith
  import opened Results
  import opened PoolCalc
  import FixedPoint

  function Sum(parts: seq<nat>): nat {
    if parts == [] then 0 else parts[0] + Sum(parts[1..])
  }

  // ---- The swap curve ----

  /**
   With `f` units of the output coin staying behind as LP fee (negative when the pool pays more than
   the total fee away), the product after the swap is the product before it, less the rounding
   remainder, plus the fee times the new input balance.  Hence exactly when it may fall.
   */
  lemma SwapProduct(a: nat, b: nat, x: nat, f: int)
    requires 0 < a + x
    ensures (a + x) * (Kept(a, b, x) + f) == a * b - (a * b) % (a + x) + (a + x) * f
    ensures a * b <= (a + x) * (Kept(a, b, x) + f) <==> 1 <= f || (f == 0 && (a * b) % (a + x) == 0)
    ensures a * b < (a + x) * (Kept(a, b, x) + f) <==> 1 <= f
    ensures 0 <= f <==> a * b - (a + x) < (a + x) * (Kept(a, b, x) + f)
  {
    var d, k := a + x, Kept(a, b, x);
    assert a * b == k * d + (a * b) % d;
    assert d * (k + f) == k * d + d * f;
    if 1 <= f {
      MulMono(1, f, d);
    } else if f <= -1 {
      MulMono(f, -1, d);
    }
  }

  lemma KeptAtMost(a: nat, b: nat, x: nat)
    requires 0 < a + x
    ensures Kept(a, b, x) <= b
    ensures ActualResult(a, b, x) == b - Kept(a, b, x)
  {
    MulMono(a, a + x, b);
    DivLt(a * b, a + x, b + 1);
    assert (b + 1) * (a + x) == b * (a + x) + a + x;
  }

  /** The curve's payout never beats the current price by more than the unit the rounding gives away. */
  lemma PayoutNearPrice(a: nat, b: nat, x: nat)
    requires 0 < a
    ensures ActualResult(a, b, x) <= x * b / a + 1
  {
    KeptAtMost(a, b, x);
    DivBounds(a * b, a + x);
    DivBounds(x * b, a);
    Distribute(a, x, b);
    BelowSum(a, b, a + x, Kept(a, b, x), x * b / a, a * b, x * b);
  }

  lemma BelowSum(a: nat, b: nat, d: nat, k: nat, q: nat, ab: nat, xb: nat)
    requires 0 < a <= d && b * d == ab + xb
    requires ab < k * d + d && xb < q * a + a
    ensures b < k + q + 2
  {
    Distribute(q, 1, a);
    MulMono(a, d, q + 1);
    Distribute(k, 1, d);
    Distribute(k + 1, q + 1, d);
    MulCancelStrict(b, k + q + 2, d);
  }

  /** Selling x and then y leaves what selling x + y at once leaves, or one unit less. */
  lemma TwoStepKept(a: nat, b: nat, x: nat, y: nat)
    requires 0 < a
    ensures Kept(a, b, x + y) - 1 <= Kept(a + x, Kept(a, b, x), y) <= Kept(a, b, x + y)
  {
    var d, e, k1, k := a + x, a + x + y, Kept(a, b, x), Kept(a, b, x + y);
    DivBounds(a * b, d);
    OneBelow(a * b, d, e, k1, k);
  }

  lemma OneBelow(ab: nat, d: nat, e: nat, k1: nat, k: nat)
    requires 0 < d <= e && k1 * d <= ab < k1 * d + d && k == ab / e
    ensures k - 1 <= d * k1 / e <= k
  {
    DivMono(d * k1, ab, e);
    DivBounds(ab, e);
    Distribute(k - 1, 1, e);
    DivGe(d * k1, e, k - 1);
  }

  /** What is left of the output coin after selling the parts one after another. */
  function KeptAfter(a: nat, b: nat, parts: seq<nat>): nat
    requires 0 < a
    decreases |parts|
  {
    if parts == [] then b else KeptAfter(a + parts[0], Kept(a, b, parts[0]), parts[1..])
  }

  /** What the parts are paid in total, before fees. */
  function SoldInParts(a: nat, b: nat, parts: seq<nat>): nat
    requires 0 < a
    decreases |parts|
  {
    if parts == [] then 0 else
      var paid := ActualResult(a, b, parts[0]);
      paid + SoldInParts(a + parts[0], SatSub(b, paid), parts[1..])
  }

  lemma {:induction false} SoldIsNotKept(a: nat, b: nat, parts: seq<nat>)
    requires 0 < a
    ensures SoldInParts(a, b, parts) + KeptAfter(a, b, parts) == b
    decreases |parts|
  {
    if parts != [] {
      KeptAtMost(a, b, parts[0]);
      SoldIsNotKept(a + parts[0], Kept(a, b, parts[0]), parts[1..]);
    }
  }

  lemma {:induction false} KeptAfterBounds(a: nat, b: nat, parts: seq<nat>)
    requires 0 < a && parts != []
    ensures Kept(a, b, Sum(parts)) - (|parts| - 1) <= KeptAfter(a, b, parts) <= Kept(a, b, Sum(parts))
    decreases |parts|
  {
    var rest := parts[1..];
    if rest == [] {
      assert KeptAfter(a + parts[0], Kept(a, b, parts[0]), rest) == Kept(a, b, parts[0]);
    } else {
      KeptAfterBounds(a + parts[0], Kept(a, b, parts[0]), rest);
      TwoStepKept(a, b, parts[0], Sum(rest));
    }
  }

  /** Path independence: an n-way split of a sale pays the single sale's amount, plus at most n - 1. */
  lemma SplitSale(a: nat, b: nat, parts: seq<nat>)
    requires 0 < a && parts != []
    ensures ActualResult(a, b, Sum(parts)) <= SoldInParts(a, b, parts)
                                           <= ActualResult(a, b, Sum(parts)) + |parts| - 1
  {
    KeptAfterBounds(a, b, parts);
    SoldIsNotKept(a, b, parts);
    KeptAtMost(a, b, Sum(parts));
  }

  // ---- Redeeming shares ----

  /** A redemption within the supply is the plain floor, at most the balance, and keeps the backing of the rest. */
  lemma ShareBounds(balance: nat, shares: nat, supply: nat)
    requires 0 < supply && shares <= supply && balance <= U128_MAX
    ensures ShareOf(balance, shares, supply) == balance * shares / supply <= balance
    ensures ShareOf(balance, shares, supply) * supply <= balance * shares
                                                      < ShareOf(balance, shares, supply) * supply + supply
    ensures balance * (supply - shares) <= (balance - ShareOf(balance, shares, supply)) * supply
  {
    DivBounds(balance * shares, supply);
    MulMono(shares, supply, balance);
    DivLt(balance * shares, supply, balance + 1);
    assert (balance + 1) * supply == balance * supply + supply;
    var p := balance * shares / supply;
    assert (balance - p) * supply == balance * supply - p * supply;
    assert balance * (supply - shares) == balance * supply - balance * shares;
  }

  /**
   Two ceilings in a row against one: with r = ceil(A*t/S), q = ceil(r*u/t) and all = ceil(A*u/S),
   q is `all` or one more.
   */
  lemma CeilingsAtLeast(balance: nat, supply: nat, t: nat, u: nat, r: nat, q: nat)
    requires 0 < t
    requires balance * t <= r * supply
    requires r * u <= q * t
    ensures balance * u <= q * supply
  {
    MulMono(balance * t, r * supply, u);
    MulMono(r * u, q * t, supply);
    assert (balance * u) * t <= (q * supply) * t;
    MulCancel(balance * u, q * supply, t);
  }

  lemma CeilingsAtMost(balance: nat, supply: nat, t: nat, u: nat, r: nat, q: nat)
    requires 0 < t && u <= t && 0 < supply
    requires r * supply < balance * t + supply
    requires q * t < r * u + t
    ensures q * supply < balance * u + 2 * supply
  {
    FirstCeiling(balance, supply, t, u, r);
    SecondCeiling(supply, t, r * u, q);
    MulMono(u, t, supply);
    assert (balance * u + 2 * supply) * t == (balance * u) * t + 2 * (supply * t);
    MulCancelStrict(q * supply, balance * u + 2 * supply, t);
  }

  lemma FirstCeiling(balance: nat, supply: nat, t: nat, u: nat, r: nat)
    requires r * supply < balance * t + supply
    ensures (r * u) * supply <= (balance * u) * t + supply * u
  {
    MulMono(r * supply, balance * t + supply, u);
    Assoc(r, supply, u);
    Assoc(balance, t, u);
    assert (balance * t + supply) * u == (balance * t) * u + supply * u;
  }

  lemma SecondCeiling(supply: nat, t: nat, ru: nat, q: nat)
    requires 0 < supply && q * t < ru + t
    ensures (q * supply) * t < ru * supply + supply * t
  {
    MulStrict(q * t, ru + t, supply);
    Assoc(q, t, supply);
  }

  /** What stays after a redemption is the ceiling of the remaining shares' part. */
  lemma StaysIsCeiling(balance: nat, shares: nat, supply: nat, rest: nat)
    requires 0 < supply == shares + rest && balance <= U128_MAX
    ensures ShareOf(balance, shares, supply) <= balance
    ensures var r := balance - ShareOf(balance, shares, supply);
            balance * rest <= r * supply < balance * rest + supply
  {
    ShareBounds(balance, shares, supply);
    var p := ShareOf(balance, shares, supply);
    Distribute(balance - p, p, supply);
    Distribute(shares, rest, balance);
  }

  /** Redeeming v and then w pays what redeeming v + w at once pays, or one unit less. */
  lemma TwoStepShares(balance: nat, supply: nat, v: nat, w: nat)
    requires 0 < supply && v + w <= supply && balance <= U128_MAX
    ensures ShareOf(balance, v, supply) <= balance
    ensures var p := ShareOf(balance, v, supply);
            var twice := p + ShareOf(balance - p, w, supply - v);
            twice <= ShareOf(balance, v + w, supply) <= twice + 1
  {
    var t, u := supply - v, supply - v - w;
    StaysIsCeiling(balance, v, supply, t);
    StaysIsCeiling(balance, v + w, supply, u);
    var r := balance - ShareOf(balance, v, supply);
    var all := balance - ShareOf(balance, v + w, supply);
    if t == 0 {
      NoneStay(balance, r, supply);
      NoneStay(balance, all, supply);
    } else {
      StaysIsCeiling(r, w, t, u);
      var q := r - ShareOf(r, w, t);
      TwoCeilings(balance, supply, t, u, r, q, all);
    }
  }

  lemma TwoCeilings(balance: nat, supply: nat, t: nat, u: nat, r: nat, q: nat, all: nat)
    requires 0 < supply && u <= t && 0 < t
    requires balance * t <= r * supply < balance * t + supply
    requires r * u <= q * t < r * u + t
    requires balance * u <= all * supply < balance * u + supply
    ensures all <= q <= all + 1
  {
    CeilingsAtLeast(balance, supply, t, u, r, q);
    CeilingsAtMost(balance, supply, t, u, r, q);
    WithinOne(balance * u, supply, q, all);
  }

  lemma NoneStay(balance: nat, r: nat, supply: nat)
    requires r * supply < balance * 0 + supply
    ensures r == 0
  {
    MulCancelStrict(r, 1, supply);
  }

  lemma WithinOne(target: nat, supply: nat, q: nat, all: nat)
    requires 0 < supply
    requires target <= q * supply < target + 2 * supply
    requires target <= all * supply < target + supply
    ensures all <= q <= all + 1
  {
    Distribute(q, 1, supply);
    Distribute(all, 2, supply);
    MulCancelStrict(all, q + 1, supply);
    MulCancelStrict(q, all + 2, supply);
  }

  /** What successive redemptions of the parts pay in total. */
  function RedeemedInParts(balance: nat, supply: nat, parts: seq<nat>): nat
    requires Sum(parts) <= supply
  {
    if parts == [] then 0 else
      var p := ShareOf(balance, parts[0], supply);
      p + RedeemedInParts(SatSub(balance, p), supply - parts[0], parts[1..])
  }

  /** Splitting a redemption n ways never pays more, and costs at most n - 1 units. */
  lemma {:induction false} SplitRedemption(balance: nat, supply: nat, parts: seq<nat>)
    requires 0 < supply && Sum(parts) <= supply && balance <= U128_MAX && parts != []
    ensures RedeemedInParts(balance, supply, parts) <= ShareOf(balance, Sum(parts), supply)
                                                    <= RedeemedInParts(balance, supply, parts) + |parts| - 1
  {
    var v, rest := parts[0], parts[1..];
    TwoStepShares(balance, supply, v, Sum(rest));
    var p := ShareOf(balance, v, supply);
    if rest == [] {
      assert RedeemedInParts(balance - p, supply - v, rest) == 0;
    } else if v == supply {
      NothingLeft(balance - p, rest);
    } else {
      SplitRedemption(balance - p, supply - v, rest);
    }
  }

  lemma {:induction false} NothingLeft(balance: nat, parts: seq<nat>)
    requires Sum(parts) == 0
    ensures RedeemedInParts(balance, 0, parts) == 0
  {
    if parts != [] {
      NothingLeft(balance, parts[1..]);
    }
  }

  // ---- Deposits ----

  /** Minting in proportion to the scarcer coin keeps each coin's backing per share. */
  lemma MintBounds(supply: nat, before: Amounts, incoming: Amounts, tolerance: nat)
    requires 0 < supply
    requires CalcSharesToMint(supply, before, incoming, tolerance).Ok?
    ensures 0 < before.left && 0 < before.right
    ensures var m := CalcSharesToMint(supply, before, incoming, tolerance).value;
            && m * before.left <= incoming.left * supply
            && m * before.right <= incoming.right * supply
            && (incoming.left * supply < (m + 1) * before.left || incoming.right * supply < (m + 1) * before.right)
  {
    var m := CalcSharesToMint(supply, before, incoming, tolerance).value;
    DivGe(incoming.left * supply, before.left, m);
    DivGe(incoming.right * supply, before.right, m);
    DivGe(incoming.left * supply, before.left, m + 1);
    DivGe(incoming.right * supply, before.right, m + 1);
  }

  /** One side of an accepted deposit, with both roundings accounted for. */
  lemma AcceptedPrice(x: nat, y: nat, a: nat, b: nat, tolerance: nat)
    requires tolerance <= FixedPoint.ONE && 0 < y && 0 < b && a <= U128_MAX
    requires PriceTooHigh(x, y, a, b, FixedPoint.ONE - tolerance) == Ok(false)
    ensures x * b * (FixedPoint.ONE - tolerance) < y * (a * FixedPoint.ONE + 2 * b)
  {
    var one, keep := FixedPoint.ONE, FixedPoint.ONE - tolerance;
    var u := x * one / y;
    var v := u * keep / one;
    var w := a * one / b;
    DivBounds(x * one, y);
    DivBounds(u * keep, one);
    DivBounds(a * one, b);
    if v > U128_MAX {
      // saturated: the pool's own price would have to reach the limit too
      assert w == U128_MAX;
      assert u <= U128_MAX;
      MulMono(keep, one, u);
      MulCancel(v, u, one);
      assert false;
    }
    assert v <= w;
    AcceptedPriceArith(x, y, a, b, one, keep, u, v, w);
  }

  lemma AcceptedPriceArith(x: nat, y: nat, a: nat, b: nat, one: nat, keep: nat, u: nat, v: nat, w: nat)
    requires 0 < y && 0 < b && 0 < one && keep <= one
    requires x * one < u * y + y
    requires u * keep < v * one + one
    requires v <= w && w * b <= a * one
    ensures x * b * keep < y * (a * one + 2 * b)
  {
    UndoRoundings(x, y, one, keep, u, v);
    MulMono(v, w, b);
    MulStrict(x * keep, (v + 2) * y, b);
    Assoc(x, keep, b);
    Assoc(v + 2, y, b);
    assert (v + 2) * b == v * b + 2 * b;
    MulMono((v + 2) * b, a * one + 2 * b, y);
  }

  lemma UndoRoundings(x: nat, y: nat, one: nat, keep: nat, u: nat, v: nat)
    requires 0 < y && 0 < one && keep <= one
    requires x * one < u * y + y
    requires u * keep < v * one + one
    ensures x * keep < (v + 2) * y
  {
    assert (u + 1) * y == u * y + y;
    assert (u + 1) * keep == u * keep + keep;
    assert (v + 2) * one == v * one + 2 * one;
    CrossScaled(x, y, one, keep, u + 1, v + 2);
  }

  lemma CrossScaled(x: nat, y: nat, one: nat, keep: nat, u: nat, v: nat)
    requires 0 < y && 0 < one
    requires x * one < u * y && u * keep < v * one
    ensures x * keep < v * y
  {
    MulMono(x * one, u * y, keep);
    MulStrict(u * keep, v * one, y);
    Assoc(x, one, keep);
    Assoc(u, y, keep);
    Assoc(v, one, y);
    MulCancelStrict(x * keep, v * y, one);
  }

  /** An accepted deposit is balanced to within the tolerance, up to two units of the raw price each way. */
  lemma AcceptedDepositIsBalanced(before: Amounts, incoming: Amounts, tolerance: nat)
    requires before.left <= U128_MAX && before.right <= U128_MAX
    requires CheckDepositSlippage(before, incoming, tolerance).Ok?
    ensures tolerance <= FixedPoint.ONE
    ensures incoming.left * before.right * (FixedPoint.ONE - tolerance)
            < incoming.right * (before.left * FixedPoint.ONE + 2 * before.right)
    ensures incoming.right * before.left * (FixedPoint.ONE - tolerance)
            < incoming.left * (before.right * FixedPoint.ONE + 2 * before.left)
  {
    AcceptedPrice(incoming.left, incoming.right, before.left, before.right, tolerance);
    AcceptedPrice(incoming.right, incoming.left, before.right, before.left, tolerance);
  }

  lemma RejectedPrice(x: nat, y: nat, a: nat, b: nat, keep: nat)
    requires 0 < y && 0 < b
    requires PriceTooHigh(x, y, a, b, keep) == Ok(true)
    ensures y * a * FixedPoint.ONE < x * b * keep
  {
    var one := FixedPoint.ONE;
    var u, w := x * one / y, a * one / b;
    DivBounds(x * one, y);
    DivBounds(a * one, b);
    DivGe(u * keep, one, w + 1);
    RejectedPriceArith(x, y, a, b, one, keep, u, w);
  }

  lemma RejectedPriceArith(x: nat, y: nat, a: nat, b: nat, one: nat, keep: nat, u: nat, w: nat)
    requires 0 < y && 0 < b && 0 < one
    requires u * y <= x * one && (w + 1) * one <= u * keep && a * one < w * b + b
    ensures y * a * one < x * b * keep
  {
    var n, p := w + 1, x * keep;
    // n * y <= x * keep and a * one < n * b
    assert n * y <= p by {
      MulMono(u * y, x * one, keep);
      MulMono(n * one, u * keep, y);
      Assoc(u, y, keep);
      Assoc(x, one, keep);
      Assoc(n, one, y);
      MulCancel(n * y, p, one);
    }
    MulStrict(a * one, n * b, y);
    MulMono(n * y, p, b);
    Assoc(n, b, y);
    Assoc(a, one, y);
    Assoc(x, keep, b);
    assert (a * y) * one == y * a * one;
  }

  /** A deposit turned away as imbalanced is out of proportion by more than the tolerance, one way or the other. */
  lemma RejectedDepositIsImbalanced(before: Amounts, incoming: Amounts, tolerance: nat)
    requires CheckDepositSlippage(before, incoming, tolerance) == Err(DepositTooImbalanced)
    ensures tolerance <= FixedPoint.ONE
    ensures || incoming.right * before.left * FixedPoint.ONE
               < incoming.left * before.right * (FixedPoint.ONE - tolerance)
            || incoming.left * before.right * FixedPoint.ONE
               < incoming.right * before.left * (FixedPoint.ONE - tolerance)
  {
    var keep := FixedPoint.ONE - tolerance;
    if PriceTooHigh(incoming.left, incoming.right, before.left, before.right, keep) == Ok(true) {
      RejectedPrice(incoming.left, incoming.right, before.left, before.right, keep);
    } else {
      RejectedPrice(incoming.right, incoming.left, before.right, before.left, keep);
    }
  }

  /** A deposit in the pool's own proportion is never rejected: it passes unless the price itself cannot be represented. */
  lemma ProportionalDepositPasses(before: Amounts, incoming: Amounts, tolerance: nat)
    requires 0 < before.left && 0 < before.right && 0 < incoming.left && 0 < incoming.right
    requires incoming.left * before.right == incoming.right * before.left
    ensures CheckDepositSlippage(before, incoming, tolerance) ==
            if && tolerance <= FixedPoint.ONE
               && FixedPoint.FromRatio(before.left, before.right).Some?
               && FixedPoint.FromRatio(before.right, before.left).Some?
            then Ok(()) else Err(Panic)
  {
    var one := FixedPoint.ONE;
    DivSameRatio(incoming.left, incoming.right, before.left, before.right, one);
    DivSameRatio(incoming.right, incoming.left, before.right, before.left, one);
    if tolerance <= one {
      ShrunkPrice(before.left * one / before.right, one - tolerance);
      ShrunkPrice(before.right * one / before.left, one - tolerance);
    }
  }

  lemma ShrunkPrice(price: nat, keep: nat)
    requires keep <= FixedPoint.ONE
    ensures FixedPoint.SaturatingMul(price, keep) <= price
  {
    MulMono(keep, FixedPoint.ONE, price);
    DivLt(price * keep, FixedPoint.ONE, price + 1);
  }
}
