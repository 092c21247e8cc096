/** What one message does to a pool's value: backing per share, the product of the balances, and the queries' word. */
module PoolLaws {
  import opened Arith
  import opened Results
  import opened Bank
  import opened PoolCalc
  import opened Payments
  import opened PoolMachine
  import opened CurveLaws
  import FixedPoint

  // ---- Swaps ----

  /**
   A swap that pays something pays the curve's amount less the total fee, and reports as spread what is
   missing to the payout at the current price.
   */
  lemma SwapAccounting(balances: Amounts, x: nat, totalBps: nat, makerBps: nat, inverse: bool,
                       expected: Option<nat>, t: nat)
    requires CalcSwap(balances, x, totalBps, makerBps, inverse, expected, t).Ok?
    requires CalcSwap(balances, x, totalBps, makerBps, inverse, expected, t).value.resultAmount > 0
    ensures var a, b := balances.Side(inverse), balances.Side(!inverse);
            var r := CalcSwap(balances, x, totalBps, makerBps, inverse, expected, t).value;
            && 0 < a
            && r.resultAmount + r.totalFeeAmount == ActualResult(a, b, x) == b - Kept(a, b, x)
            && r.totalFeeAmount == ActualResult(a, b, x) * totalBps / BPS
            && r.makerFeeAmount == ActualResult(a, b, x) * makerBps / BPS
            && r.resultAmount + r.totalFeeAmount + r.spreadAmount == Max(NaiveResult(a, b, x), ActualResult(a, b, x))
  {
    KeptAtMost(balances.Side(inverse), balances.Side(!inverse), x);
  }

  /** The LP fee a quoted swap leaves behind; negative if the maker's share exceeds the total. */
  function LpFee(r: SwapResult): int {
    r.totalFeeAmount - r.makerFeeAmount
  }

  /** The payment and quote behind an executed swap. */
  predicate IsSwapOf(p: PoolState, funds: seq<Coin>, expected: Option<nat>, tolerance: Option<nat>,
                     payment: OneOfPair, r: SwapResult)
  {
    PricedSwap(p, funds, expected, tolerance) == Ok((payment, r))
  }

  /** The input coin comes in whole; of the output coin the curve's remainder and the LP fee stay. */
  lemma SwapMoves(p: PoolState, sender: Addr, funds: seq<Coin>, expected: Option<nat>, tolerance: Option<nat>,
                  receiver: Option<Addr>) returns (payment: OneOfPair, r: SwapResult)
    requires SwapStep(p, sender, funds, expected, tolerance, receiver).Ok?
    ensures IsSwapOf(p, funds, expected, tolerance, payment, r)
    ensures var q := SwapStep(p, sender, funds, expected, tolerance, receiver).value.0;
            var a, b := p.balances.Side(payment.inverse), p.balances.Side(!payment.inverse);
            && q == p.(balances := q.balances)
            && FitsU128(q.balances)
            && 0 < a && 0 < r.resultAmount
            && q.balances.Side(payment.inverse) == a + payment.amount
            && q.balances.Side(!payment.inverse) == Kept(a, b, payment.amount) + LpFee(r)
  {
    payment := MustPayOneOfPair(funds, p.pair).value;
    var t := CheckedTolerance(tolerance).value;
    r := SwapQuote(p.config, p.balances, payment, expected, t).value;
    SwapAccounting(p.balances, payment.amount, p.config.totalFeeBps, EffectiveMakerBps(p.config), payment.inverse,
                   expected, t);
  }

  function Product(a: Amounts): nat {
    a.left * a.right
  }

  lemma ProductOfSides(a: Amounts, inverse: bool)
    ensures Product(a) == a.Side(inverse) * a.Side(!inverse)
  {
  }

  /** The LP fee a swap of `x` into sides `a` and `b` would leave, from the configuration alone. */
  function LpFeeFor(config: PoolConfig, a: nat, b: nat, x: nat): int
    requires 0 < a
  {
    var actual := ActualResult(a, b, x);
    actual * config.totalFeeBps / BPS - actual * EffectiveMakerBps(config) / BPS
  }

  /** The product the pool would be left with: rounding takes the division's remainder, the LP fee gives back. */
  function ProductAfter(config: PoolConfig, a: nat, b: nat, x: nat): int
    requires 0 < a
  {
    a * b - (a * b) % (a + x) + (a + x) * LpFeeFor(config, a, b, x)
  }

  lemma SwapProductIs(p: PoolState, sender: Addr, funds: seq<Coin>, expected: Option<nat>, tolerance: Option<nat>,
                      receiver: Option<Addr>) returns (payment: OneOfPair, r: SwapResult)
    requires SwapStep(p, sender, funds, expected, tolerance, receiver).Ok?
    ensures IsSwapOf(p, funds, expected, tolerance, payment, r)
    ensures MustPayOneOfPair(funds, p.pair) == Ok(payment)
    ensures var q := SwapStep(p, sender, funds, expected, tolerance, receiver).value.0;
            var a, b, x := p.balances.Side(payment.inverse), p.balances.Side(!payment.inverse), payment.amount;
            && 0 < a && a * b == Product(p.balances) && FitsU128(q.balances)
            && q == p.(balances := q.balances)
            && LpFee(r) == LpFeeFor(p.config, a, b, x)
            && Product(q.balances) == (a + x) * (Kept(a, b, x) + LpFee(r))
  {
    payment, r := SwapMoves(p, sender, funds, expected, tolerance, receiver);
    var q := SwapStep(p, sender, funds, expected, tolerance, receiver).value.0;
    ProductOfSides(p.balances, payment.inverse);
    ProductOfSides(q.balances, payment.inverse);
  }

  /**
   The product law of an executed swap, for every configuration.  The product becomes `ProductAfter`, so
   it rises exactly when a unit of LP fee stays, and is kept otherwise only when none is missing and the
   division left no remainder.  The loss is below the new input balance exactly when the fee is not
   negative.
   */
  lemma SwapProductLaw(p: PoolState, sender: Addr, funds: seq<Coin>, expected: Option<nat>, tolerance: Option<nat>,
                       receiver: Option<Addr>) returns (payment: OneOfPair, r: SwapResult)
    requires SwapStep(p, sender, funds, expected, tolerance, receiver).Ok?
    ensures IsSwapOf(p, funds, expected, tolerance, payment, r)
    ensures MustPayOneOfPair(funds, p.pair) == Ok(payment)
    ensures var q := SwapStep(p, sender, funds, expected, tolerance, receiver).value.0;
            var a, b, x := p.balances.Side(payment.inverse), p.balances.Side(!payment.inverse), payment.amount;
            && 0 < a && a * b == Product(p.balances)
            && LpFee(r) == LpFeeFor(p.config, a, b, x)
            && Product(q.balances) == ProductAfter(p.config, a, b, x)
            && (Product(p.balances) < Product(q.balances) <==> 1 <= LpFee(r))
            && (Product(p.balances) <= Product(q.balances) <==>
                  1 <= LpFee(r) || (LpFee(r) == 0 && (a * b) % (a + x) == 0))
            && (0 <= LpFee(r) <==> Product(p.balances) - (a + x) < Product(q.balances))
  {
    payment, r := SwapProductIs(p, sender, funds, expected, tolerance, receiver);
    var q := SwapStep(p, sender, funds, expected, tolerance, receiver).value.0;
    ProductLaw(p.config, p.balances.Side(payment.inverse), p.balances.Side(!payment.inverse), payment.amount, LpFee(r),
               Product(p.balances), Product(q.balances));
  }

  lemma ProductLaw(config: PoolConfig, a: nat, b: nat, x: nat, f: int, before: nat, after: int)
    requires 0 < a && f == LpFeeFor(config, a, b, x)
    requires before == a * b && after == (a + x) * (Kept(a, b, x) + f)
    ensures after == ProductAfter(config, a, b, x)
    ensures before < after <==> 1 <= f
    ensures before <= after <==> 1 <= f || (f == 0 && (a * b) % (a + x) == 0)
    ensures 0 <= f <==> before - (a + x) < after
  {
    SwapProduct(a, b, x, f);
  }

  /** With fees in order, a payout whose fee difference reaches a whole unit leaves one. */
  lemma EnoughForAFee(config: PoolConfig, a: nat, b: nat, x: nat)
    requires 0 < a && EffectiveMakerBps(config) <= config.totalFeeBps
    requires BPS <= ActualResult(a, b, x) * (config.totalFeeBps - EffectiveMakerBps(config))
    ensures 1 <= LpFeeFor(config, a, b, x)
  {
    var actual, total, maker := ActualResult(a, b, x), config.totalFeeBps, EffectiveMakerBps(config);
    assert actual * total == actual * maker + actual * (total - maker);
    DivGe(actual * total, BPS, actual * maker / BPS + 1);
    DivBounds(actual * maker, BPS);
  }

  /** Nor can the configured fees ever leave a negative one when the maker's is within the total. */
  lemma FeesInOrder(config: PoolConfig, a: nat, b: nat, x: nat)
    requires 0 < a && EffectiveMakerBps(config) <= config.totalFeeBps
    ensures 0 <= LpFeeFor(config, a, b, x)
  {
    var actual := ActualResult(a, b, x);
    MulMono(EffectiveMakerBps(config), config.totalFeeBps, actual);
    DivMono(actual * EffectiveMakerBps(config), actual * config.totalFeeBps, BPS);
  }

  /**
   A maker fee above the total, which the update path lets through, can cost the pool far more than its
   new input balance: here 1000 units swapped in take 501,500,000 off the product.
   */
  lemma InvertedFeesDrainProduct()
    ensures var p := PoolState(PairId("a", "b"), "lp", Amounts(1_000_000, 1_000_000), 1_000_000,
                               PoolConfig(1, 2, 0, 5000, false), map[1 := 1_000_000]);
            var step := SwapStep(p, 1, [Coin("a", 1000)], None, None, None);
            && step.Ok? && step.value.0.balances == Amounts(1_001_000, 998_500)
            && Product(step.value.0.balances) == Product(p.balances) - 501_500_000
  {
    assert Kept(1_000_000, 1_000_000, 1000) == 999_000;
    assert NaiveResult(1_000_000, 1_000_000, 1000) == 1000;
    assert CalcSwap(Amounts(1_000_000, 1_000_000), 1000, 0, 5000, false, None, DEFAULT_SLIPPAGE)
        == Ok(SwapResult(1000, 0, 0, 500));
    assert MustPayOneOfPair([Coin("a", 1000)], PairId("a", "b")) == Ok(OneOfPair(1000, false));
  }

  /** An executed swap's expectation, read as bounds on what the curve paid before fees. */
  lemma SwapMeetsExpectation(p: PoolState, sender: Addr, funds: seq<Coin>, e: nat, tolerance: Option<nat>,
                             receiver: Option<Addr>) returns (payment: OneOfPair, r: SwapResult)
    requires SwapStep(p, sender, funds, Some(e), tolerance, receiver).Ok?
    ensures IsSwapOf(p, funds, Some(e), tolerance, payment, r)
    ensures var t := CheckedTolerance(tolerance).value;
            var actual := r.resultAmount + r.totalFeeAmount;
            && t <= MAX_ALLOWED_TOLERANCE
            && e * (FixedPoint.ONE - t) <= actual * FixedPoint.ONE < e * (FixedPoint.ONE + t + 1)
  {
    payment, r := SwapMoves(p, sender, funds, Some(e), tolerance, receiver);
    var t := CheckedTolerance(tolerance).value;
    SwapAccounting(p.balances, payment.amount, p.config.totalFeeBps, EffectiveMakerBps(p.config), payment.inverse,
                   Some(e), t);
    FixedPoint.WithinTolerance(r.resultAmount + r.totalFeeAmount, e, t);
  }

  // ---- Deposits and withdrawals ----

  /** Neither coin's balance per share falls (cross-multiplied). */
  predicate KeepsBacking(before: PoolState, after: PoolState) {
    && before.balances.left * after.supply <= after.balances.left * before.supply
    && before.balances.right * after.supply <= after.balances.right * before.supply
  }

  lemma BackingAfterMint(balance: nat, supply: nat, x: nat, m: nat)
    requires m * balance <= x * supply
    ensures balance * (supply + m) <= (balance + x) * supply
  {
    assert balance * (supply + m) == balance * supply + m * balance;
    assert (balance + x) * supply == balance * supply + x * supply;
  }

  lemma ProvideKeepsBacking(p: PoolState, sender: Addr, funds: seq<Coin>, tolerance: Option<nat>,
                            receiver: Option<Addr>)
    requires 0 < p.supply && ProvideStep(p, sender, funds, tolerance, receiver).Ok?
    ensures KeepsBacking(p, ProvideStep(p, sender, funds, tolerance, receiver).value.0)
    ensures p.supply < ProvideStep(p, sender, funds, tolerance, receiver).value.0.supply
  {
    var t, incoming := CheckedTolerance(tolerance).value, MustPayPair(funds, p.pair).value;
    MintBounds(p.supply, p.balances, incoming, t);
    var m := CalcSharesToMint(p.supply, p.balances, incoming, t).value;
    BackingAfterMint(p.balances.left, p.supply, incoming.left, m);
    BackingAfterMint(p.balances.right, p.supply, incoming.right, m);
  }

  lemma RedeemKeepsBacking(p: PoolState, sender: Addr, funds: seq<Coin>)
    requires FitsU128(p.balances) && Redeem(p, sender, funds).Ok?
    ensures 0 < p.supply && KeepsBacking(p, Redeem(p, sender, funds).value.0)
    ensures FitsU128(Redeem(p, sender, funds).value.0.balances)
  {
    var amount := MustPay(funds, p.lpDenom).value;
    ShareBounds(p.balances.left, amount, p.supply);
    ShareBounds(p.balances.right, amount, p.supply);
  }

  /** Backing that does not fall keeps the squared supply under the product. */
  lemma BackedProduct(before: PoolState, after: PoolState)
    requires 0 < before.supply && KeepsBacking(before, after)
    requires before.supply * before.supply <= Product(before.balances)
    ensures after.supply * after.supply <= Product(after.balances)
  {
    ScaledProduct(before.balances.left, before.balances.right, before.supply,
                  after.balances.left, after.balances.right, after.supply);
  }

  /** Two cross-multiplied ratios that do not fall, multiplied together. */
  lemma BackingProduct(a: nat, b: nat, s: nat, p: nat, q: nat, t: nat)
    requires a * t <= p * s && b * t <= q * s
    ensures (a * b) * (t * t) <= (p * q) * (s * s)
  {
    var at, bt, ps, qs := a * t, b * t, p * s, q * s;
    MulMono(at, ps, bt);
    MulMono(bt, qs, ps);
    assert at * bt == (a * b) * (t * t);
    assert ps * qs == (p * q) * (s * s);
  }

  lemma ScaledProduct(a: nat, b: nat, s: nat, p: nat, q: nat, t: nat)
    requires 0 < s && s * s <= a * b && a * t <= p * s && b * t <= q * s
    ensures t * t <= p * q
  {
    BackingProduct(a, b, s, p, q, t);
    ScaledBound(a * b, s * s, p * q, t * t);
    MulStrict(0, s, s);
  }

  lemma ScaledBound(before: nat, s: nat, after: nat, t: nat)
    requires s <= before && before * t <= after * s
    ensures 0 < s ==> t <= after
  {
    MulMono(s, before, t);
    if 0 < s {
      MulCancel(t, after, s);
    }
  }

  /** The first deposit into a pool mints no more than the geometric mean of what it brings. */
  lemma SeedingIsBacked(p: PoolState, sender: Addr, funds: seq<Coin>, tolerance: Option<nat>, receiver: Option<Addr>)
    requires p.supply == 0 && ProvideStep(p, sender, funds, tolerance, receiver).Ok?
    ensures var q := ProvideStep(p, sender, funds, tolerance, receiver).value.0;
            q.supply * q.supply <= Product(q.balances)
  {
    var t, incoming := CheckedTolerance(tolerance).value, MustPayPair(funds, p.pair).value;
    var m := CalcSharesToMint(0, p.balances, incoming, t).value;
    var root := Isqrt(incoming.left * incoming.right);
    MulMono(m, root, m);
    MulMono(m, root, root);
    MulMono(incoming.left, p.balances.left + incoming.left, incoming.right);
    MulMono(incoming.right, p.balances.right + incoming.right, p.balances.left + incoming.left);
  }

  /**
   A deposit withdrawn at once returns no more of either coin than was put in, exactly when the pool
   had shares outstanding or was empty: otherwise what lay in the pool goes to the first depositor.
   */
  lemma DepositThenWithdraw(p: PoolState, sender: Addr, funds: seq<Coin>, tolerance: Option<nat>,
                            receiver: Option<Addr>)
    requires ProvideStep(p, sender, funds, tolerance, receiver).Ok?
    ensures var q := ProvideStep(p, sender, funds, tolerance, receiver).value.0;
            var put := MustPayPair(funds, p.pair).value;
            var back := BalancesIntoShareValue(q.supply - p.supply, q.supply, q.balances);
            && (back.left <= put.left && back.right <= put.right <==> 0 < p.supply || p.balances == Amounts(0, 0))
  {
    var t, put := CheckedTolerance(tolerance).value, MustPayPair(funds, p.pair).value;
    var q := ProvideStep(p, sender, funds, tolerance, receiver).value.0;
    var m := q.supply - p.supply;
    if 0 < p.supply {
      MintBounds(p.supply, p.balances, put, t);
      ReturnsAtMost(p.balances.left, p.supply, put.left, m);
      ReturnsAtMost(p.balances.right, p.supply, put.right, m);
    } else {
      DivModIs(q.balances.left * m, m, q.balances.left, 0);
      DivModIs(q.balances.right * m, m, q.balances.right, 0);
    }
  }

  /** Five stray units in a pool without shares go to whoever deposits first, and come back with the deposit. */
  lemma FirstDepositTakesLeftovers()
    ensures var p := PoolState(PairId("a", "b"), "lp", Amounts(5, 0), 0, PoolConfig(1, 2, 30, 10, false), map[]);
            var step := ProvideStep(p, 1, [Coin("a", 1000), Coin("b", 1000)], None, None);
            && step.Ok? && step.value.0.supply == 1000
            && BalancesIntoShareValue(1000, 1000, step.value.0.balances) == Amounts(1005, 1000)
  {
    RootIs(1000 * 1000, 1000);
  }

  lemma RootIs(n: nat, r: nat)
    requires r * r <= n < (r + 1) * (r + 1)
    ensures Isqrt(n) == r
  {
    var s := Isqrt(n);
    if s < r {
      MulMono(s + 1, r, s + 1);
      MulMono(s + 1, r, r);
    } else if r < s {
      MulMono(r + 1, s, r + 1);
      MulMono(r + 1, s, s);
    }
  }

  lemma ReturnsAtMost(balance: nat, supply: nat, x: nat, m: nat)
    requires 0 < supply && m * balance <= x * supply && balance + x <= U128_MAX
    ensures ShareOf(balance + x, m, supply + m) <= x
  {
    assert (balance + x) * m == m * balance + x * m <= x * supply + x * m == x * (supply + m);
    DivLt((balance + x) * m, supply + m, x + 1);
    assert (x + 1) * (supply + m) == x * (supply + m) + supply + m;
  }

  /** A pool seeded at a price too steep for a decimal takes no second deposit, not even one in its own proportion. */
  lemma SteepPoolTakesNoMore()
    ensures var funds := [Coin("a", 1_000_000_000_000_000_000_000), Coin("b", 1)];
            var pool := Instantiate("lp", Amounts(0, 0), funds, PoolConfig(1, 2, 30, 10, false), 1);
            && pool.Ok? && pool.value.balances == Amounts(funds[0].amount, 1)
            && ProvideStep(pool.value, 1, funds, None, None) == Err(Panic)
  {
    var funds := [Coin("a", 1_000_000_000_000_000_000_000), Coin("b", 1)];
    RootIs(funds[0].amount * 1, 31_622_776_601);
    assert FixedPoint.FromRatio(funds[0].amount, 1) == None;
  }

  // ---- Queries against execution ----

  /** The deposit query promises exactly the shares an executed deposit mints, whatever its tolerance. */
  lemma SimulateProvideRefines(p: PoolState, sender: Addr, funds: seq<Coin>, tolerance: Option<nat>,
                               receiver: Option<Addr>)
    requires ProvideStep(p, sender, funds, tolerance, receiver).Ok?
    ensures |funds| == 2
    ensures var q := ProvideStep(p, sender, funds, tolerance, receiver).value.0;
            SimulateProvide(p, funds[0], funds[1])
              == Ok(DepositQuote(q.supply - p.supply,
                                 BalancesIntoShareValue(q.supply - p.supply, q.supply, q.balances)))
  {
    var t, incoming := CheckedTolerance(tolerance).value, MustPayPair(funds, p.pair).value;
    if 0 < p.supply {
      ToleranceIsMonotone(p.balances, incoming, t);
    }
  }

  /** With full tolerance the imbalance check accepts everything it can compute. */
  lemma ToleranceIsMonotone(before: Amounts, incoming: Amounts, t: nat)
    requires CheckDepositSlippage(before, incoming, t).Ok?
    ensures CheckDepositSlippage(before, incoming, FixedPoint.ONE).Ok?
  {
  }

  /** Nothing paid, nothing paid out: an executed swap comes with its one coin. */
  lemma SwapHasFunds(p: PoolState, sender: Addr, funds: seq<Coin>, expected: Option<nat>, tolerance: Option<nat>,
                     receiver: Option<Addr>)
    requires SwapStep(p, sender, funds, expected, tolerance, receiver).Ok?
    ensures |funds| == 1
  {
    if funds == [] {
      var payment, r := SwapMoves(p, sender, funds, expected, tolerance, receiver);
      var a, b := p.balances.left, p.balances.right;
      SwapAccounting(p.balances, 0, p.config.totalFeeBps, EffectiveMakerBps(p.config), false, expected,
                     CheckedTolerance(tolerance).value);
      DivModIs(a * b, a, b, 0);
    }
  }

  /**
   The swap query agrees with an executed swap on payout, spread and total fee exactly when the payout
   at the current price is not zero and the configured maker fee, which the query computes even when
   nobody receives it, can be multiplied out; otherwise the query aborts.
   */
  lemma SimulateSwapRefines(p: PoolState, sender: Addr, funds: seq<Coin>, expected: Option<nat>,
                            tolerance: Option<nat>, receiver: Option<Addr>)
    returns (payment: OneOfPair, r: SwapResult)
    requires FitsU128(p.balances) && p.pair.left != p.pair.right
    requires SwapStep(p, sender, funds, expected, tolerance, receiver).Ok?
    ensures |funds| == 1 && IsSwapOf(p, funds, expected, tolerance, payment, r)
    ensures var a, b := p.balances.Side(payment.inverse), p.balances.Side(!payment.inverse);
            var quote := SimulateSwap(p, funds[0]);
            && 0 < a
            && (quote.Ok? <==> && 0 < NaiveResult(a, b, payment.amount)
                               && ActualResult(a, b, payment.amount) * p.config.makerFeeBps <= U128_MAX)
            && (p.config.feeReceiver != ZERO_ADDR || p.config.makerFeeBps <= p.config.totalFeeBps ==>
                  ActualResult(a, b, payment.amount) * p.config.makerFeeBps <= U128_MAX)
            && (quote.Ok? ==>
                  && quote.value.resultAmount == r.resultAmount
                  && quote.value.spreadAmount == r.spreadAmount
                  && quote.value.totalFeeAmount == r.totalFeeAmount
                  && (p.config.feeReceiver != ZERO_ADDR ==> quote.value == r))
  {
    SwapHasFunds(p, sender, funds, expected, tolerance, receiver);
    payment, r := SwapMoves(p, sender, funds, expected, tolerance, receiver);
    var t := CheckedTolerance(tolerance).value;
    var a, b, x := p.balances.Side(payment.inverse), p.balances.Side(!payment.inverse), payment.amount;
    SwapAccounting(p.balances, x, p.config.totalFeeBps, EffectiveMakerBps(p.config), payment.inverse, expected, t);
    var actual, naive := ActualResult(a, b, x), NaiveResult(a, b, x);
    if p.config.makerFeeBps <= p.config.totalFeeBps {
      MulMono(p.config.makerFeeBps, p.config.totalFeeBps, actual);
    }
    if 0 < naive {
      PayoutNearPrice(a, b, x);
      RatioIsSmall(actual, naive);
    }
  }

  /** It also aborts over a maker fee that nobody receives, if that is configured far above the total and overflows. */
  lemma QueryCanOverflow()
    ensures var unit := 1_000_000_000_000_000_000_000_000_000_000_000_000;
            var p := PoolState(PairId("a", "b"), "lp", Amounts(unit, 2 * unit), unit,
                               PoolConfig(1, ZERO_ADDR, 30, 65_535, false), map[1 := unit]);
            var step := SwapStep(p, 1, [Coin("a", unit)], Some(unit), None, None);
            && step.Ok? && step.value.0.balances.left == 2 * unit
            && 0 < NaiveResult(unit, 2 * unit, unit)
            && SimulateSwap(p, Coin("a", unit)) == Err(Overflow)
  {
    var unit := 1_000_000_000_000_000_000_000_000_000_000_000_000;
    assert Kept(unit, 2 * unit, unit) == unit;
    assert NaiveResult(unit, 2 * unit, unit) == 2 * unit;
    assert FixedPoint.FromRatio(unit, unit) == Some(FixedPoint.ONE);
    assert CalcSwap(Amounts(unit, 2 * unit), unit, 30, 0, false, Some(unit), DEFAULT_SLIPPAGE)
        == Ok(SwapResult(unit - unit * 30 / BPS, unit, unit * 30 / BPS, 0));
    assert MustPayOneOfPair([Coin("a", unit)], PairId("a", "b")) == Ok(OneOfPair(unit, false));
  }

  /** The query can abort where the swap goes through: a payout that rounds down to nothing, expected to be one unit. */
  lemma QueryCanAbort()
    ensures var p := PoolState(PairId("a", "b"), "lp", Amounts(1_000_000, 10), 3000, PoolConfig(1, 2, 30, 10, false),
                               map[1 := 3000]);
            var step := SwapStep(p, 1, [Coin("a", 1)], Some(1), None, None);
            && step.Ok? && step.value.0.balances == Amounts(1_000_001, 9)
            && SimulateSwap(p, Coin("a", 1)).Err?
  {
    assert Kept(1_000_000, 10, 1) == 9;
    assert NaiveResult(1_000_000, 10, 1) == 0;
    assert CalcSwap(Amounts(1_000_000, 10), 1, 30, 10, false, Some(1), DEFAULT_SLIPPAGE) == Ok(SwapResult(1, 0, 0, 0));
    assert MustPayOneOfPair([Coin("a", 1)], PairId("a", "b")) == Ok(OneOfPair(1, false));
  }

  /** A payout within one unit of the naive one, or under a capped one, has a representable ratio. */
  lemma RatioIsSmall(actual: nat, naive: nat)
    requires 0 < naive <= U128_MAX && actual <= U128_MAX
    requires actual <= naive + 1 || naive == U128_MAX
    ensures FixedPoint.FromRatio(actual, naive).Some?
    ensures FixedPoint.AbsDiff(FixedPoint.FromRatio(actual, naive).value, FixedPoint.ONE) <= U128_MAX
  {
    var one := FixedPoint.ONE;
    MulMono(actual, 2 * naive, one);
    DivLt(actual * one, naive, 2 * one + 1);
  }

  /** An amount less its floored fee grows with the amount, by at most one per unit. */
  lemma NetOfFee(amount: nat, bps: nat)
    requires bps <= BPS
    ensures amount * bps / BPS <= amount
    ensures amount * bps / BPS <= (amount + 1) * bps / BPS <= amount * bps / BPS + 1
  {
    MulMono(bps, BPS, amount);
    DivLt(amount * bps, BPS, amount + 1);
    assert (amount + 1) * bps == amount * bps + bps;
    DivMono(amount * bps, (amount + 1) * bps, BPS);
    DivLt((amount + 1) * bps, BPS, amount * bps / BPS + 2);
    DivBounds(amount * bps, BPS);
  }

  lemma {:induction false} NetIsMonotone(low: nat, high: nat, bps: nat)
    requires bps <= BPS && low <= high
    ensures low - low * bps / BPS <= high - high * bps / BPS
    decreases high
  {
    if low < high {
      NetIsMonotone(low, high - 1, bps);
      NetOfFee(high - 1, bps);
    }
  }

  /** The infinite-liquidity quote is never more than one unit below what a swap actually pays. */
  lemma NaiveQuoteBoundsSwap(balances: Amounts, x: nat, totalBps: nat, makerBps: nat, inverse: bool,
                             expected: Option<nat>, t: nat)
    requires FitsU128(balances) && totalBps <= BPS
    requires CalcSwap(balances, x, totalBps, makerBps, inverse, expected, t).Ok?
    requires CalcNaiveSwap(balances, x, totalBps, makerBps, inverse).Ok?
    ensures CalcSwap(balances, x, totalBps, makerBps, inverse, expected, t).value.resultAmount
         <= CalcNaiveSwap(balances, x, totalBps, makerBps, inverse).value.resultAmount + 1
    ensures var naive := CalcNaiveSwap(balances, x, totalBps, makerBps, inverse).value;
            naive.resultAmount + naive.totalFeeAmount == NaiveResult(balances.Side(inverse), balances.Side(!inverse), x)
  {
    var a, b := balances.Side(inverse), balances.Side(!inverse);
    var actual, naive := ActualResult(a, b, x), NaiveResult(a, b, x);
    PayoutNearPrice(a, b, x);
    NetIsMonotone(actual, naive + 1, totalBps);
    NetOfFee(naive, totalBps);
    NetOfFee(actual, totalBps);
  }
}
