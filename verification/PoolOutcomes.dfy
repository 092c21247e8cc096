/**
 When each of the pool's messages goes through and what it then does, read off the state, the attached coins
 and the arguments, in the numbers the contract is configured with.
 */
module PoolOutcomes {
  import opened Arith
  import opened Results
  import opened Bank
  import opened PoolCalc
  import opened Payments
  import opened PoolMachine
  import opened PoolLaws
  import opened CurveLaws
  import opened PoolFlows
  import FixedPoint

  // ---- Swaps ----

  /** The tolerance given, or half a percent, as a raw decimal. */
  function ToleranceOr(tolerance: Option<nat>): nat {
    if tolerance.Some? then tolerance.value else 5_000_000_000_000_000
  }

  /** What the curve pays for `x`, before fees. */
  function CurvePays(a: nat, b: nat, x: nat): int
    requires 0 < a
  {
    b - a * b / (a + x)
  }

  /** `amount` lies within the raw tolerance of `expected`, the ratio being rounded down. */
  predicate Within(amount: int, expected: int, tolerance: int) {
    && expected * (1_000_000_000_000_000_000 - tolerance) <= amount * 1_000_000_000_000_000_000
    && amount * 1_000_000_000_000_000_000 < expected * (1_000_000_000_000_000_000 + tolerance + 1)
  }

  /** Half the price is the most that may be tolerated. */
  predicate Tolerable(tolerance: Option<nat>) {
    ToleranceOr(tolerance) <= 500_000_000_000_000_000
  }

  /** What is asked of the curve: the expectation if there is one, else the payout at the current price. */
  function Asked(a: nat, b: nat, x: nat, expected: Option<nat>): nat
    requires 0 < a
  {
    if expected.Some? then expected.value else Min(x * b / a, U128_MAX)
  }

  /** The fees on a curve amount; nobody's maker fee is not taken. */
  function TotalFee(config: PoolConfig, amount: int): int {
    amount * config.totalFeeBps / 10_000
  }

  function MakerFee(config: PoolConfig, amount: int): int {
    if config.feeReceiver == 0 then 0 else amount * config.makerFeeBps / 10_000
  }

  /** Everything that must hold for a swap of `x` into side `inverse` to go through. */
  predicate SwapConditions(p: PoolState, inverse: bool, x: nat, expected: Option<nat>, tolerance: Option<nat>) {
    var a, b := p.balances.Side(inverse), p.balances.Side(!inverse);
    && Tolerable(tolerance) && 0 < a && a + x <= U128_MAX
    && var actual := CurvePays(a, b, x);
       && 0 < Asked(a, b, x, expected) && Within(actual, Asked(a, b, x, expected), ToleranceOr(tolerance))
       && actual * p.config.totalFeeBps <= U128_MAX
       && (p.config.feeReceiver != 0 ==> actual * p.config.makerFeeBps <= U128_MAX)
       && TotalFee(p.config, actual) < actual
       && actual - TotalFee(p.config, actual) + MakerFee(p.config, actual) <= b
  }

  /** The curve amount and the check on it, as the pricing function makes them. */
  lemma CalcSwapOutcome(balances: Amounts, x: nat, totalBps: nat, makerBps: nat, inverse: bool, expected: Option<nat>,
                        t: nat)
    requires FitsU128(balances) && t <= MAX_ALLOWED_TOLERANCE
    ensures var a, b := balances.Side(inverse), balances.Side(!inverse);
            var r := CalcSwap(balances, x, totalBps, makerBps, inverse, expected, t);
            && (r.Ok? <==> && 0 < a && 0 < Asked(a, b, x, expected)
                           && Within(CurvePays(a, b, x), Asked(a, b, x, expected), t)
                           && CurvePays(a, b, x) * totalBps <= U128_MAX
                           && CurvePays(a, b, x) * makerBps <= U128_MAX)
            && (0 < a ==> 0 <= CurvePays(a, b, x) == ActualResult(a, b, x))
  {
    var a, b := balances.Side(inverse), balances.Side(!inverse);
    if 0 < a {
      KeptAtMost(a, b, x);
      var actual, e := ActualResult(a, b, x), Asked(a, b, x, expected);
      if 0 < e {
        FixedPoint.WithinTolerance(actual, e, t);
        if Within(actual, e, t) {
          RatioFits(actual, e, t);
        }
      }
    }
  }

  lemma RatioFits(n: nat, d: nat, t: nat)
    requires 0 < d && t <= MAX_ALLOWED_TOLERANCE && Within(n, d, t)
    ensures n * FixedPoint.ONE / d <= U128_MAX
  {
    DivLt(n * FixedPoint.ONE, d, FixedPoint.ONE + t + 1);
  }

  lemma PaidWith(p: PoolState, inverse: bool, x: nat)
    requires p.pair.left != p.pair.right
    ensures MustPayOneOfPair([Coin(p.pair.Side(inverse), x)], p.pair) == Ok(OneOfPair(x, inverse))
  {
  }

  lemma ToleranceChecked(tolerance: Option<nat>)
    ensures CheckedTolerance(tolerance)
         == if Tolerable(tolerance) then Ok(ToleranceOr(tolerance)) else Err(ToleranceTooHigh)
  {
  }

  lemma FitsAfter(balances: Amounts, payment: OneOfPair, output: nat)
    requires FitsU128(balances) && output <= balances.Side(!payment.inverse)
    ensures FitsU128(AfterSwap(balances, payment, output)) <==> balances.Side(payment.inverse) + payment.amount <= U128_MAX
  {
  }

  /** After the pricing, something must be paid, the pool must hold the output, and the new balances must fit. */
  lemma SwapStages(p: PoolState, x: nat, inverse: bool, expected: Option<nat>, tolerance: Option<nat>,
                   r: Result<SwapResult, PoolError>)
    requires FitsU128(p.balances) && p.pair.left != p.pair.right
    requires r == CalcSwap(p.balances, x, p.config.totalFeeBps, EffectiveMakerBps(p.config), inverse, expected,
                           ToleranceOr(tolerance))
    ensures var priced := PricedSwap(p, [Coin(p.pair.Side(inverse), x)], expected, tolerance);
            && (priced.Ok? <==> && Tolerable(tolerance) && r.Ok? && 0 < r.value.resultAmount
                                && OutputOf(r.value) <= p.balances.Side(!inverse)
                                && p.balances.Side(inverse) + x <= U128_MAX)
            && (priced.Ok? ==> priced.value == (OneOfPair(x, inverse), r.value))
  {
    PaidWith(p, inverse, x);
    ToleranceChecked(tolerance);
    if r.Ok? && OutputOf(r.value) <= p.balances.Side(!inverse) {
      FitsAfter(p.balances, OneOfPair(x, inverse), OutputOf(r.value));
    }
  }

  /** A swap of one of the pool's coins goes through exactly when all of that holds. */
  lemma SwapGoesThrough(p: PoolState, sender: Addr, x: nat, inverse: bool, expected: Option<nat>,
                        tolerance: Option<nat>, receiver: Option<Addr>)
    requires FitsU128(p.balances) && p.pair.left != p.pair.right
    ensures Step(p, Swap(sender, [Coin(p.pair.Side(inverse), x)], expected, tolerance, receiver)).Ok?
            <==> SwapConditions(p, inverse, x, expected, tolerance)
  {
    PricedExactly(p, x, inverse, expected, tolerance, [Coin(p.pair.Side(inverse), x)]);
  }

  lemma PricedExactly(p: PoolState, x: nat, inverse: bool, expected: Option<nat>, tolerance: Option<nat>, funds: seq<Coin>)
    requires FitsU128(p.balances) && p.pair.left != p.pair.right && funds == [Coin(p.pair.Side(inverse), x)]
    ensures PricedSwap(p, funds, expected, tolerance).Ok? <==> SwapConditions(p, inverse, x, expected, tolerance)
  {
    var t, config := ToleranceOr(tolerance), p.config;
    var r := CalcSwap(p.balances, x, config.totalFeeBps, EffectiveMakerBps(config), inverse, expected, t);
    SwapStages(p, x, inverse, expected, tolerance, r);
    if Tolerable(tolerance) {
      CalcSwapOutcome(p.balances, x, config.totalFeeBps, EffectiveMakerBps(config), inverse, expected, t);
      if 0 < p.balances.Side(inverse) {
        var actual := ActualResult(p.balances.Side(inverse), p.balances.Side(!inverse), x);
        FeesOf(config, actual);
        QuoteLeaves(p, inverse, x, expected, t, actual);
      }
    }
  }

  lemma PricedAmounts(balances: Amounts, x: nat, totalBps: nat, makerBps: nat, inverse: bool, expected: Option<nat>,
                      t: nat, actual: nat)
    requires 0 < balances.Side(inverse) && actual == ActualResult(balances.Side(inverse), balances.Side(!inverse), x)
    ensures var r := CalcSwap(balances, x, totalBps, makerBps, inverse, expected, t);
            r.Ok? ==> && r.value.resultAmount == SatSub(actual, actual * totalBps / 10_000)
                      && r.value.makerFeeAmount == actual * makerBps / 10_000
  {
  }

  lemma FeesOf(config: PoolConfig, amount: nat)
    ensures amount * config.totalFeeBps / 10_000 == TotalFee(config, amount) >= 0
    ensures amount * EffectiveMakerBps(config) / 10_000 == MakerFee(config, amount) >= 0
    ensures amount * EffectiveMakerBps(config) <= U128_MAX
            <==> (config.feeReceiver != 0 ==> amount * config.makerFeeBps <= U128_MAX)
  {
  }

  /** What a price that is met pays. */
  lemma QuoteLeaves(p: PoolState, inverse: bool, x: nat, expected: Option<nat>, t: nat, actual: nat)
    requires 0 < p.balances.Side(inverse)
    requires actual == ActualResult(p.balances.Side(inverse), p.balances.Side(!inverse), x)
    ensures var r := CalcSwap(p.balances, x, p.config.totalFeeBps, EffectiveMakerBps(p.config), inverse, expected, t);
            r.Ok? ==>
              && (0 < r.value.resultAmount <==> TotalFee(p.config, actual) < actual)
              && (0 < r.value.resultAmount ==>
                    && r.value.resultAmount == actual - TotalFee(p.config, actual)
                    && OutputOf(r.value) == actual - TotalFee(p.config, actual) + MakerFee(p.config, actual)
                    && r.value.makerFeeAmount == MakerFee(p.config, actual))
  {
    FeesOf(p.config, actual);
    PricedAmounts(p.balances, x, p.config.totalFeeBps, EffectiveMakerBps(p.config), inverse, expected, t, actual);
  }

  /** The quote behind an executed swap. */
  lemma SwapFigures(p: PoolState, sender: Addr, x: nat, inverse: bool, expected: Option<nat>, tolerance: Option<nat>,
                    receiver: Option<Addr>) returns (r: SwapResult)
    requires FitsU128(p.balances) && p.pair.left != p.pair.right
    requires Step(p, Swap(sender, [Coin(p.pair.Side(inverse), x)], expected, tolerance, receiver)).Ok?
    ensures IsSwapOf(p, [Coin(p.pair.Side(inverse), x)], expected, tolerance, OneOfPair(x, inverse), r)
    ensures 0 < p.balances.Side(inverse)
    ensures var actual := CurvePays(p.balances.Side(inverse), p.balances.Side(!inverse), x);
            && r.resultAmount == actual - TotalFee(p.config, actual)
            && r.makerFeeAmount == MakerFee(p.config, actual)
  {
    var t, config, a, b := ToleranceOr(tolerance), p.config, p.balances.Side(inverse), p.balances.Side(!inverse);
    var quote := CalcSwap(p.balances, x, config.totalFeeBps, EffectiveMakerBps(config), inverse, expected, t);
    SwapStages(p, x, inverse, expected, tolerance, quote);
    CalcSwapOutcome(p.balances, x, config.totalFeeBps, EffectiveMakerBps(config), inverse, expected, t);
    QuoteLeaves(p, inverse, x, expected, t, ActualResult(a, b, x));
    r := quote.value;
  }

  /** It then moves exactly this: the payout and the maker's fee go out, and nothing else. */
  lemma SwapMovesExactly(p: PoolState, sender: Addr, x: nat, inverse: bool, expected: Option<nat>,
                         tolerance: Option<nat>, receiver: Option<Addr>, someone: Addr)
    requires FitsU128(p.balances) && p.pair.left != p.pair.right
    requires Step(p, Swap(sender, [Coin(p.pair.Side(inverse), x)], expected, tolerance, receiver)).Ok?
    ensures 0 < p.balances.Side(inverse)
    ensures var a, b := p.balances.Side(inverse), p.balances.Side(!inverse);
            var (q, sent) := Step(p, Swap(sender, [Coin(p.pair.Side(inverse), x)], expected, tolerance, receiver)).value;
            var actual := CurvePays(a, b, x);
            var fee, payout := MakerFee(p.config, actual), actual - TotalFee(p.config, actual);
            && q == p.(balances := q.balances)
            && q.balances.Side(inverse) == a + x && q.balances.Side(!inverse) == b - payout - fee
            && SentTo(sent, someone, inverse) == 0
            && SentTo(sent, someone, !inverse)
               == (if someone == (if receiver.Some? then receiver.value else sender) then payout else 0)
                  + (if someone == p.config.feeReceiver then fee else 0)
  {
    var funds := [Coin(p.pair.Side(inverse), x)];
    var r := SwapFigures(p, sender, x, inverse, expected, tolerance, receiver);
    var payment, r1 := SwapPays(p, sender, funds, expected, tolerance, receiver, someone);
    SwapChanges(p, sender, funds, expected, tolerance, receiver, payment, r);
  }

  lemma SwapChanges(p: PoolState, sender: Addr, funds: seq<Coin>, expected: Option<nat>, tolerance: Option<nat>,
                    receiver: Option<Addr>, payment: OneOfPair, r: SwapResult)
    requires Step(p, Swap(sender, funds, expected, tolerance, receiver)).Ok?
    requires IsSwapOf(p, funds, expected, tolerance, payment, r)
    ensures var q := Step(p, Swap(sender, funds, expected, tolerance, receiver)).value.0;
            && q == p.(balances := q.balances)
            && q.balances.Side(payment.inverse) == p.balances.Side(payment.inverse) + payment.amount
            && q.balances.Side(!payment.inverse) == p.balances.Side(!payment.inverse) - OutputOf(r)
  {
  }

  /** Why a swap is refused, in the order the checks are made. */
  lemma SwapRefusals(p: PoolState, sender: Addr, x: nat, inverse: bool, expected: Option<nat>, tolerance: Option<nat>,
                     receiver: Option<Addr>)
    requires FitsU128(p.balances) && p.pair.left != p.pair.right
    ensures var a, b := p.balances.Side(inverse), p.balances.Side(!inverse);
            var step := Step(p, Swap(sender, [Coin(p.pair.Side(inverse), x)], expected, tolerance, receiver));
            && (!Tolerable(tolerance) ==> step == Err(ToleranceTooHigh))
            && (Tolerable(tolerance) && a == 0 ==> step == Err(NoLiquidity))
            && (Tolerable(tolerance) && 0 < a && 0 < Asked(a, b, x, expected)
                && !Within(CurvePays(a, b, x), Asked(a, b, x, expected), ToleranceOr(tolerance))
                && CurvePays(a, b, x) * 1_000_000_000_000_000_000 < Asked(a, b, x, expected) * (U128_MAX + 1) ==>
                  step == Err(SlippageTooHigh))
  {
    PaidWith(p, inverse, x);
    ToleranceChecked(tolerance);
    var a, b := p.balances.Side(inverse), p.balances.Side(!inverse);
    if Tolerable(tolerance) && 0 < a && 0 < Asked(a, b, x, expected) {
      PriceRefused(p.balances, x, p.config.totalFeeBps, EffectiveMakerBps(p.config), inverse, expected,
                   ToleranceOr(tolerance));
    }
  }

  lemma PriceRefused(balances: Amounts, x: nat, totalBps: nat, makerBps: nat, inverse: bool, expected: Option<nat>,
                     t: nat)
    requires FitsU128(balances) && t <= MAX_ALLOWED_TOLERANCE && 0 < balances.Side(inverse)
    requires 0 < Asked(balances.Side(inverse), balances.Side(!inverse), x, expected)
    ensures var a, b := balances.Side(inverse), balances.Side(!inverse);
            var actual, e := CurvePays(a, b, x), Asked(a, b, x, expected);
            !Within(actual, e, t) && actual * 1_000_000_000_000_000_000 < e * (U128_MAX + 1) ==>
              CalcSwap(balances, x, totalBps, makerBps, inverse, expected, t) == Err(SlippageTooHigh)
  {
    var a, b := balances.Side(inverse), balances.Side(!inverse);
    KeptAtMost(a, b, x);
    var actual, e := ActualResult(a, b, x), Asked(a, b, x, expected);
    FixedPoint.WithinTolerance(actual, e, t);
    DivLt(actual * FixedPoint.ONE, e, U128_MAX + 1);
  }

  /** And it takes exactly one coin, one of the pool's and not a zero one: nothing else goes through. */
  lemma SwapCoins(p: PoolState, sender: Addr, funds: seq<Coin>, expected: Option<nat>, tolerance: Option<nat>,
                  receiver: Option<Addr>)
    requires Step(p, Swap(sender, funds, expected, tolerance, receiver)).Ok?
    ensures |funds| == 1 && 0 < funds[0].amount && p.pair.Contains(funds[0].denom)
  {
    var payment := MustPayOneOfPair(funds, p.pair).value;
    if payment.amount == 0 {
      NothingPaid(p.balances, p.config.totalFeeBps, EffectiveMakerBps(p.config), payment.inverse, expected,
                  ToleranceOr(tolerance));
    }
  }

  lemma NothingPaid(balances: Amounts, totalBps: nat, makerBps: nat, inverse: bool, expected: Option<nat>, t: nat)
    ensures var r := CalcSwap(balances, 0, totalBps, makerBps, inverse, expected, t);
            r.Ok? ==> r.value.resultAmount == 0
  {
    if 0 < balances.Side(inverse) {
      NothingForNothing(balances.Side(inverse), balances.Side(!inverse));
    }
  }

  lemma NothingForNothing(a: nat, b: nat)
    requires 0 < a
    ensures ActualResult(a, b, 0) == 0
  {
    DivModIs(a * b, a, b, 0);
  }

  /**
   The quote of an infinitely deep pool: given exactly when the input side is not empty and neither fee
   overflows, it is the payout at the current price less the total fee, with both fees taken of that payout.
   */
  lemma NaiveOutcome(balances: Amounts, x: nat, totalBps: nat, makerBps: nat, inverse: bool)
    ensures var r := CalcNaiveSwap(balances, x, totalBps, makerBps, inverse);
            var a, b := balances.Side(inverse), balances.Side(!inverse);
            && (a == 0 ==> r == Err(NoLiquidity))
            && (0 < a ==>
                  var naive := Asked(a, b, x, None);
                  && (r.Ok? <==> naive * totalBps <= U128_MAX && naive * makerBps <= U128_MAX)
                  && (r.Err? ==> r.error == Overflow)
                  && (r.Ok? ==> && r.value.totalFeeAmount == naive * totalBps / 10_000
                                && r.value.makerFeeAmount == naive * makerBps / 10_000
                                && r.value.resultAmount == Max(naive - r.value.totalFeeAmount, 0)))
  {
    if 0 < balances.Side(inverse) {
      NotNegative(x * balances.Side(!inverse), balances.Side(inverse));
    }
  }

  lemma NotNegative(n: nat, d: nat)
    requires 0 < d
    ensures 0 <= n / d
  {
  }

  /** What the swap query answers: the figures of a curve amount and of the payout at the current price. */
  predicate QueryFigures(r: SwapResult, actual: nat, naive: nat, totalBps: nat, makerBps: nat) {
    && r.totalFeeAmount == actual * totalBps / 10_000 && r.makerFeeAmount == actual * makerBps / 10_000
    && r.resultAmount == Max(actual - r.totalFeeAmount, 0) && r.spreadAmount == Max(naive - actual, 0)
  }

  /** At a tolerance nothing exceeds, only the ratio and the fees have to fit. */
  lemma AnyPrice(balances: Amounts, x: nat, totalBps: nat, makerBps: nat, inverse: bool, actual: nat, naive: nat)
    requires FitsU128(balances) && 0 < balances.Side(inverse)
    requires actual == ActualResult(balances.Side(inverse), balances.Side(!inverse), x)
    requires naive == NaiveResult(balances.Side(inverse), balances.Side(!inverse), x)
    ensures var r := CalcSwap(balances, x, totalBps, makerBps, inverse, None, U128_MAX);
            && (r.Ok? <==> && 0 < naive && actual * FixedPoint.ONE / naive <= U128_MAX
                           && actual * totalBps <= U128_MAX && actual * makerBps <= U128_MAX)
            && (r.Ok? ==> QueryFigures(r.value, actual, naive, totalBps, makerBps))
  {
    KeptAtMost(balances.Side(inverse), balances.Side(!inverse), x);
  }

  /**
   The swap query answers for either of the pool's coins, whatever the tolerance or the pool could bear,
   unless the input side is empty, the payout at the current price is none, or its ratio or a fee does not fit.
   */
  lemma SwapQueryOutcome(p: PoolState, offer: Coin)
    requires FitsU128(p.balances)
    ensures var r, inverse := SimulateSwap(p, offer), offer.denom == p.pair.right;
            var a, b, config := p.balances.Side(inverse), p.balances.Side(!inverse), p.config;
            && (offer.denom != p.pair.left && !inverse ==> r == Err(ExtraDenom))
            && (offer.denom == p.pair.left || inverse ==>
                  && (a == 0 ==> r == Err(NoLiquidity))
                  && (0 < a ==>
                        var naive, actual := Asked(a, b, offer.amount, None), CurvePays(a, b, offer.amount);
                        && 0 <= actual && 0 <= naive
                        && (r.Ok? <==>
                              && 0 < naive && actual * 1_000_000_000_000_000_000 / naive <= U128_MAX
                              && actual * config.totalFeeBps <= U128_MAX && actual * config.makerFeeBps <= U128_MAX)
                        && (r.Ok? ==> QueryFigures(r.value, actual, naive, config.totalFeeBps, config.makerFeeBps))))
  {
    var inverse := offer.denom == p.pair.right;
    var a, b := p.balances.Side(inverse), p.balances.Side(!inverse);
    if 0 < a {
      KeptAtMost(a, b, offer.amount);
      AnyPrice(p.balances, offer.amount, p.config.totalFeeBps, p.config.makerFeeBps, inverse,
               ActualResult(a, b, offer.amount), NaiveResult(a, b, offer.amount));
    }
  }

  // ---- Deposits ----

  /** r is the integer square root of n. */
  predicate IsRoot(r: nat, n: nat) {
    r * r <= n < (r + 1) * (r + 1)
  }

  /** The first deposit mints the root of its product, if that is at least a thousand; nothing else matters. */
  lemma FirstMint(before: Amounts, x: nat, y: nat, t: nat)
    requires x <= U128_MAX && y <= U128_MAX
    ensures var r := CalcSharesToMint(0, before, Amounts(x, y), t);
            && (r.Ok? <==> 1_000_000 <= x * y)
            && (r.Ok? ==> IsRoot(r.value, x * y) && r.value <= U128_MAX)
            && (r.Err? ==> r.error == MinimumSharesAmount)
  {
    var root := Isqrt(x * y);
    RootAtMost(x, y, root);
    if 1000 <= root {
      MulMono(1000, root, 1000);
      MulMono(1000, root, root);
    } else {
      MulMono(root + 1, 1000, root + 1);
      MulMono(root + 1, 1000, 1000);
    }
  }

  lemma RootAtMost(x: nat, y: nat, root: nat)
    requires x <= U128_MAX && y <= U128_MAX && root * root <= x * y
    ensures root <= U128_MAX
  {
    var top := U128_MAX;
    MulMono(x, top, y);
    MulMono(y, top, top);
    if top < root {
      MulStrict(top, root, top);
      MulStrict(top, root, root);
    }
  }

  /** Two coins in the pool's order, and room for them. */
  predicate PairFits(p: PoolState, x: nat, y: nat) {
    0 < x && 0 < y && p.balances.left + x <= U128_MAX && p.balances.right + y <= U128_MAX
  }

  /** The state after a deposit that mints `m` shares. */
  ghost predicate Deposited(p: PoolState, q: PoolState, x: nat, y: nat, m: nat, receiver: Addr) {
    && q == p.(balances := q.balances, supply := q.supply, shares := q.shares)
    && q.balances == Amounts(p.balances.left + x, p.balances.right + y) && q.supply == p.supply + m
    && forall a :: Balance(q.shares, a) == Balance(p.shares, a) + (if a == receiver then m else 0)
  }

  lemma DepositOf(p: PoolState, sender: Addr, x: nat, y: nat, tolerance: Option<nat>, receiver: Option<Addr>,
                  mint: Result<nat, PoolError>)
    requires mint == CalcSharesToMint(p.supply, p.balances, Amounts(x, y), ToleranceOr(tolerance))
    ensures var step := Step(p, Provide(sender, [Coin(p.pair.left, x), Coin(p.pair.right, y)], tolerance, receiver));
            && (step.Ok? <==> && Tolerable(tolerance) && PairFits(p, x, y) && mint.Ok? && 0 < mint.value
                              && p.supply + mint.value <= U128_MAX)
            && (step.Ok? ==> && step.value.1 == []
                             && Deposited(p, step.value.0, x, y, mint.value,
                                          if receiver.Some? then receiver.value else sender))
  {
    ToleranceChecked(tolerance);
  }

  /**
   The first deposit goes through exactly when both coins are there, their product is at least a million and
   the sums fit; the receiver gets the root of the product in shares.
   */
  lemma FirstDeposit(p: PoolState, sender: Addr, x: nat, y: nat, tolerance: Option<nat>, receiver: Option<Addr>)
    requires FitsU128(p.balances) && p.supply == 0
    ensures var step := Step(p, Provide(sender, [Coin(p.pair.left, x), Coin(p.pair.right, y)], tolerance, receiver));
            && (step.Ok? <==> Tolerable(tolerance) && PairFits(p, x, y) && 1_000_000 <= x * y)
            && (step.Ok? ==>
                  && IsRoot(step.value.0.supply, x * y) && step.value.1 == []
                  && Deposited(p, step.value.0, x, y, step.value.0.supply,
                               if receiver.Some? then receiver.value else sender))
  {
    DepositOf(p, sender, x, y, tolerance, receiver,
              CalcSharesToMint(0, p.balances, Amounts(x, y), ToleranceOr(tolerance)));
    if PairFits(p, x, y) {
      FirstMint(p.balances, x, y, ToleranceOr(tolerance));
    }
  }

  /**
   A later one goes through exactly when its price passes the check, both proportional amounts of shares can
   be computed and the smaller is at least one; the receiver gets the smaller.
   */
  lemma LaterDeposit(p: PoolState, sender: Addr, x: nat, y: nat, tolerance: Option<nat>, receiver: Option<Addr>)
    requires 0 < p.supply
    ensures var step := Step(p, Provide(sender, [Coin(p.pair.left, x), Coin(p.pair.right, y)], tolerance, receiver));
            var a, b, s := p.balances.left, p.balances.right, p.supply;
            && (step.Ok? <==>
                  && Tolerable(tolerance) && PairFits(p, x, y) && 0 < a && 0 < b
                  && CheckDepositSlippage(p.balances, Amounts(x, y), ToleranceOr(tolerance)).Ok?
                  && x * s / a <= U128_MAX && y * s / b <= U128_MAX
                  && var m := Min(x * s / a, y * s / b); 0 < m && s + m <= U128_MAX)
            && (step.Ok? ==>
                  && step.value.1 == []
                  && Deposited(p, step.value.0, x, y, Min(x * s / a, y * s / b),
                               if receiver.Some? then receiver.value else sender))
  {
    DepositOf(p, sender, x, y, tolerance, receiver,
              CalcSharesToMint(p.supply, p.balances, Amounts(x, y), ToleranceOr(tolerance)));
  }

  /** A deposit is two coins in the pool's order, or it is refused. */
  lemma DepositCoins(p: PoolState, sender: Addr, funds: seq<Coin>, tolerance: Option<nat>, receiver: Option<Addr>)
    requires Step(p, Provide(sender, funds, tolerance, receiver)).Ok?
    ensures |funds| == 2 && funds == [Coin(p.pair.left, funds[0].amount), Coin(p.pair.right, funds[1].amount)]
  {
  }

  /** Why a deposit is refused, in the order the checks are made; the first one also for its product. */
  lemma DepositRefusals(p: PoolState, sender: Addr, funds: seq<Coin>, tolerance: Option<nat>, receiver: Option<Addr>)
    ensures var step := Step(p, Provide(sender, funds, tolerance, receiver));
            && (!Tolerable(tolerance) ==> step == Err(ToleranceTooHigh))
            && (Tolerable(tolerance) ==>
                  && (|funds| != 2 ==> step == Err(NeedsPair))
                  && (|funds| == 2 && (funds[0].denom != p.pair.left || funds[1].denom != p.pair.right) ==>
                        step == Err(ExtraDenom))
                  && (|funds| == 2 && funds[0].denom == p.pair.left && funds[1].denom == p.pair.right ==>
                        var x, y := funds[0].amount, funds[1].amount;
                        && (x == 0 || y == 0 ==> step == Err(PaymentIsZero))
                        && (0 < x && 0 < y && !PairFits(p, x, y) ==> step == Err(Overflow))
                        && (PairFits(p, x, y) && p.supply == 0 && x * y < 1_000_000 ==>
                              step == Err(MinimumSharesAmount))))
  {
    ToleranceChecked(tolerance);
    if |funds| == 2 && PairFits(p, funds[0].amount, funds[1].amount) {
      FirstMint(p.balances, funds[0].amount, funds[1].amount, ToleranceOr(tolerance));
    }
  }

  /** Of a price only its being a decimal is asked. */
  predicate PricesFit(x: nat, y: nat) {
    && 0 < x && 0 < y
    && x * 1_000_000_000_000_000_000 / y <= U128_MAX && y * 1_000_000_000_000_000_000 / x <= U128_MAX
  }

  lemma AnyImbalance(before: Amounts, x: nat, y: nat)
    ensures CheckDepositSlippage(before, Amounts(x, y), FixedPoint.ONE).Ok?
            <==> PricesFit(x, y) && PricesFit(before.left, before.right)
  {
    assert forall deposit: nat :: FixedPoint.SaturatingMul(deposit, 0) == 0;
  }

  /** What the deposit query answers for `m` new shares: them, and what the coins then there are worth to them. */
  predicate QuoteOf(quote: DepositQuote, a: nat, b: nat, supply: nat, m: nat)
    requires 0 < supply
  {
    quote.shareAmount == m && quote.shareValue == Amounts(a * m / supply, b * m / supply)
  }

  /**
   The deposit query answers for the pool's coins, in order, however imbalanced, as long as the prices, the
   shares and the sums fit: without shares outstanding with the root of the product, worth everything there
   is, and later with the smaller proportional amount.
   */
  lemma DepositQueryOutcome(p: PoolState, first: Coin, second: Coin)
    requires first.amount <= U128_MAX && second.amount <= U128_MAX
    ensures var r := SimulateProvide(p, first, second);
            var a, b, s, x, y := p.balances.left, p.balances.right, p.supply, first.amount, second.amount;
            var fits := a + x <= U128_MAX && b + y <= U128_MAX;
            && (first.denom != p.pair.left || second.denom != p.pair.right ==> r == Err(QueryDenomMismatch))
            && (first.denom == p.pair.left && second.denom == p.pair.right ==>
                  && (s == 0 ==> && (r.Ok? <==> 1_000_000 <= x * y && fits)
                                 && (r.Ok? ==> IsRoot(r.value.shareAmount, x * y)
                                               && r.value.shareValue == Amounts(a + x, b + y)))
                  && (0 < s ==> && (r.Ok? <==>
                                      && PricesFit(x, y) && PricesFit(a, b) && fits
                                      && x * s / a <= U128_MAX && y * s / b <= U128_MAX
                                      && s + Min(x * s / a, y * s / b) <= U128_MAX)
                                && (r.Ok? ==> var m := Min(x * s / a, y * s / b);
                                              0 <= m && QuoteOf(r.value, a + x, b + y, s + m, m))))
  {
    var coins := Amounts(first.amount, second.amount);
    if first.denom == p.pair.left && second.denom == p.pair.right {
      if p.supply == 0 {
        FirstMint(p.balances, first.amount, second.amount, FixedPoint.ONE);
        var m := CalcSharesToMint(0, p.balances, coins, FixedPoint.ONE);
        if m.Ok? && FitsU128(p.balances.Plus(coins)) {
          AllOfIt(m.value, p.balances.Plus(coins), first.amount * second.amount);
        }
      } else {
        AnyImbalance(p.balances, first.amount, second.amount);
        var m := CalcSharesToMint(p.supply, p.balances, coins, FixedPoint.ONE);
        if m.Ok? && FitsU128(p.balances.Plus(coins)) {
          PartOfIt(m.value, p.supply, p.balances.Plus(coins));
        }
      }
    }
  }

  lemma AllOfIt(m: nat, balances: Amounts, product: nat)
    requires FitsU128(balances) && IsRoot(m, product) && 1_000_000 <= product
    ensures BalancesIntoShareValue(m, m, balances) == balances
  {
    DivModIs(balances.left * m, m, balances.left, 0);
    DivModIs(balances.right * m, m, balances.right, 0);
  }

  lemma PartOfIt(m: nat, supply: nat, balances: Amounts)
    requires FitsU128(balances) && 0 < supply
    ensures QuoteOf(DepositQuote(m, BalancesIntoShareValue(m, supply + m, balances)), balances.left, balances.right,
                    supply + m, m)
  {
    ShareBounds(balances.left, m, supply + m);
    ShareBounds(balances.right, m, supply + m);
  }

  // ---- Instantiation ----

  /**
   A pool comes to life exactly when it is given two coins whose product is at least a million: with their
   denoms as its pair, the given configuration, and the root of the product as its supply, all of it the
   receiver's.
   */
  lemma Instantiated(lpDenom: Denom, held: Amounts, first: Coin, second: Coin, config: PoolConfig, receiver: Addr)
    ensures var r := Instantiate(lpDenom, held, [first, second], config, receiver);
            var x, y := first.amount, second.amount;
            && (r.Ok? <==> && 0 < x && 0 < y && 1_000_000 <= x * y
                           && held.left + x <= U128_MAX && held.right + y <= U128_MAX)
            && (r.Ok? ==>
                  && r.value.pair.left == first.denom && r.value.pair.right == second.denom
                  && r.value.lpDenom == lpDenom && r.value.config == config
                  && r.value.balances == Amounts(held.left + x, held.right + y)
                  && IsRoot(r.value.supply, x * y)
                  && forall a :: Balance(r.value.shares, a) == if a == receiver then r.value.supply else 0)
  {
    if first.amount <= U128_MAX && second.amount <= U128_MAX {
      FirstMint(Amounts(0, 0), first.amount, second.amount, FixedPoint.ONE / 100);
    }
  }

  lemma InstantiateRefusals(lpDenom: Denom, held: Amounts, funds: seq<Coin>, config: PoolConfig, receiver: Addr)
    ensures var r := Instantiate(lpDenom, held, funds, config, receiver);
            && (|funds| != 2 ==> r == Err(NeedsTwoCoins))
            && (|funds| == 2 && (funds[0].amount == 0 || funds[1].amount == 0) ==> r == Err(PaymentIsZero))
            && (|funds| == 2 && 0 < funds[0].amount * funds[1].amount < 1_000_000
                && held.left + funds[0].amount <= U128_MAX && held.right + funds[1].amount <= U128_MAX ==>
                  r == Err(MinimumSharesAmount))
  {
    if |funds| == 2 && funds[0].amount <= U128_MAX && funds[1].amount <= U128_MAX {
      FirstMint(Amounts(0, 0), funds[0].amount, funds[1].amount, FixedPoint.ONE / 100);
    }
  }

  // ---- Withdrawals ----

  /** What a withdrawal of v shares asks for: shares the sender has and the supply covers, worth a unit of each coin. */
  predicate Redeemable(p: PoolState, sender: Addr, v: nat) {
    && 0 < v <= Balance(p.shares, sender) && v <= p.supply
    && 0 < p.balances.left * v / p.supply && 0 < p.balances.right * v / p.supply
  }

  /** It goes through exactly then, and pays the floored proportion of each balance. */
  lemma WithdrawOutcome(p: PoolState, sender: Addr, v: nat, leftReceiver: Addr, rightReceiver: Addr)
    requires FitsU128(p.balances)
    ensures var step := WithdrawStep(p, sender, [Coin(p.lpDenom, v)], leftReceiver, rightReceiver);
            && (step.Ok? <==> Redeemable(p, sender, v))
            && (step.Ok? ==>
                  var l, r, q := p.balances.left * v / p.supply, p.balances.right * v / p.supply, step.value.0;
                  && step.value.1 == [Payment(leftReceiver, false, l), Payment(rightReceiver, true, r)]
                  && q == p.(balances := q.balances, supply := q.supply, shares := q.shares)
                  && q.balances.left == p.balances.left - l && q.balances.right == p.balances.right - r
                  && q.supply == p.supply - v
                  && forall a :: Balance(q.shares, a) == Balance(p.shares, a) - (if a == sender then v else 0))
  {
    if 0 < p.supply && v <= p.supply {
      ShareBounds(p.balances.left, v, p.supply);
      ShareBounds(p.balances.right, v, p.supply);
    }
  }

  /** A plain withdrawal pays its receiver, or the sender, both coins; a split one each coin to its own receiver. */
  lemma WithdrawReceivers(p: PoolState, act: Action)
    requires act.Withdraw? || act.WithdrawAndSplit?
    ensures var left := if act.Withdraw? then act.receiver else act.leftReceiver;
            var right := if act.Withdraw? then act.receiver else act.rightReceiver;
            Step(p, act) == WithdrawStep(p, act.sender, act.funds, if left.Some? then left.value else act.sender,
                                         if right.Some? then right.value else act.sender)
  {
  }

  lemma WithdrawCoins(p: PoolState, sender: Addr, funds: seq<Coin>, leftReceiver: Addr, rightReceiver: Addr)
    requires WithdrawStep(p, sender, funds, leftReceiver, rightReceiver).Ok?
    ensures |funds| == 1 && funds == [Coin(p.lpDenom, funds[0].amount)]
  {
  }

  /** Why a withdrawal is refused, in the order the checks are made. */
  lemma WithdrawRefusals(p: PoolState, sender: Addr, funds: seq<Coin>, leftReceiver: Addr, rightReceiver: Addr)
    ensures var step := WithdrawStep(p, sender, funds, leftReceiver, rightReceiver);
            && (funds == [] ==> step == Err(NoFunds))
            && (|funds| > 1 ==> step == Err(MultipleDenoms))
            && (|funds| == 1 ==>
                  var v := funds[0].amount;
                  && (v == 0 ==> step == Err(NoFunds))
                  && (0 < v && funds[0].denom != p.lpDenom ==> step == Err(MissingDenom))
                  && (0 < v && funds[0].denom == p.lpDenom ==>
                        && (Balance(p.shares, sender) < v ==> step == Err(InsufficientFunds))
                        && (v <= Balance(p.shares, sender) && 0 < p.supply
                            && (p.balances.left * v / p.supply == 0 || p.balances.right * v / p.supply == 0) ==>
                              step == Err(PayoutIsZero))))
  {
  }

  // ---- Configuration ----

  /** Only the stored admin, sending no coins, changes the configuration, and only the fields given. */
  lemma Configured(p: PoolState, act: Action)
    requires act.UpdateConfig?
    ensures Step(p, act).Ok? <==> act.funds == [] && act.sender == p.config.admin
    ensures Step(p, act).Ok? ==>
              var c, d, q := p.config, After(p, act).config, After(p, act);
              && q == p.(config := d) && Step(p, act).value.1 == []
              && (if act.admin.Some? then d.admin == act.admin.value else d.admin == c.admin)
              && (if act.feeReceiver.Some? then d.feeReceiver == act.feeReceiver.value else d.feeReceiver == c.feeReceiver)
              && (if act.totalFeeBps.Some? then d.totalFeeBps == act.totalFeeBps.value else d.totalFeeBps == c.totalFeeBps)
              && (if act.makerFeeBps.Some? then d.makerFeeBps == act.makerFeeBps.value else d.makerFeeBps == c.makerFeeBps)
              && (if act.endorsed.Some? then d.endorsed == act.endorsed.value else d.endorsed == c.endorsed)
  {
  }

  /** So over any run in which its admin sends no update, whatever others send, a pool's configuration stays. */
  lemma {:induction false} OnlyAdminConfigures(p: PoolState, acts: seq<Action>)
    requires forall i :: 0 <= i < |acts| && acts[i].UpdateConfig? ==> acts[i].sender != p.config.admin
    ensures Run(p, acts).config == p.config
    decreases |acts|
  {
    if acts != [] {
      assert After(p, acts[0]).config == p.config;
      OnlyAdminConfigures(After(p, acts[0]), acts[1..]);
    }
  }
}
