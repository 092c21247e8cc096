/** The pool's pricing functions (contract/pool.rs). */
module PoolCalc {
  import opened Arith
  import opened Results
  import FixedPoint

  const MINIMUM_INITIAL_SHARES: nat := 1000
  const DEFAULT_SLIPPAGE: nat := FixedPoint.ONE / 10000 * 50
  const MAX_ALLOWED_TOLERANCE: nat := FixedPoint.ONE / 10000 * 5000
  const BPS: nat := 10_000

  /** Everything that makes a message fail; `Panic` covers the arithmetic that aborts the VM. */
  datatype PoolError =
    | Panic
    | Overflow
    | DivideByZero
    | NoLiquidity
    | SlippageTooHigh
    | ToleranceTooHigh
    | MinimumSharesAmount
    | DepositTooImbalanced
    | PayoutIsZero
    | PaymentIsZero
    | NeedsPair
    | NeedsTwoCoins
    | NoFunds
    | MissingDenom
    | MultipleDenoms
    | ExtraDenom
    | QueryDenomMismatch
    | NonPayable
    | Unauthorized
    | InsufficientFunds

  /** A left and a right amount: the source's `[Uint128; 2]`. */
  datatype Amounts = Amounts(left: nat, right: nat) {
    function Side(takeRight: bool): nat {
      if takeRight then right else left
    }

    function Plus(other: Amounts): Amounts {
      Amounts(left + other.left, right + other.right)
    }
  }

  function OrPanic<T>(o: Option<T>): Result<T, PoolError> {
    match o
    case Some(v) => Ok(v)
    case None => Err(Panic)
  }

  /** `multiply_ratio`: panics on a zero denominator and on overflow. */
  function MultiplyRatio(a: nat, n: nat, d: nat): Result<nat, PoolError> {
    if d == 0 || a * n / d > U128_MAX then Err(Panic) else Ok(a * n / d)
  }

  function ShareOf(balance: nat, shares: nat, supply: nat): nat {
    if supply == 0 then 0 else Min(balance * shares / supply, U128_MAX)
  }

  function BalancesIntoShareValue(shares: nat, supply: nat, balances: Amounts): Amounts {
    Amounts(ShareOf(balances.left, shares, supply), ShareOf(balances.right, shares, supply))
  }

  /** One half of the imbalance check: the deposit's price, shrunk by the tolerance, against the pool's. */
  function PriceTooHigh(x: nat, y: nat, a: nat, b: nat, oneMinusTolerance: nat): Result<bool, PoolError> {
    var deposit :- OrPanic(FixedPoint.FromRatio(x, y));
    var pool :- OrPanic(FixedPoint.FromRatio(a, b));
    Ok(FixedPoint.SaturatingMul(deposit, oneMinusTolerance) > pool)
  }

  function CheckDepositSlippage(before: Amounts, incoming: Amounts, tolerance: nat): Result<(), PoolError> {
    if tolerance > FixedPoint.ONE then Err(Panic) else
      var keep := FixedPoint.ONE - tolerance;
      var tooHigh :- PriceTooHigh(incoming.left, incoming.right, before.left, before.right, keep);
      if tooHigh then Err(DepositTooImbalanced) else
        var tooLow :- PriceTooHigh(incoming.right, incoming.left, before.right, before.left, keep);
        if tooLow then Err(DepositTooImbalanced) else Ok(())
  }

  function CalcSharesToMint(supply: nat, before: Amounts, incoming: Amounts, tolerance: nat): Result<nat, PoolError> {
    if supply == 0 then
      var initial := Min(Isqrt(incoming.left * incoming.right), U128_MAX);
      if initial < MINIMUM_INITIAL_SHARES then Err(MinimumSharesAmount) else Ok(initial)
    else
      var _ :- CheckDepositSlippage(before, incoming, tolerance);
      var byLeft :- MultiplyRatio(incoming.left, supply, before.left);
      var byRight :- MultiplyRatio(incoming.right, supply, before.right);
      Ok(Min(byLeft, byRight))
  }

  datatype SwapResult = SwapResult(
    resultAmount: nat,
    spreadAmount: nat,
    totalFeeAmount: nat,
    makerFeeAmount: nat
  )

  /** What the pool keeps of its output coin on the fee-free curve: floor(ab / (a + x)). */
  function Kept(a: nat, b: nat, x: nat): nat
    requires 0 < a + x
  {
    a * b / (a + x)
  }

  /** The payout before fees. */
  function ActualResult(a: nat, b: nat, x: nat): nat
    requires 0 < a + x
  {
    SatSub(b, Kept(a, b, x))
  }

  /** The payout at the current price, as if the pool were infinitely deep. */
  function NaiveResult(a: nat, b: nat, x: nat): nat
    requires 0 < a
  {
    Min(x * b / a, U128_MAX)
  }

  /** A fee of `bps` basis points; the product must fit 128 bits. */
  function Fee(amount: nat, bps: nat): Result<nat, PoolError> {
    if amount * bps > U128_MAX then Err(Overflow) else Ok(amount * bps / BPS)
  }

  function CalcSwap(balances: Amounts, incoming: nat, totalFeeBps: nat, makerFeeBps: nat, inverse: bool,
                    expectedResult: Option<nat>, slippageTolerance: nat): Result<SwapResult, PoolError>
  {
    var a, b := balances.Side(inverse), balances.Side(!inverse);
    if a == 0 then Err(NoLiquidity) else
      var naive := NaiveResult(a, b, incoming);
      var expected := expectedResult.GetOr(naive);
      if Kept(a, b, incoming) > U128_MAX then Err(Overflow) else
        var actual := ActualResult(a, b, incoming);
        var ratio :- OrPanic(FixedPoint.FromRatio(actual, expected));
        if FixedPoint.AbsDiff(ratio, FixedPoint.ONE) > slippageTolerance then Err(SlippageTooHigh) else
          var makerFee :- Fee(actual, makerFeeBps);
          var totalFee :- Fee(actual, totalFeeBps);
          Ok(SwapResult(SatSub(actual, totalFee), SatSub(naive, actual), totalFee, makerFee))
  }

  datatype NaiveSwapResult = NaiveSwapResult(resultAmount: nat, totalFeeAmount: nat, makerFeeAmount: nat)

  function CalcNaiveSwap(balances: Amounts, incoming: nat, totalFeeBps: nat, makerFeeBps: nat, inverse: bool)
    : Result<NaiveSwapResult, PoolError>
  {
    var a, b := balances.Side(inverse), balances.Side(!inverse);
    if a == 0 then Err(NoLiquidity) else
      var naive := NaiveResult(a, b, incoming);
      var makerFee :- Fee(naive, makerFeeBps);
      var totalFee :- Fee(naive, totalFeeBps);
      Ok(NaiveSwapResult(SatSub(naive, totalFee), totalFee, makerFee))
  }
}
