/**
 One pool and its accounts as a state machine: what each message does, or the error it aborts with
 (contract.rs, workarounds.rs), and the two things that happen to a pool from outside.
 */
module PoolMachine {
  import opened Arith
  import opened Results
  import opened Bank
  import opened PoolCalc
  import opened Payments
  import FixedPoint

  datatype PoolConfig = PoolConfig(
    admin: Addr,
    feeReceiver: Addr,
    totalFeeBps: nat,
    makerFeeBps: nat,
    endorsed: bool
  )

  function EffectiveMakerBps(config: PoolConfig): nat {
    if config.feeReceiver == ZERO_ADDR then 0 else config.makerFeeBps
  }

  /** The contract's storage together with its bank balances and everyone's holdings of its LP denom. */
  datatype PoolState = PoolState(
    pair: PairId,
    lpDenom: Denom,
    balances: Amounts,
    supply: nat,
    config: PoolConfig,
    shares: Accounts
  )

  datatype Action =
    | Provide(sender: Addr, funds: seq<Coin>, tolerance: Option<nat>, receiver: Option<Addr>)
    | Withdraw(sender: Addr, funds: seq<Coin>, receiver: Option<Addr>)
    | WithdrawAndSplit(sender: Addr, funds: seq<Coin>, leftReceiver: Option<Addr>, rightReceiver: Option<Addr>)
    | Swap(sender: Addr, funds: seq<Coin>, expected: Option<nat>, tolerance: Option<nat>, receiver: Option<Addr>)
    | UpdateConfig(sender: Addr, funds: seq<Coin>, admin: Option<Addr>, feeReceiver: Option<Addr>,
                   totalFeeBps: Option<nat>, makerFeeBps: Option<nat>, endorsed: Option<bool>)
    // from outside the contract
    | Donate(amounts: Amounts)
    | BurnShares(holder: Addr, amount: nat)
    | SendShares(from: Addr, to: Addr, amount: nat)

  /** A coin the pool sends out. */
  datatype Payment = Payment(to: Addr, takeRight: bool, amount: nat)

  type Outcome = Result<(PoolState, seq<Payment>), PoolError>

  function FitsU128(a: Amounts): bool {
    a.left <= U128_MAX && a.right <= U128_MAX
  }

  function CheckedTolerance(tolerance: Option<nat>): Result<nat, PoolError> {
    var t := tolerance.GetOr(DEFAULT_SLIPPAGE);
    if t > MAX_ALLOWED_TOLERANCE then Err(ToleranceTooHigh) else Ok(t)
  }

  /** `instantiate`, into an account that may already hold coins. */
  function Instantiate(lpDenom: Denom, held: Amounts, funds: seq<Coin>, config: PoolConfig, receiver: Addr)
    : Result<PoolState, PoolError>
  {
    var coins :- TwoCoins(funds);
    var incoming := Amounts(coins.0.amount, coins.1.amount);
    if !FitsU128(held.Plus(incoming)) then Err(Overflow) else
      var mint :- CalcSharesToMint(0, Amounts(0, 0), incoming, FixedPoint.ONE / 100);
      Ok(PoolState(PairId(coins.0.denom, coins.1.denom), lpDenom, held.Plus(incoming), mint, config,
                   Credit(map[], receiver, mint)))
  }

  function ProvideStep(p: PoolState, sender: Addr, funds: seq<Coin>, tolerance: Option<nat>, receiver: Option<Addr>)
    : Outcome
  {
    var t :- CheckedTolerance(tolerance);
    var incoming :- MustPayPair(funds, p.pair);
    var balances := p.balances.Plus(incoming);
    if !FitsU128(balances) then Err(Overflow) else
      var mint :- CalcSharesToMint(p.supply, p.balances, incoming, t);
      if mint == 0 then Err(PayoutIsZero)
      else if p.supply + mint > U128_MAX then Err(Overflow)
      else Ok((p.(balances := balances, supply := p.supply + mint,
                  shares := Credit(p.shares, receiver.GetOr(sender), mint)), []))
  }

  /** What both withdrawals compute: the refund, and the pool without it. */
  function Redeem(p: PoolState, sender: Addr, funds: seq<Coin>): Result<(PoolState, Amounts), PoolError> {
    var amount :- MustPay(funds, p.lpDenom);
    if Balance(p.shares, sender) < amount then Err(InsufficientFunds) else
      var refund := BalancesIntoShareValue(amount, p.supply, p.balances);
      if refund.left == 0 || refund.right == 0 then Err(PayoutIsZero)
      else if p.supply < amount then Err(Overflow)
      else if p.balances.left < refund.left || p.balances.right < refund.right then Err(InsufficientFunds)
      else Ok((p.(balances := Amounts(p.balances.left - refund.left, p.balances.right - refund.right),
                  supply := p.supply - amount,
                  shares := Debit(p.shares, sender, amount)), refund))
  }

  function WithdrawStep(p: PoolState, sender: Addr, funds: seq<Coin>, leftReceiver: Addr, rightReceiver: Addr)
    : Outcome
  {
    var redeemed :- Redeem(p, sender, funds);
    Ok((redeemed.0, [Payment(leftReceiver, false, redeemed.1.left), Payment(rightReceiver, true, redeemed.1.right)]))
  }

  /** The swap calculation as `process_swap` calls it: an empty payout is an error. */
  function SwapQuote(config: PoolConfig, before: Amounts, payment: OneOfPair, expected: Option<nat>, t: nat)
    : Result<SwapResult, PoolError>
  {
    var result :- CalcSwap(before, payment.amount, config.totalFeeBps, EffectiveMakerBps(config), payment.inverse,
                           expected, t);
    if result.resultAmount == 0 then Err(PayoutIsZero) else Ok(result)
  }

  function AfterSwap(before: Amounts, payment: OneOfPair, output: nat): Amounts
    requires output <= before.Side(!payment.inverse)
  {
    if payment.inverse then Amounts(before.left - output, before.right + payment.amount)
    else Amounts(before.left + payment.amount, before.right - output)
  }

  function SwapPayments(config: PoolConfig, payment: OneOfPair, result: SwapResult, receiver: Addr): seq<Payment> {
    var payout := Payment(receiver, !payment.inverse, result.resultAmount);
    if result.makerFeeAmount == 0 then [payout]
    else [Payment(config.feeReceiver, !payment.inverse, result.makerFeeAmount), payout]
  }

  function OutputOf(r: SwapResult): nat {
    r.resultAmount + r.makerFeeAmount
  }

  /** A swap's payment and quote, once every check has passed and the payout is known to be there. */
  function PricedSwap(p: PoolState, funds: seq<Coin>, expected: Option<nat>, tolerance: Option<nat>)
    : (priced: Result<(OneOfPair, SwapResult), PoolError>)
    ensures priced.Ok? ==>
              var payment, output := priced.value.0, OutputOf(priced.value.1);
              output <= p.balances.Side(!payment.inverse) && FitsU128(AfterSwap(p.balances, payment, output))
  {
    var t :- CheckedTolerance(tolerance);
    var payment :- MustPayOneOfPair(funds, p.pair);
    var result :- SwapQuote(p.config, p.balances, payment, expected, t);
    if OutputOf(result) > p.balances.Side(!payment.inverse) then Err(InsufficientFunds)
    else if !FitsU128(AfterSwap(p.balances, payment, OutputOf(result))) then Err(Overflow)
    else Ok((payment, result))
  }

  function SwapStep(p: PoolState, sender: Addr, funds: seq<Coin>, expected: Option<nat>, tolerance: Option<nat>,
                    receiver: Option<Addr>): Outcome
  {
    var priced :- PricedSwap(p, funds, expected, tolerance);
    Ok((p.(balances := AfterSwap(p.balances, priced.0, OutputOf(priced.1))),
        SwapPayments(p.config, priced.0, priced.1, receiver.GetOr(sender))))
  }

  function UpdateConfigStep(p: PoolState, sender: Addr, funds: seq<Coin>, admin: Option<Addr>,
                            feeReceiver: Option<Addr>, totalFeeBps: Option<nat>, makerFeeBps: Option<nat>,
                            endorsed: Option<bool>): Outcome
  {
    if funds != [] then Err(NonPayable)
    else if p.config.admin != sender then Err(Unauthorized)
    else Ok((p.(config := PoolConfig(admin.GetOr(p.config.admin), feeReceiver.GetOr(p.config.feeReceiver),
                                     totalFeeBps.GetOr(p.config.totalFeeBps),
                                     makerFeeBps.GetOr(p.config.makerFeeBps),
                                     endorsed.GetOr(p.config.endorsed))), []))
  }

  function Step(p: PoolState, act: Action): Outcome {
    match act
    case Provide(sender, funds, tolerance, receiver) => ProvideStep(p, sender, funds, tolerance, receiver)
    case Withdraw(sender, funds, receiver) =>
      WithdrawStep(p, sender, funds, receiver.GetOr(sender), receiver.GetOr(sender))
    case WithdrawAndSplit(sender, funds, leftReceiver, rightReceiver) =>
      WithdrawStep(p, sender, funds, leftReceiver.GetOr(sender), rightReceiver.GetOr(sender))
    case Swap(sender, funds, expected, tolerance, receiver) =>
      SwapStep(p, sender, funds, expected, tolerance, receiver)
    case UpdateConfig(sender, funds, admin, feeReceiver, totalFeeBps, makerFeeBps, endorsed) =>
      UpdateConfigStep(p, sender, funds, admin, feeReceiver, totalFeeBps, makerFeeBps, endorsed)
    case Donate(amounts) =>
      if FitsU128(p.balances.Plus(amounts)) then Ok((p.(balances := p.balances.Plus(amounts)), [])) else Err(Overflow)
    case BurnShares(holder, amount) =>
      if Balance(p.shares, holder) < amount then Err(InsufficientFunds)
      else Ok((p.(shares := Debit(p.shares, holder, amount)), []))
    case SendShares(from, to, amount) =>
      if Balance(p.shares, from) < amount then Err(InsufficientFunds)
      else Ok((p.(shares := Transfer(p.shares, from, to, amount)), []))
  }

  /** The state after a message: an aborted one leaves no trace. */
  function After(p: PoolState, act: Action): PoolState {
    match Step(p, act)
    case Ok(result) => result.0
    case Err(_) => p
  }

  function Run(p: PoolState, acts: seq<Action>): PoolState
    decreases |acts|
  {
    if acts == [] then p else Run(After(p, acts[0]), acts[1..])
  }

  // ---- Queries ----

  datatype DepositQuote = DepositQuote(shareAmount: nat, shareValue: Amounts)

  /** `SimulateProvideLiquidity`; panics where a sum does not fit. */
  function SimulateProvide(p: PoolState, leftOffer: Coin, rightOffer: Coin): Result<DepositQuote, PoolError> {
    if leftOffer.denom != p.pair.left || rightOffer.denom != p.pair.right then Err(QueryDenomMismatch) else
      var offer := Amounts(leftOffer.amount, rightOffer.amount);
      var minted :- CalcSharesToMint(p.supply, p.balances, offer, FixedPoint.ONE);
      if p.supply + minted > U128_MAX || !FitsU128(p.balances.Plus(offer)) then Err(Panic)
      else Ok(DepositQuote(minted, BalancesIntoShareValue(minted, p.supply + minted, p.balances.Plus(offer))))
  }

  /** `SimulateSwap`: no expectation, no tolerance, and the configured maker fee even when it is disabled. */
  function SimulateSwap(p: PoolState, offer: Coin): Result<SwapResult, PoolError> {
    if !p.pair.Contains(offer.denom) then Err(ExtraDenom)
    else CalcSwap(p.balances, offer.amount, p.config.totalFeeBps, p.config.makerFeeBps, offer.denom == p.pair.right,
                  None, U128_MAX)
  }
}
