/** The pool contract itself: stored fields overwritten message by message, each method tied to the machine's step. */
module PoolPairContract {
  import opened Arith
  import opened Results
  import opened Bank
  import opened PoolCalc
  import opened Payments
  import opened PoolMachine
  import VolumeSpec
  import VolumeCounter
  import FixedPoint

  type Response = Result<seq<Payment>, PoolError>

  /** The message did what the machine's step says: the same payments and state, or the same error and no change. */
  ghost predicate Does(r: Response, before: PoolState, after: PoolState, step: Outcome) {
    match step
    case Ok(out) => r == Ok(out.1) && after == out.0
    case Err(e) => r == Err(e) && after == before
  }

  class PoolPair {
    const pair: PairId
    const lpDenom: Denom
    var config: PoolConfig
    /** The tracked LP supply; burns outside the contract do not reach it. */
    var supply: nat
    /** The contract's bank account. */
    var balances: Amounts
    /** The bank's record of who holds the LP denom. */
    var shares: Accounts
    const volumes: VolumeCounter.VolumeStatisticsCounter

    ghost predicate Valid()
      reads this
    {
      FitsU128(balances)
    }

    ghost function State(): PoolState
      reads this
    {
      PoolState(pair, lpDenom, balances, supply, config, shares)
    }

    /** What `instantiate` stores once its checks have passed, for an account that may already hold coins. */
    constructor (lpDenom: Denom, held: Amounts, funds: seq<Coin>, config: PoolConfig, receiver: Addr)
      requires Instantiate(lpDenom, held, funds, config, receiver).Ok?
      ensures Valid() && fresh(volumes) && volumes.Valid() && volumes.log == []
      ensures State() == Instantiate(lpDenom, held, funds, config, receiver).value
    {
      var incoming := Amounts(funds[0].amount, funds[1].amount);
      var mintAmount := CalcSharesToMint(0, Amounts(0, 0), incoming, FixedPoint.ONE / 100).value;
      this.pair := PairId(funds[0].denom, funds[1].denom);
      this.lpDenom := lpDenom;
      this.config := config;
      this.supply := mintAmount;
      this.balances := held.Plus(incoming);
      this.shares := Credit(map[], receiver, mintAmount);
      this.volumes := new VolumeCounter.VolumeStatisticsCounter();
    }

    /** `instantiate`: a contract in the state the machine gives, or the machine's error and no contract. */
    static method Deploy(lpDenom: Denom, held: Amounts, funds: seq<Coin>, config: PoolConfig, receiver: Addr)
      returns (r: Result<PoolPair, PoolError>)
      ensures match Instantiate(lpDenom, held, funds, config, receiver)
              case Ok(state) => r.Ok? && fresh(r.value) && r.value.Valid() && r.value.State() == state
                                && r.value.volumes.log == []
              case Err(e) => r == Err(e)
    {
      if |funds| != 2 {
        return Err(NeedsTwoCoins);
      }
      if funds[0].amount == 0 || funds[1].amount == 0 {
        return Err(PaymentIsZero);
      }
      var incoming := Amounts(funds[0].amount, funds[1].amount);
      if !FitsU128(held.Plus(incoming)) {
        return Err(Overflow);
      }
      var mint := CalcSharesToMint(0, Amounts(0, 0), incoming, FixedPoint.ONE / 100);
      if mint.Err? {
        return Err(mint.error);
      }
      var contract := new PoolPair(lpDenom, held, funds, config, receiver);
      r := Ok(contract);
    }

    // ---- Tracked supply ----

    function TotalSupplyWorkaround(): nat
      reads this
    {
      supply
    }

    /** Adds to the tracked supply, then mints into the receiver's account. */
    method MintWorkaround(receiver: Addr, amount: nat) returns (r: Result<(), PoolError>)
      modifies this`supply, this`shares
      ensures r.Ok? <==> old(supply) + amount <= U128_MAX
      ensures r.Ok? ==> supply == old(supply) + amount && shares == Credit(old(shares), receiver, amount)
      ensures r.Err? ==> r.error == Overflow && supply == old(supply) && shares == old(shares)
    {
      var curSupply := TotalSupplyWorkaround();
      if curSupply + amount > U128_MAX {
        return Err(Overflow);
      }
      supply := curSupply + amount;
      shares := Credit(shares, receiver, amount);
      r := Ok(());
    }

    /** Takes the paid-in shares off the tracked supply and burns them. */
    method BurnTokenWorkaround(sender: Addr, amount: nat) returns (r: Result<(), PoolError>)
      requires amount <= Balance(shares, sender)
      modifies this`supply, this`shares
      ensures r.Ok? <==> amount <= old(supply)
      ensures r.Ok? ==> supply == old(supply) - amount && shares == Debit(old(shares), sender, amount)
      ensures r.Err? ==> r.error == Overflow && supply == old(supply) && shares == old(shares)
    {
      var curSupply := TotalSupplyWorkaround();
      if curSupply < amount {
        return Err(Overflow);
      }
      supply := curSupply - amount;
      shares := Debit(shares, sender, amount);
      r := Ok(());
    }

    // ---- Messages ----

    method ProcessUpdateConfig(sender: Addr, funds: seq<Coin>, admin: Option<Addr>, feeReceiver: Option<Addr>,
                               totalFeeBps: Option<nat>, makerFeeBps: Option<nat>, endorsed: Option<bool>)
      returns (r: Response)
      requires Valid()
      modifies this`config
      ensures Valid()
      ensures Does(r, old(State()), State(),
                   Step(old(State()), Action.UpdateConfig(sender, funds, admin, feeReceiver, totalFeeBps, makerFeeBps,
                                                          endorsed)))
    {
      if funds != [] {
        return Err(NonPayable);
      }
      if config.admin != sender {
        return Err(Unauthorized);
      }
      var updated := config;
      if admin.Some? {
        updated := updated.(admin := admin.value);
      }
      if feeReceiver.Some? {
        updated := updated.(feeReceiver := feeReceiver.value);
      }
      if totalFeeBps.Some? {
        updated := updated.(totalFeeBps := totalFeeBps.value);
      }
      if makerFeeBps.Some? {
        updated := updated.(makerFeeBps := makerFeeBps.value);
      }
      if endorsed.Some? {
        updated := updated.(endorsed := endorsed.value);
      }
      config := updated;
      r := Ok([]);
    }

    method ProcessProvideLiquidity(sender: Addr, funds: seq<Coin>, slippageTolerance: Option<nat>,
                                   receiver: Option<Addr>) returns (r: Response)
      requires Valid()
      modifies this`balances, this`supply, this`shares
      ensures Valid()
      ensures Does(r, old(State()), State(),
                   Step(old(State()), Provide(sender, funds, slippageTolerance, receiver)))
    {
      var tolerance :- CheckedTolerance(slippageTolerance);
      var incoming :- MustPayPair(funds, pair);
      var currentBalances := balances.Plus(incoming);
      if !FitsU128(currentBalances) {
        return Err(Overflow);
      }
      var before := Amounts(currentBalances.left - incoming.left, currentBalances.right - incoming.right);
      var mintAmount :- CalcSharesToMint(TotalSupplyWorkaround(), before, incoming, tolerance);
      if mintAmount == 0 {
        return Err(PayoutIsZero);
      }
      var to := if receiver.Some? then receiver.value else sender;
      var minted := MintWorkaround(to, mintAmount);
      if minted.Err? {
        return Err(minted.error);
      }
      balances := currentBalances;
      r := Ok([]);
    }

    /** The part the two withdrawals share: price the paid-in shares, burn them and take the refund out. */
    method TakeRefund(sender: Addr, funds: seq<Coin>) returns (r: Result<Amounts, PoolError>)
      requires Valid()
      modifies this`balances, this`supply, this`shares
      ensures Valid()
      ensures match Redeem(old(State()), sender, funds)
              case Ok(out) => r == Ok(out.1) && State() == out.0
              case Err(e) => r == Err(e) && State() == old(State())
    {
      var withdrawn :- MustPay(funds, lpDenom);
      if Balance(shares, sender) < withdrawn {
        return Err(InsufficientFunds);
      }
      var refund := BalancesIntoShareValue(withdrawn, TotalSupplyWorkaround(), balances);
      if refund.left == 0 || refund.right == 0 {
        return Err(PayoutIsZero);
      }
      if supply >= withdrawn && (balances.left < refund.left || balances.right < refund.right) {
        return Err(InsufficientFunds);
      }
      var burned := BurnTokenWorkaround(sender, withdrawn);
      if burned.Err? {
        return Err(burned.error);
      }
      balances := Amounts(balances.left - refund.left, balances.right - refund.right);
      r := Ok(refund);
    }

    method ProcessWithdrawLiquidity(sender: Addr, funds: seq<Coin>, receiver: Option<Addr>) returns (r: Response)
      requires Valid()
      modifies this`balances, this`supply, this`shares
      ensures Valid()
      ensures Does(r, old(State()), State(),
                   Step(old(State()), Withdraw(sender, funds, receiver)))
    {
      var to := if receiver.Some? then receiver.value else sender;
      var refund := TakeRefund(sender, funds);
      if refund.Err? {
        return Err(refund.error);
      }
      r := Ok([Payment(to, false, refund.value.left), Payment(to, true, refund.value.right)]);
    }

    method ProcessWithdrawAndSplitLiquidity(sender: Addr, funds: seq<Coin>, leftReceiver: Option<Addr>,
                                            rightReceiver: Option<Addr>) returns (r: Response)
      requires Valid()
      modifies this`balances, this`supply, this`shares
      ensures Valid()
      ensures Does(r, old(State()), State(),
                   Step(old(State()), WithdrawAndSplit(sender, funds, leftReceiver, rightReceiver)))
    {
      var leftTo := if leftReceiver.Some? then leftReceiver.value else sender;
      var rightTo := if rightReceiver.Some? then rightReceiver.value else sender;
      var refund := TakeRefund(sender, funds);
      if refund.Err? {
        return Err(refund.error);
      }
      r := Ok([Payment(leftTo, false, refund.value.left), Payment(rightTo, true, refund.value.right)]);
    }

    /** Prices a swap against the balances before the payment came in, and checks that it can be paid out. */
    method PriceSwap(funds: seq<Coin>, expectedResult: Option<nat>, slippageTolerance: Option<nat>)
      returns (r: Result<(OneOfPair, SwapResult), PoolError>)
      requires Valid()
      ensures r == PricedSwap(State(), funds, expectedResult, slippageTolerance)
    {
      var tolerance :- CheckedTolerance(slippageTolerance);
      var payment :- MustPayOneOfPair(funds, pair);
      var makerFeeBps := if config.feeReceiver == ZERO_ADDR then 0 else config.makerFeeBps;
      var result :- CalcSwap(balances, payment.amount, config.totalFeeBps, makerFeeBps, payment.inverse,
                             expectedResult, tolerance);
      if result.resultAmount == 0 {
        return Err(PayoutIsZero);
      }
      var totalOutput := result.resultAmount + result.makerFeeAmount;
      if totalOutput > balances.Side(!payment.inverse) {
        return Err(InsufficientFunds);
      }
      if !FitsU128(AfterSwap(balances, payment, totalOutput)) {
        return Err(Overflow);
      }
      r := Ok((payment, result));
    }

    /** Takes the payment in and sends the maker's fee and the payout out. */
    method Exchange(sender: Addr, payment: OneOfPair, result: SwapResult, receiver: Option<Addr>)
      returns (messages: seq<Payment>)
      requires OutputOf(result) <= balances.Side(!payment.inverse)
      requires FitsU128(AfterSwap(balances, payment, OutputOf(result)))
      modifies this`balances
      ensures Valid() && balances == old(AfterSwap(balances, payment, OutputOf(result)))
      ensures messages == SwapPayments(config, payment, result, receiver.GetOr(sender))
    {
      balances := AfterSwap(balances, payment, result.resultAmount + result.makerFeeAmount);
      var to := if receiver.Some? then receiver.value else sender;
      messages := [];
      if result.makerFeeAmount != 0 {
        messages := [Payment(config.feeReceiver, !payment.inverse, result.makerFeeAmount)];
      }
      messages := messages + [Payment(to, !payment.inverse, result.resultAmount)];
    }

    /** The money side of a swap; the trade to be logged is what moved on each side. */
    method SwapMoney(sender: Addr, funds: seq<Coin>, expectedResult: Option<nat>, slippageTolerance: Option<nat>,
                     receiver: Option<Addr>)
      returns (r: Response, amountLeft: U128, amountRight: U128, inverse: bool)
      requires Valid()
      modifies this`balances
      ensures Valid()
      ensures Does(r, old(State()), State(),
                   SwapStep(old(State()), sender, funds, expectedResult, slippageTolerance, receiver))
      ensures r.Ok? ==> && amountLeft == FixedPoint.AbsDiff(balances.left, old(balances.left))
                        && amountRight == FixedPoint.AbsDiff(balances.right, old(balances.right))
                        && inverse == (balances.left < old(balances.left))
    {
      amountLeft, amountRight, inverse := 0, 0, false;
      var priced := PriceSwap(funds, expectedResult, slippageTolerance);
      if priced.Err? {
        return Err(priced.error), amountLeft, amountRight, inverse;
      }
      var payment, result := priced.value.0, priced.value.1;
      inverse := payment.inverse;
      if inverse {
        amountLeft, amountRight := OutputOf(result), payment.amount;
      } else {
        amountLeft, amountRight := payment.amount, OutputOf(result);
      }
      var messages := Exchange(sender, payment, result, receiver);
      r := Ok(messages);
    }

    /** An executed swap is logged once, with what each balance moved by, an aborted one not at all. */
    method ProcessSwap(blockTimeMs: nat, sender: Addr, funds: seq<Coin>, expectedResult: Option<nat>,
                       slippageTolerance: Option<nat>, receiver: Option<Addr>) returns (r: Response)
      requires Valid() && volumes.Valid() && volumes.NotBeforeLastTrade(blockTimeMs)
      modifies this`balances, volumes
      ensures Valid() && volumes.Valid()
      ensures Does(r, old(State()), State(),
                   Step(old(State()), Swap(sender, funds, expectedResult, slippageTolerance, receiver)))
      ensures r.Err? ==> volumes.log == old(volumes.log)
      ensures r.Ok? ==>
                volumes.log == old(volumes.log)
                  + [VolumeSpec.TradeOf(blockTimeMs, FixedPoint.AbsDiff(balances.left, old(balances.left)),
                                        FixedPoint.AbsDiff(balances.right, old(balances.right)),
                                        balances.left < old(balances.left))]
    {
      var amountLeft, amountRight, inverse;
      r, amountLeft, amountRight, inverse := SwapMoney(sender, funds, expectedResult, slippageTolerance, receiver);
      if r.Ok? {
        volumes.UpdateVolumes(blockTimeMs, amountLeft, amountRight, inverse);
      }
    }
  }
}
