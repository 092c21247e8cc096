/**
 Hops and routes on the ledger against the pool contracts themselves: every pool along a route does what its
 own machine does with the coin it is sent, and the ledger shows exactly that.
 */
module RouteHops {
  import opened Results
  import opened Bank
  import opened PoolCalc
  import opened Payments
  import opened PoolMachine
  import opened PoolFlows
  import opened Chain
  import opened RoutedSwap

  // ---- Single hops ----

  /** A pool was called that does not exist or does not trade what it was sent. */
  predicate Mismatch(e: TxError) {
    e == NoSuchPool || e == PoolFailed(ExtraDenom) || e == PoolFailed(MultipleDenoms)
  }

  predicate Trades(pools: Pools, pool: Addr, from: Denom, to: Denom) {
    && pool in pools && from != to
    && (pools[pool].pair == PairId(from, to) || pools[pool].pair == PairId(to, from))
  }

  /** The coin of the denom in a one-coin payment. */
  function Part(coin: Coin, d: Denom): nat {
    if coin.denom == d then coin.amount else 0
  }

  lemma SendMoves(l: Ledger, from: Addr, to: Addr, coin: Coin, a: Addr, d: Denom)
    requires Send(l, from, to, coin).Some?
    ensures var s := Send(l, from, to, coin).value;
            Holding(s, a, d) + (if a == from then Part(coin, d) else 0)
              == Holding(l, a, d) + (if a == to then Part(coin, d) else 0)
  {
  }

  /** What a pool answers to a coin of its own: a payout in its other denom, or an error that is no mismatch. */
  lemma PricedDenoms(l: Ledger, pools: Pools, pool: Addr, tolerance: Option<nat>, coin: Coin, to: Denom)
    requires Trades(pools, pool, coin.denom, to)
    ensures var priced := PricedSwap(PoolView(l, pools[pool], pool), [coin], None, tolerance);
            && (priced.Err? ==> !Mismatch(PoolFailed(priced.error)))
            && (priced.Ok? ==>
                  && OutputCoin(pools[pool], priced.value.0, priced.value.1).denom == to
                  && 0 < priced.value.1.resultAmount
                  && OutputOf(priced.value.1) <= Holding(l, pool, to))
  {
  }

  /** A hop whose coin the router holds goes through exactly when the pool's pricing does. */
  lemma HopOutcome(l: Ledger, pools: Pools, me: Addr, pool: Addr, tolerance: Option<nat>, coin: Coin, to: Denom)
    requires Trades(pools, pool, coin.denom, to) && pool != me
    requires coin.amount <= Holding(l, me, coin.denom)
    ensures var hop := HopThrough(l, pools, me, pool, tolerance, coin);
            var priced := PricedSwap(PoolView(l, pools[pool], pool), [coin], None, tolerance);
            && (hop.Ok? <==> priced.Ok?)
            && (hop.Err? ==> hop.error == PoolFailed(priced.error))
            && (hop.Ok? ==> hop.value.1 == OutputCoin(pools[pool], priced.value.0, priced.value.1)
                            && hop.value.1.denom == to)
  {
    PricedDenoms(l, pools, pool, tolerance, coin, to);
    var paid := Send(l, me, pool, coin).value;
    var priced := PricedSwap(PoolView(l, pools[pool], pool), [coin], None, tolerance);
    if priced.Ok? {
      SendMoves(l, me, pool, coin, pool, to);
      PayoutsCovered(paid, me, pools[pool], pool, priced.value.0, priced.value.1);
    }
  }

  /** A pool that holds the whole output can make both payments. */
  lemma PayoutsCovered(l: Ledger, me: Addr, info: PoolInfo, pool: Addr, payment: OneOfPair, r: SwapResult)
    requires OutputOf(r) <= Holding(l, pool, OutputCoin(info, payment, r).denom)
    ensures PaidOut(l, me, info, pool, payment, r).Ok?
    ensures PaidOut(l, me, info, pool, payment, r).value.1 == OutputCoin(info, payment, r)
  {
    var out := OutputCoin(info, payment, r);
    if r.makerFeeAmount != 0 {
      SendMoves(l, pool, info.config.feeReceiver, Coin(out.denom, r.makerFeeAmount), pool, out.denom);
    }
  }

  lemma PayoutMoves(l: Ledger, me: Addr, info: PoolInfo, pool: Addr, payment: OneOfPair, r: SwapResult, a: Addr,
                    d: Denom)
    requires PaidOut(l, me, info, pool, payment, r).Ok?
    ensures var after, out := PaidOut(l, me, info, pool, payment, r).value.0, OutputCoin(info, payment, r);
            Holding(after, a, d) + (if a == pool && d == out.denom then OutputOf(r) else 0)
            == Holding(l, a, d) + (if a == me then Part(out, d) else 0)
               + (if a == info.config.feeReceiver && d == out.denom then r.makerFeeAmount else 0)
  {
    var out := OutputCoin(info, payment, r);
    if r.makerFeeAmount == 0 {
      SendMoves(l, pool, me, out, a, d);
    } else {
      var fee := Coin(out.denom, r.makerFeeAmount);
      SendMoves(l, pool, info.config.feeReceiver, fee, a, d);
      SendMoves(Send(l, pool, info.config.feeReceiver, fee).value, pool, me, out, a, d);
    }
  }

  /** Everything a hop moves: the coin in, the payout and the fee out. */
  lemma HopMovesAll(l: Ledger, pools: Pools, me: Addr, pool: Addr, tolerance: Option<nat>, coin: Coin, a: Addr, d: Denom)
    requires HopThrough(l, pools, me, pool, tolerance, coin).Ok?
    ensures var info := pools[pool];
            var hop, priced := HopThrough(l, pools, me, pool, tolerance, coin).value,
                               PricedSwap(PoolView(l, info, pool), [coin], None, tolerance);
            && priced.Ok? && hop.1 == OutputCoin(info, priced.value.0, priced.value.1)
            && Holding(hop.0, a, d) + (if a == me then Part(coin, d) else 0)
                                    + (if a == pool && d == hop.1.denom then OutputOf(priced.value.1) else 0)
               == Holding(l, a, d) + (if a == pool then Part(coin, d) else 0)
                                   + (if a == me then Part(hop.1, d) else 0)
                                   + (if a == info.config.feeReceiver && d == hop.1.denom
                                      then priced.value.1.makerFeeAmount else 0)
  {
    var priced := PricedSwap(PoolView(l, pools[pool], pool), [coin], None, tolerance).value;
    SendMoves(l, me, pool, coin, a, d);
    PayoutMoves(Send(l, me, pool, coin).value, me, pools[pool], pool, priced.0, priced.1, a, d);
  }

  // ---- A hop is the pool's own swap ----

  /** The contract in state `p` is the one deployed at `pool`, holding what the ledger says. */
  ghost predicate IsPoolAt(p: PoolState, l: Ledger, pools: Pools, pool: Addr) {
    && pool in pools && p.pair == pools[pool].pair && p.config == pools[pool].config
    && p.balances == Amounts(Holding(l, pool, p.pair.left), Holding(l, pool, p.pair.right))
  }

  /** Pricing looks at nothing but the pair, the configuration and the balances. */
  lemma SamePricing(p: PoolState, l: Ledger, pools: Pools, pool: Addr, funds: seq<Coin>, tolerance: Option<nat>)
    requires IsPoolAt(p, l, pools, pool)
    ensures PricedSwap(p, funds, None, tolerance) == PricedSwap(PoolView(l, pools[pool], pool), funds, None, tolerance)
  {
  }

  /** The coin an executed swap of `coin` pays the caller, and the fee it pays besides. */
  function PaidCoin(p: PoolState, sent: seq<Payment>, coin: Coin, to: Addr): Coin {
    var takeRight := coin.denom == p.pair.left;
    Coin(p.pair.Side(takeRight), SentTo(sent, to, takeRight))
  }

  lemma PricedPayment(p: PoolState, tolerance: Option<nat>, coin: Coin, to: Denom)
    requires coin.denom != to && (p.pair == PairId(coin.denom, to) || p.pair == PairId(to, coin.denom))
    requires PricedSwap(p, [coin], None, tolerance).Ok?
    ensures PricedSwap(p, [coin], None, tolerance).value.0 == OneOfPair(coin.amount, coin.denom == p.pair.right)
  {
  }

  lemma SwapStepOf(p: PoolState, me: Addr, funds: seq<Coin>, tolerance: Option<nat>)
    ensures var priced, step := PricedSwap(p, funds, None, tolerance), SwapStep(p, me, funds, None, tolerance, None);
            && (step.Ok? <==> priced.Ok?)
            && (step.Err? ==> step.error == priced.error)
            && (step.Ok? ==>
                  step.value.0 == p.(balances := AfterSwap(p.balances, priced.value.0, OutputOf(priced.value.1))))
  {
  }

  /** What the swap pays the router and the fee receiver, from its quote. */
  lemma SwapStepPays(p: PoolState, me: Addr, tolerance: Option<nat>, coin: Coin, to: Denom, a: Addr)
    requires coin.denom != to && (p.pair == PairId(coin.denom, to) || p.pair == PairId(to, coin.denom))
    requires SwapStep(p, me, [coin], None, tolerance, None).Ok?
    ensures PricedSwap(p, [coin], None, tolerance).Ok?
    ensures var r := PricedSwap(p, [coin], None, tolerance).value.1;
            PaidCoin(p, SwapStep(p, me, [coin], None, tolerance, None).value.1, coin, a)
            == Coin(to, (if a == me then r.resultAmount else 0)
                        + (if a == p.config.feeReceiver then r.makerFeeAmount else 0))
  {
    SwapStepOf(p, me, [coin], tolerance);
    PricedPayment(p, tolerance, coin, to);
    var payment, r := SwapPays(p, me, [coin], None, tolerance, None, a);
  }

  lemma ViewAfter(p: PoolState, after: Ledger, pools: Pools, pool: Addr, coin: Coin, to: Denom, payment: OneOfPair,
                  output: nat)
    requires coin.denom != to && (p.pair == PairId(coin.denom, to) || p.pair == PairId(to, coin.denom))
    requires pool in pools && p.pair == pools[pool].pair && p.config == pools[pool].config
    requires payment == OneOfPair(coin.amount, coin.denom == p.pair.right) && output <= p.balances.Side(!payment.inverse)
    requires Holding(after, pool, coin.denom) == p.balances.Side(payment.inverse) + coin.amount
    requires Holding(after, pool, to) == p.balances.Side(!payment.inverse) - output
    ensures IsPoolAt(p.(balances := AfterSwap(p.balances, payment, output)), after, pools, pool)
  {
  }

  /**
   A hop whose coin the router holds goes through exactly when the pool's own swap of that coin does, or fails
   with its error; the router gets what the swap pays it, and the pool is left in the swap's state.
   */
  lemma HopIsSwapStep(l: Ledger, pools: Pools, me: Addr, pool: Addr, tolerance: Option<nat>, coin: Coin, to: Denom,
                      p: PoolState)
    requires Trades(pools, pool, coin.denom, to) && pool != me && IsPoolAt(p, l, pools, pool)
    requires pools[pool].config.feeReceiver != pool && pools[pool].config.feeReceiver != me
    requires coin.amount <= Holding(l, me, coin.denom)
    ensures var hop := HopThrough(l, pools, me, pool, tolerance, coin);
            var step := SwapStep(p, me, [coin], None, tolerance, None);
            && (hop.Ok? <==> step.Ok?)
            && (hop.Err? ==> hop.error == PoolFailed(step.error) && !Mismatch(hop.error))
            && (hop.Ok? ==>
                  && hop.value.1 == PaidCoin(p, step.value.1, coin, me)
                  && hop.value.1.denom == to && 0 < hop.value.1.amount
                  && IsPoolAt(step.value.0, hop.value.0, pools, pool))
  {
    SamePricing(p, l, pools, pool, [coin], tolerance);
    SwapStepOf(p, me, [coin], tolerance);
    HopOutcome(l, pools, me, pool, tolerance, coin, to);
    PricedDenoms(l, pools, pool, tolerance, coin, to);
    if HopThrough(l, pools, me, pool, tolerance, coin).Ok? {
      var hop := HopThrough(l, pools, me, pool, tolerance, coin).value;
      var priced := PricedSwap(p, [coin], None, tolerance).value;
      PricedPayment(p, tolerance, coin, to);
      SwapStepPays(p, me, tolerance, coin, to, me);
      HopMovesAll(l, pools, me, pool, tolerance, coin, pool, coin.denom);
      HopMovesAll(l, pools, me, pool, tolerance, coin, pool, to);
      ViewAfter(p, hop.0, pools, pool, coin, to, priced.0, OutputOf(priced.1));
    }
  }

  /** And every account but the pool gets what the swap pays it: the fee receiver its fee, the router its payout. */
  lemma HopPaysAsSwapStep(l: Ledger, pools: Pools, me: Addr, pool: Addr, tolerance: Option<nat>, coin: Coin, to: Denom,
                          p: PoolState, a: Addr, d: Denom)
    requires Trades(pools, pool, coin.denom, to) && pool != me && a != pool && IsPoolAt(p, l, pools, pool)
    requires HopThrough(l, pools, me, pool, tolerance, coin).Ok?
    ensures var step := SwapStep(p, me, [coin], None, tolerance, None);
            && step.Ok?
            && Holding(HopThrough(l, pools, me, pool, tolerance, coin).value.0, a, d)
               + (if a == me then Part(coin, d) else 0)
               == Holding(l, a, d) + Part(PaidCoin(p, step.value.1, coin, a), d)
  {
    SamePricing(p, l, pools, pool, [coin], tolerance);
    HopMovesAll(l, pools, me, pool, tolerance, coin, a, d);
    SwapStepOf(p, me, [coin], tolerance);
    PricedDenoms(l, pools, pool, tolerance, coin, to);
    SwapStepPays(p, me, tolerance, coin, to, a);
  }

  // ---- Whole routes ----

  type States = map<Addr, PoolState>

  /** Each pool's contract is in its state of `states`. */
  ghost predicate AtPools(states: States, l: Ledger, pools: Pools) {
    states.Keys == pools.Keys && forall pool :: pool in pools ==> IsPoolAt(states[pool], l, pools, pool)
  }

  /** The router is no pool, and no fee goes to a pool or to the router. */
  ghost predicate FeesOutside(pools: Pools, me: Addr) {
    me !in pools && forall p :: p in pools ==> pools[p].config.feeReceiver !in pools && pools[p].config.feeReceiver != me
  }

  datatype Fee = Fee(to: Addr, coin: Coin)

  /** What an account gets in fees of one denom. */
  function FeesTo(fees: seq<Fee>, a: Addr, d: Denom): nat {
    if fees == [] then 0 else (if fees[0].to == a then Part(fees[0].coin, d) else 0) + FeesTo(fees[1..], a, d)
  }

  /** What a route leaves behind: the pools' states, the coin it ends with, and the fees paid on the way. */
  datatype Outcomes = Outcomes(states: States, coin: Coin, fees: seq<Fee>)

  /** One pool's own swap. */
  function MachineHop(states: States, me: Addr, pool: Addr, tolerance: Option<nat>, coin: Coin)
    : Result<Outcomes, TxError>
  {
    if pool !in states then Err(NoSuchPool) else
      var p := states[pool];
      var step := SwapStep(p, me, [coin], None, tolerance, None);
      if step.Err? then Err(PoolFailed(step.error)) else
        Ok(Outcomes(states[pool := step.value.0], PaidCoin(p, step.value.1, coin, me),
                    [Fee(p.config.feeReceiver, PaidCoin(p, step.value.1, coin, p.config.feeReceiver))]))
  }

  /** The pools' own swaps in order, each of the coin the one before paid. */
  function MachineRun(states: States, me: Addr, pool: Addr, tolerance: Option<nat>, rest: seq<Addr>,
                      inner: Option<nat>, coin: Coin): Result<Outcomes, TxError>
    decreases |rest|
  {
    var hop :- MachineHop(states, me, pool, tolerance, coin);
    if rest == [] then Ok(hop) else
      var tail :- MachineRun(hop.states, me, rest[0], inner, rest[1..], inner, hop.coin);
      Ok(Outcomes(tail.states, tail.coin, hop.fees + tail.fees))
  }

  /** The pools trade along the denoms: the i-th takes the i-th denom and gives the next. */
  ghost predicate TradeAlong(pools: Pools, path: seq<Addr>, denoms: seq<Denom>) {
    && path != [] && |denoms| == |path| + 1
    && forall i :: 0 <= i < |path| ==> Trades(pools, path[i], denoms[i], denoms[i + 1])
  }

  lemma TradeOn(pools: Pools, path: seq<Addr>, denoms: seq<Denom>)
    requires TradeAlong(pools, path, denoms) && |path| > 1
    ensures TradeAlong(pools, path[1..], denoms[1..]) && denoms[1..][|path[1..]|] == denoms[|path|]
  {
  }

  /** A hop leaves the other pools' contracts as they are. */
  lemma HopKeepsPools(l: Ledger, pools: Pools, me: Addr, pool: Addr, tolerance: Option<nat>, coin: Coin, to: Denom,
                      states: States)
    requires AtPools(states, l, pools) && FeesOutside(pools, me) && Trades(pools, pool, coin.denom, to)
    requires coin.amount <= Holding(l, me, coin.denom)
    requires HopThrough(l, pools, me, pool, tolerance, coin).Ok?
    ensures var step := SwapStep(states[pool], me, [coin], None, tolerance, None);
            && step.Ok?
            && AtPools(states[pool := step.value.0], HopThrough(l, pools, me, pool, tolerance, coin).value.0, pools)
  {
    HopIsSwapStep(l, pools, me, pool, tolerance, coin, to, states[pool]);
    var after := HopThrough(l, pools, me, pool, tolerance, coin).value.0;
    var q := SwapStep(states[pool], me, [coin], None, tolerance, None).value.0;
    forall a | a in pools && a != pool
      ensures IsPoolAt(states[a], after, pools, a)
    {
      HopKeepsPool(l, pools, me, pool, tolerance, coin, a, states[a]);
    }
    OnePoolMoves(states, after, pools, pool, q);
  }

  lemma OnePoolMoves(states: States, after: Ledger, pools: Pools, pool: Addr, q: PoolState)
    requires states.Keys == pools.Keys && pool in pools && IsPoolAt(q, after, pools, pool)
    requires forall a :: a in pools && a != pool ==> IsPoolAt(states[a], after, pools, a)
    ensures AtPools(states[pool := q], after, pools)
  {
  }

  lemma HopKeepsPool(l: Ledger, pools: Pools, me: Addr, pool: Addr, tolerance: Option<nat>, coin: Coin, a: Addr,
                     p: PoolState)
    requires HopThrough(l, pools, me, pool, tolerance, coin).Ok? && IsPoolAt(p, l, pools, a)
    requires a != pool && a != me && a != pools[pool].config.feeReceiver
    ensures IsPoolAt(p, HopThrough(l, pools, me, pool, tolerance, coin).value.0, pools, a)
  {
    HopMoves(l, pools, me, pool, tolerance, coin, a, p.pair.left);
    HopMoves(l, pools, me, pool, tolerance, coin, a, p.pair.right);
  }

  /** An account that is neither pool, router nor fee receiver is not touched by a hop. */
  lemma HopMoves(l: Ledger, pools: Pools, me: Addr, pool: Addr, tolerance: Option<nat>, coin: Coin, a: Addr, d: Denom)
    requires HopThrough(l, pools, me, pool, tolerance, coin).Ok?
    requires a != pool && a != me && a != pools[pool].config.feeReceiver
    ensures Holding(HopThrough(l, pools, me, pool, tolerance, coin).value.0, a, d) == Holding(l, a, d)
  {
    HopMovesAll(l, pools, me, pool, tolerance, coin, a, d);
  }

  /** What one hop does to an account outside the pools. */
  lemma HopFees(l: Ledger, pools: Pools, me: Addr, pool: Addr, tolerance: Option<nat>, coin: Coin, to: Denom,
                p: PoolState, a: Addr, d: Denom)
    requires Trades(pools, pool, coin.denom, to) && pool != me && a != pool && IsPoolAt(p, l, pools, pool)
    requires pools[pool].config.feeReceiver != me
    requires HopThrough(l, pools, me, pool, tolerance, coin).Ok?
    ensures var hop, step := HopThrough(l, pools, me, pool, tolerance, coin).value,
                             SwapStep(p, me, [coin], None, tolerance, None);
            && step.Ok?
            && var fee := Fee(p.config.feeReceiver, PaidCoin(p, step.value.1, coin, p.config.feeReceiver));
               Holding(hop.0, a, d) + (if a == me then Part(coin, d) else 0)
               == Holding(l, a, d) + (if a == me then Part(PaidCoin(p, step.value.1, coin, me), d) else 0)
                  + (if fee.to == a then Part(fee.coin, d) else 0)
  {
    HopPaysAsSwapStep(l, pools, me, pool, tolerance, coin, to, p, a, d);
    SwapStepPays(p, me, tolerance, coin, to, a);
  }

  /** What holds of a route on the ledger, against the pools' own run. */
  ghost predicate RunsAs(l: Ledger, pools: Pools, me: Addr, coin: Coin, to: Denom,
                         run: Result<(Ledger, Coin), TxError>, machine: Result<Outcomes, TxError>)
  {
    && (run.Ok? <==> machine.Ok?)
    && (run.Err? ==> run.error == machine.error && !Mismatch(run.error))
    && (run.Ok? ==>
          && run.value.1 == machine.value.coin && machine.value.coin.denom == to
          && 0 < machine.value.coin.amount <= Holding(run.value.0, me, to)
          && AtPools(machine.value.states, run.value.0, pools)
          && forall a, d :: a !in pools ==>
               Holding(run.value.0, a, d) + (if a == me then Part(coin, d) else 0)
               == Holding(l, a, d) + (if a == me then Part(machine.value.coin, d) else 0)
                  + FeesTo(machine.value.fees, a, d))
  }

  lemma OneHop(l: Ledger, pools: Pools, me: Addr, pool: Addr, tolerance: Option<nat>, coin: Coin, to: Denom,
               states: States)
    requires AtPools(states, l, pools) && FeesOutside(pools, me) && Trades(pools, pool, coin.denom, to)
    requires coin.amount <= Holding(l, me, coin.denom)
    ensures RunsAs(l, pools, me, coin, to, HopThrough(l, pools, me, pool, tolerance, coin),
                   MachineHop(states, me, pool, tolerance, coin))
  {
    var p := states[pool];
    HopIsSwapStep(l, pools, me, pool, tolerance, coin, to, p);
    var hop, machine := HopThrough(l, pools, me, pool, tolerance, coin), MachineHop(states, me, pool, tolerance, coin);
    if hop.Ok? {
      HopKeepsPools(l, pools, me, pool, tolerance, coin, to, states);
      forall a, d | a !in pools
        ensures Holding(hop.value.0, a, d) + (if a == me then Part(coin, d) else 0)
                == Holding(l, a, d) + (if a == me then Part(machine.value.coin, d) else 0)
                   + FeesTo(machine.value.fees, a, d)
      {
        HopFees(l, pools, me, pool, tolerance, coin, to, p, a, d);
        assert FeesTo(machine.value.fees[1..], a, d) == 0;
      }
      HopFees(l, pools, me, pool, tolerance, coin, to, p, me, to);
    }
  }

  lemma {:induction false} FeesTogether(f: seq<Fee>, g: seq<Fee>, a: Addr, d: Denom)
    ensures FeesTo(f + g, a, d) == FeesTo(f, a, d) + FeesTo(g, a, d)
  {
    if f == [] {
      assert f + g == g;
    } else {
      assert (f + g)[1..] == f[1..] + g;
      FeesTogether(f[1..], g, a, d);
    }
  }

  /** One after the other. */
  lemma RunsTogether(l: Ledger, pools: Pools, me: Addr, coin: Coin, mid: Denom, to: Denom, hop: (Ledger, Coin),
                     first: Outcomes, run: Result<(Ledger, Coin), TxError>, rest: Result<Outcomes, TxError>)
    requires RunsAs(l, pools, me, coin, mid, Ok(hop), Ok(first))
    requires RunsAs(hop.0, pools, me, hop.1, to, run, rest)
    ensures RunsAs(l, pools, me, coin, to, run,
                   if rest.Err? then rest
                   else Ok(Outcomes(rest.value.states, rest.value.coin, first.fees + rest.value.fees)))
  {
    if run.Ok? {
      var m := rest.value;
      forall a, d | a !in pools
        ensures Holding(run.value.0, a, d) + (if a == me then Part(coin, d) else 0)
                == Holding(l, a, d) + (if a == me then Part(m.coin, d) else 0) + FeesTo(first.fees + m.fees, a, d)
      {
        FeesTogether(first.fees, m.fees, a, d);
      }
    }
  }

  lemma RunsUnfolded(l: Ledger, pools: Pools, me: Addr, states: States, path: seq<Addr>, tolerance: Option<nat>,
                     inner: Option<nat>, coin: Coin)
    requires |path| > 1
    requires HopThrough(l, pools, me, path[0], tolerance, coin).Ok?
    requires MachineHop(states, me, path[0], tolerance, coin).Ok?
    ensures var hop, first, rest := HopThrough(l, pools, me, path[0], tolerance, coin).value,
                                    MachineHop(states, me, path[0], tolerance, coin).value, path[1..];
            && FoldRoute(l, pools, me, path[0], tolerance, rest, inner, coin)
               == FoldRoute(hop.0, pools, me, rest[0], inner, rest[1..], inner, hop.1)
            && var tail := MachineRun(first.states, me, rest[0], inner, rest[1..], inner, first.coin);
               MachineRun(states, me, path[0], tolerance, rest, inner, coin)
               == if tail.Err? then tail
                  else Ok(Outcomes(tail.value.states, tail.value.coin, first.fees + tail.value.fees))
  {
  }

  /**
   Running a route on the ledger is running the pools' own swaps in order: the same final coin or the same
   error, never a mismatch; every pool is left in its machine's state, every fee receiver has gained the fees
   of its hops, the router has only passed the coin on, and nobody else has anything more or less.
   */
  lemma {:induction false} RouteOutcome(l: Ledger, pools: Pools, me: Addr, states: States, path: seq<Addr>,
                                        tolerance: Option<nat>, inner: Option<nat>, coin: Coin, denoms: seq<Denom>)
    requires AtPools(states, l, pools) && FeesOutside(pools, me) && TradeAlong(pools, path, denoms)
    requires coin.denom == denoms[0] && coin.amount <= Holding(l, me, coin.denom)
    ensures RunsAs(l, pools, me, coin, denoms[|path|],
                   FoldRoute(l, pools, me, path[0], tolerance, path[1..], inner, coin),
                   MachineRun(states, me, path[0], tolerance, path[1..], inner, coin))
    decreases |path|
  {
    OneHop(l, pools, me, path[0], tolerance, coin, denoms[1], states);
    var hop := HopThrough(l, pools, me, path[0], tolerance, coin);
    var first := MachineHop(states, me, path[0], tolerance, coin);
    if hop.Ok? && |path| > 1 {
      var rest, after := path[1..], hop.value.0;
      TradeOn(pools, path, denoms);
      RunsUnfolded(l, pools, me, states, path, tolerance, inner, coin);
      RouteOutcome(after, pools, me, first.value.states, rest, inner, inner, hop.value.1, denoms[1..]);
      RunsTogether(l, pools, me, coin, denoms[1], denoms[|path|], hop.value, first.value,
                   FoldRoute(after, pools, me, rest[0], inner, rest[1..], inner, hop.value.1),
                   MachineRun(first.value.states, me, rest[0], inner, rest[1..], inner, hop.value.1));
    }
  }

  /** The same with every pool as it is at the outset. */
  function Quote(states: States, me: Addr, pool: Addr, tolerance: Option<nat>, rest: seq<Addr>, inner: Option<nat>,
                 coin: Coin): Result<Coin, TxError>
    decreases |rest|
  {
    var hop :- MachineHop(states, me, pool, tolerance, coin);
    if rest == [] then Ok(hop.coin) else Quote(states, me, rest[0], inner, rest[1..], inner, hop.coin)
  }

  /** As no pool comes twice, each is met as it was at the outset. */
  lemma {:induction false} PricedAtOutset(now: States, states: States, me: Addr, path: seq<Addr>, tolerance: Option<nat>,
                                          inner: Option<nat>, coin: Coin)
    requires path != [] && forall i, j :: 0 <= i < j < |path| ==> path[i] != path[j]
    requires forall i :: 0 <= i < |path| ==> path[i] in now && path[i] in states && now[path[i]] == states[path[i]]
    ensures var run, quote := MachineRun(now, me, path[0], tolerance, path[1..], inner, coin),
                              Quote(states, me, path[0], tolerance, path[1..], inner, coin);
            && (run.Ok? <==> quote.Ok?)
            && (run.Ok? ==> run.value.coin == quote.value)
            && (run.Err? ==> run.error == quote.error)
    decreases |path|
  {
    var hop := MachineHop(now, me, path[0], tolerance, coin);
    if hop.Ok? && |path| > 1 {
      PricedAtOutset(hop.value.states, states, me, path[1..], inner, inner, hop.value.coin);
    }
  }
}
