/** A transaction through the router is the fold of its swaps; what that means for routes the resolver returns. */
module RoutedSwap {
  import opened Results
  import opened Bank
  import opened PoolCalc
  import opened Payments
  import opened PoolMachine
  import opened Chain
  import Router

  // ---- One hop, and the fold over a list of pools ----

  function OutputCoin(info: PoolInfo, payment: OneOfPair, r: SwapResult): Coin {
    Coin(info.pair.Side(!payment.inverse), r.resultAmount)
  }

  /** The pool's two payments: the fee to its receiver, then the payout to the router. */
  function PaidOut(l: Ledger, me: Addr, info: PoolInfo, pool: Addr, payment: OneOfPair, r: SwapResult)
    : Result<(Ledger, Coin), TxError>
  {
    var out := OutputCoin(info, payment, r);
    var afterFee := if r.makerFeeAmount == 0 then Some(l)
                    else Send(l, pool, info.config.feeReceiver, Coin(out.denom, r.makerFeeAmount));
    if afterFee.None? then Err(CannotPay) else
      var delivered := Send(afterFee.value, pool, me, out);
      if delivered.None? then Err(CannotPay) else Ok((delivered.value, out))
  }

  /** One swap as a whole: the coin goes to the pool, and what the pool pays comes out. */
  function HopThrough(l: Ledger, pools: Pools, me: Addr, pool: Addr, tolerance: Option<nat>, coin: Coin)
    : Result<(Ledger, Coin), TxError>
  {
    if pool !in pools then Err(NoSuchPool) else
      var paid := Send(l, me, pool, coin);
      if paid.None? then Err(CannotPay) else
        var priced := PricedSwap(PoolView(l, pools[pool], pool), [coin], None, tolerance);
        if priced.Err? then Err(PoolFailed(priced.error))
        else PaidOut(paid.value, me, pools[pool], pool, priced.value.0, priced.value.1)
  }

  /** The swaps one after another, each with what the one before paid. */
  function FoldRoute(l: Ledger, pools: Pools, me: Addr, pool: Addr, tolerance: Option<nat>, rest: seq<Addr>,
                     inner: Option<nat>, coin: Coin): Result<(Ledger, Coin), TxError>
    decreases |rest|
  {
    var hop :- HopThrough(l, pools, me, pool, tolerance, coin);
    if rest == [] then Ok(hop) else FoldRoute(hop.0, pools, me, rest[0], inner, rest[1..], inner, hop.1)
  }

  function Target(st: Router.RouterState): Addr {
    if st.unwrapper != ZERO_ADDR then st.unwrapper else st.receiver
  }

  /** The end of the route: the expectation is checked and the coin handed on. */
  function Deliver(l: Ledger, me: Addr, st: Router.RouterState, coin: Coin): Result<Ledger, TxError> {
    if coin.amount == 0 then Err(RouterFailed(Router.PaymentError(NoFunds))) else
      match Router.MeetsExpectation(coin.amount, st.expectedAmount, st.slippageTolerance)
      case Err(e) => Err(RouterFailed(e))
      case Ok(good) =>
        if !good then Err(RouterFailed(Router.RouterError.SlippageTooHigh)) else
          match Send(l, me, Target(st), coin)
          case None => Err(CannotPay)
          case Some(sent) => Ok(sent)
  }

  function Finish(w: World, st: Router.RouterState, folded: Result<(Ledger, Coin), TxError>): Result<World, TxError> {
    var run :- folded;
    var delivered :- Deliver(run.0, w.me, st, run.1);
    Ok(w.(ledger := delivered, router := Router.RouterStore(None, [])))
  }

  // ---- Dispatch is the fold ----

  lemma SendOne(l: Ledger, from: Addr, to: Addr, coin: Coin)
    ensures SendAll(l, from, to, [coin]) == Send(l, from, to, coin)
  {
    if Send(l, from, to, coin).Some? {
      assert SendAll(Send(l, from, to, coin).value, from, to, [coin][1..]) == Send(l, from, to, coin);
    }
  }

  /** What the router's callback makes of a delivered coin. */
  function Callback(w: World, l: Ledger, out: Coin, tail: seq<Msg>): Result<World, TxError> {
    var step := Router.NextStepStep(w.router, [out]);
    if step.Err? then Err(RouterFailed(step.error))
    else Dispatch(w.(ledger := l, router := step.value.0), [Outgoing(w.me, step.value.1)] + tail)
  }

  lemma {:induction false} DispatchCallback(w: World, pool: Addr, out: Coin, tail: seq<Msg>)
    ensures Dispatch(w, [NextStepMsg(pool, [out])] + tail)
         == (var delivered := Send(w.ledger, pool, w.me, out);
             if delivered.None? then Err(CannotPay) else Callback(w, delivered.value, out, tail))
  {
    SendOne(w.ledger, pool, w.me, out);
    DispatchFirst(w, NextStepMsg(pool, [out]), tail);
  }

  lemma {:induction false} DispatchSend(w: World, from: Addr, to: Addr, coin: Coin, tail: seq<Msg>)
    ensures Dispatch(w, [SendMsg(from, to, coin)] + tail)
         == (var sent := Send(w.ledger, from, to, coin);
             if sent.None? then Err(CannotPay) else Dispatch(w.(ledger := sent.value), tail))
  {
    DispatchFirst(w, SendMsg(from, to, coin), tail);
    assert [] + tail == tail;
  }

  lemma {:induction false} DispatchPayouts(w: World, info: PoolInfo, pool: Addr, payment: OneOfPair, r: SwapResult,
                                           tail: seq<Msg>)
    ensures Dispatch(w, Payouts(info, pool, payment, r) + tail)
         == (var hop := PaidOut(w.ledger, w.me, info, pool, payment, r);
             if hop.Err? then Err(hop.error) else Callback(w, hop.value.0, hop.value.1, tail))
  {
    var out := OutputCoin(info, payment, r);
    if r.makerFeeAmount == 0 {
      DispatchCallback(w, pool, out, tail);
    } else {
      var fee, next := Coin(out.denom, r.makerFeeAmount), [NextStepMsg(pool, [out])];
      assert Payouts(info, pool, payment, r) + tail == [SendMsg(pool, info.config.feeReceiver, fee)] + (next + tail);
      DispatchSend(w, pool, info.config.feeReceiver, fee, next + tail);
      var sent := Send(w.ledger, pool, info.config.feeReceiver, fee);
      if sent.Some? {
        DispatchCallback(w.(ledger := sent.value), pool, out, tail);
      }
    }
  }

  lemma {:induction false} DispatchHop(w: World, pool: Addr, tolerance: Option<nat>, coin: Coin, tail: seq<Msg>)
    ensures Dispatch(w, [SwapMsg(pool, tolerance, [coin])] + tail)
         == (var hop := HopThrough(w.ledger, w.pools, w.me, pool, tolerance, coin);
             if hop.Err? then Err(hop.error) else Callback(w, hop.value.0, hop.value.1, tail))
  {
    SendOne(w.ledger, w.me, pool, coin);
    DispatchFirst(w, SwapMsg(pool, tolerance, [coin]), tail);
    if HandleSwap(w, pool, tolerance, [coin]).Ok? {
      var priced := PricedSwap(PoolView(w.ledger, w.pools[pool], pool), [coin], None, tolerance).value;
      var w1 := HandleSwap(w, pool, tolerance, [coin]).value.0;
      DispatchPayouts(w1, w.pools[pool], pool, priced.0, priced.1, tail);
    }
  }

  lemma {:induction false} DispatchEnd(w: World, st: Router.RouterState, l: Ledger, out: Coin)
    requires w.router == Router.RouterStore(Some(st), [])
    ensures Callback(w, l, out, [ReplyMsg]) == Finish(w, st, Ok((l, out)))
  {
    var step := Router.NextStepStep(w.router, [out]);
    if step.Ok? {
      var idle := w.(ledger := l, router := step.value.0);
      assert [Outgoing(w.me, step.value.1)] == [SendMsg(w.me, Target(st), out)];
      DispatchSend(idle, w.me, Target(st), out, [ReplyMsg]);
      var sent := Send(l, w.me, Target(st), out);
      if sent.Some? {
        DispatchFirst(idle.(ledger := sent.value), ReplyMsg, []);
        assert [ReplyMsg] + [] == [ReplyMsg];
      }
    }
  }

  /** Depth-first dispatch of a whole route, callbacks and reply included, is the fold followed by the delivery. */
  lemma {:induction false} DispatchIsFold(w: World, st: Router.RouterState, pool: Addr, tolerance: Option<nat>,
                                          rest: seq<Addr>, coin: Coin)
    requires w.router == Router.RouterStore(Some(st), Router.Reverse(rest))
    ensures Dispatch(w, [SwapMsg(pool, tolerance, [coin])] + [ReplyMsg])
         == Finish(w, st, FoldRoute(w.ledger, w.pools, w.me, pool, tolerance, rest,
                                    Router.DecodeTolerance(st.intermediateTolerance), coin))
    decreases |rest|
  {
    var inner := Router.DecodeTolerance(st.intermediateTolerance);
    DispatchHop(w, pool, tolerance, coin, [ReplyMsg]);
    var hop := HopThrough(w.ledger, w.pools, w.me, pool, tolerance, coin);
    if hop.Ok? {
      var l, out := hop.value.0, hop.value.1;
      if rest == [] {
        DispatchEnd(w, st, l, out);
      } else {
        var stack := Router.Reverse(rest);
        assert stack == Router.Reverse(rest[1..]) + [rest[0]];
        assert stack[..|stack| - 1] == Router.Reverse(rest[1..]);
        var next := w.(ledger := l, router := Router.RouterStore(Some(st), Router.Reverse(rest[1..])));
        assert Callback(w, l, out, [ReplyMsg]) == Dispatch(next, [SwapMsg(rest[0], inner, [out])] + [ReplyMsg]);
        DispatchIsFold(next, st, rest[0], inner, rest[1..], out);
      }
    }
  }

  /** A transaction from an idle router: the checks at the start, the fold, the delivery. */
  lemma TransactIsFold(w: World, user: Addr, offer: Coin, swappers: seq<Addr>, tolerance: Option<nat>,
                       expectation: Option<Router.Expectation>, receiver: Router.SwapReceiver)
    requires w.router == Router.RouterStore(None, []) && swappers != []
    ensures var paid := Send(w.ledger, user, w.me, offer);
            var start := Router.ExecuteSwapsStep(w.router, swappers, tolerance, expectation, receiver, [offer]);
            Transact(w, user, [offer], swappers, tolerance, expectation, receiver) ==
              if paid.None? then Err(CannotPay)
              else if start.Err? then Err(RouterFailed(start.error))
              else
                var st := start.value.0.state.value;
                Finish(w, st, FoldRoute(paid.value, w.pools, w.me, swappers[0], tolerance, swappers[1..],
                                        Router.DecodeTolerance(st.intermediateTolerance), offer))
  {
    SendOne(w.ledger, user, w.me, offer);
    var paid := Send(w.ledger, user, w.me, offer);
    var start := Router.ExecuteSwapsStep(w.router, swappers, tolerance, expectation, receiver, [offer]);
    if paid.Some? && start.Ok? {
      var st := start.value.0.state.value;
      assert [] + Router.Reverse(swappers[1..]) == Router.Reverse(swappers[1..]);
      var begun := w.(ledger := paid.value, router := start.value.0);
      assert [Outgoing(w.me, start.value.1), ReplyMsg] == [SwapMsg(swappers[0], tolerance, [offer])] + [ReplyMsg];
      DispatchIsFold(begun, st, swappers[0], tolerance, swappers[1..], offer);
    }
  }
}
