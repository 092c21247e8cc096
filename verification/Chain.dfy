/**
 The chain around the contracts: one ledger, deployed pools and the router, with a transaction's messages
 dispatched depth first and all or nothing.
 */
module Chain {
  import opened Results
  import opened Bank
  import opened PoolCalc
  import opened Payments
  import opened PoolMachine
  import Router

  datatype PoolInfo = PoolInfo(pair: PairId, config: PoolConfig)

  type Pools = map<Addr, PoolInfo>

  datatype World = World(ledger: Ledger, pools: Pools, me: Addr, router: Router.RouterStore)

  datatype TxError =
    | NoSuchPool
    | CannotPay
    | PoolFailed(pool: PoolError)
    | RouterFailed(router: Router.RouterError)

  /** Messages in flight; swaps are always called by the router, which has itself called back. */
  datatype Msg =
    | SwapMsg(pool: Addr, tolerance: Option<nat>, funds: seq<Coin>)
    | NextStepMsg(from: Addr, funds: seq<Coin>)
    | SendMsg(from: Addr, to: Addr, coin: Coin)
    | ReplyMsg

  function SendAll(l: Ledger, from: Addr, to: Addr, funds: seq<Coin>): Option<Ledger>
    decreases |funds|
  {
    if funds == [] then Some(l) else
      match Send(l, from, to, funds[0])
      case None => None
      case Some(sent) => SendAll(sent, from, to, funds[1..])
  }

  /** A deployed pool as its contract sees itself before the attached funds arrive. */
  function PoolView(l: Ledger, info: PoolInfo, pool: Addr): PoolState {
    PoolState(info.pair, "", Amounts(Holding(l, pool, info.pair.left), Holding(l, pool, info.pair.right)), 0,
              info.config, map[])
  }

  function Payouts(info: PoolInfo, pool: Addr, payment: OneOfPair, r: SwapResult): seq<Msg> {
    var out := info.pair.Side(!payment.inverse);
    var payout := NextStepMsg(pool, [Coin(out, r.resultAmount)]);
    if r.makerFeeAmount == 0 then [payout]
    else [SendMsg(pool, info.config.feeReceiver, Coin(out, r.makerFeeAmount)), payout]
  }

  function HandleSwap(w: World, pool: Addr, tolerance: Option<nat>, funds: seq<Coin>): Result<(World, seq<Msg>), TxError> {
    if pool !in w.pools then Err(NoSuchPool) else
      var info := w.pools[pool];
      match SendAll(w.ledger, w.me, pool, funds)
      case None => Err(CannotPay)
      case Some(paid) =>
        match PricedSwap(PoolView(w.ledger, info, pool), funds, None, tolerance)
        case Err(e) => Err(PoolFailed(e))
        case Ok(priced) => Ok((w.(ledger := paid), Payouts(info, pool, priced.0, priced.1)))
  }

  function Outgoing(me: Addr, e: Router.Emitted): Msg {
    match e
    case SwapOn(pool, tolerance, funds) => SwapMsg(pool, tolerance, funds)
    case PayOut(to, coin) => SendMsg(me, to, coin)
    case UnwrapVia(contract, _, _, coin) => SendMsg(me, contract, coin)
  }

  function HandleNextStep(w: World, from: Addr, funds: seq<Coin>): Result<(World, seq<Msg>), TxError> {
    match SendAll(w.ledger, from, w.me, funds)
    case None => Err(CannotPay)
    case Some(paid) =>
      match Router.NextStepStep(w.router, funds)
      case Err(e) => Err(RouterFailed(e))
      case Ok(out) => Ok((w.(ledger := paid, router := out.0), [Outgoing(w.me, out.1)]))
  }

  function Handle(w: World, m: Msg): Result<(World, seq<Msg>), TxError> {
    match m
    case SwapMsg(pool, tolerance, funds) => HandleSwap(w, pool, tolerance, funds)
    case NextStepMsg(from, funds) => HandleNextStep(w, from, funds)
    case SendMsg(from, to, coin) =>
      (match Send(w.ledger, from, to, coin)
       case None => Err(CannotPay)
       case Some(sent) => Ok((w.(ledger := sent), [])))
    case ReplyMsg =>
      (match Router.ReplyStep(w.router)
       case Err(e) => Err(RouterFailed(e))
       case Ok(_) => Ok((w, [])))
  }

  // ---- Dispatch ----

  function Cost(m: Msg): nat {
    match m
    case SwapMsg(_, _, _) => 5
    case NextStepMsg(_, _) => 3
    case SendMsg(_, _, _) => 1
    case ReplyMsg => 1
  }

  function Costs(msgs: seq<Msg>): nat {
    if msgs == [] then 0 else Cost(msgs[0]) + Costs(msgs[1..])
  }

  lemma {:induction false} CostsSplit(a: seq<Msg>, b: seq<Msg>)
    ensures Costs(a + b) == Costs(a) + Costs(b)
  {
    if a == [] {
      assert a + b == b;
    } else {
      assert (a + b)[1..] == a[1..] + b;
      CostsSplit(a[1..], b);
    }
  }

  /** Each swapper on the stack pays for the swap and the callback it still has to bring. */
  function Fuel(w: World, msgs: seq<Msg>): nat {
    Costs(msgs) + 4 * |w.router.swappers|
  }

  lemma HandleUsesFuel(w: World, m: Msg)
    requires Handle(w, m).Ok?
    ensures Fuel(Handle(w, m).value.0, Handle(w, m).value.1) < Fuel(w, [m])
  {
    assert Costs([m]) == Cost(m) + Costs([]);
    var out := Handle(w, m).value.1;
    if out != [] {
      assert Costs(out) == Cost(out[0]) + Costs(out[1..]);
      if |out| == 2 {
        assert Costs(out[1..]) == Cost(out[1]) + Costs([]);
      }
    }
  }

  lemma StepUsesFuel(w: World, msgs: seq<Msg>)
    requires msgs != [] && Handle(w, msgs[0]).Ok?
    ensures Fuel(Handle(w, msgs[0]).value.0, Handle(w, msgs[0]).value.1 + msgs[1..]) < Fuel(w, msgs)
  {
    HandleUsesFuel(w, msgs[0]);
    CostsSplit(Handle(w, msgs[0]).value.1, msgs[1..]);
    assert Costs([msgs[0]]) == Cost(msgs[0]) + Costs([]);
  }

  /** Runs the messages; what one sends out is handled before what was waiting, and any error undoes everything. */
  function Dispatch(w: World, msgs: seq<Msg>): Result<World, TxError>
    decreases Fuel(w, msgs)
  {
    if msgs == [] then Ok(w) else
      var out :- Handle(w, msgs[0]);
      StepUsesFuel(w, msgs);
      Dispatch(out.0, out.1 + msgs[1..])
  }

  lemma {:induction false} DispatchFirst(w: World, m: Msg, tail: seq<Msg>)
    ensures Handle(w, m).Err? ==> Dispatch(w, [m] + tail) == Err(Handle(w, m).error)
    ensures Handle(w, m).Ok? ==>
              Dispatch(w, [m] + tail) == Dispatch(Handle(w, m).value.0, Handle(w, m).value.1 + tail)
  {
    assert ([m] + tail)[0] == m && ([m] + tail)[1..] == tail;
  }

  /** A user's transaction: the funds go to the router, which calls the first pool and waits for the reply. */
  function Transact(w: World, user: Addr, funds: seq<Coin>, swappers: seq<Addr>, tolerance: Option<nat>,
                    expectation: Option<Router.Expectation>, receiver: Router.SwapReceiver): Result<World, TxError>
  {
    match SendAll(w.ledger, user, w.me, funds)
    case None => Err(CannotPay)
    case Some(paid) =>
      match Router.ExecuteSwapsStep(w.router, swappers, tolerance, expectation, receiver, funds)
      case Err(e) => Err(RouterFailed(e))
      case Ok(out) => Dispatch(w.(ledger := paid, router := out.0), [Outgoing(w.me, out.1), ReplyMsg])
  }

  // ---- Conservation ----

  lemma {:induction false} SendAllConserves(l: Ledger, from: Addr, to: Addr, funds: seq<Coin>, d: Denom)
    requires SendAll(l, from, to, funds).Some?
    ensures Total(Of(SendAll(l, from, to, funds).value, d)) == Total(Of(l, d))
    decreases |funds|
  {
    if funds != [] {
      SendConserves(l, from, to, funds[0], d);
      SendAllConserves(Send(l, from, to, funds[0]).value, from, to, funds[1..], d);
    }
  }

  lemma HandleConserves(w: World, m: Msg, d: Denom)
    requires Handle(w, m).Ok?
    ensures Total(Of(Handle(w, m).value.0.ledger, d)) == Total(Of(w.ledger, d))
  {
    match m
    case SwapMsg(pool, _, funds) => SendAllConserves(w.ledger, w.me, pool, funds, d);
    case NextStepMsg(from, funds) => SendAllConserves(w.ledger, from, w.me, funds, d);
    case SendMsg(from, to, coin) => SendConserves(w.ledger, from, to, coin, d);
    case ReplyMsg =>
  }

  /** Whatever messages are dispatched, every denom's total is conserved. */
  lemma {:induction false} DispatchConserves(w: World, msgs: seq<Msg>, d: Denom)
    requires Dispatch(w, msgs).Ok?
    ensures Total(Of(Dispatch(w, msgs).value.ledger, d)) == Total(Of(w.ledger, d))
    decreases Fuel(w, msgs)
  {
    if msgs != [] {
      var out := Handle(w, msgs[0]).value;
      HandleConserves(w, msgs[0], d);
      StepUsesFuel(w, msgs);
      DispatchConserves(out.0, out.1 + msgs[1..], d);
    }
  }

  lemma TransactionConserves(w: World, user: Addr, funds: seq<Coin>, swappers: seq<Addr>, tolerance: Option<nat>,
                             expectation: Option<Router.Expectation>, receiver: Router.SwapReceiver, d: Denom)
    requires Transact(w, user, funds, swappers, tolerance, expectation, receiver).Ok?
    ensures Total(Of(Transact(w, user, funds, swappers, tolerance, expectation, receiver).value.ledger, d))
         == Total(Of(w.ledger, d))
  {
    SendAllConserves(w.ledger, user, w.me, funds, d);
    var paid := SendAll(w.ledger, user, w.me, funds).value;
    var out := Router.ExecuteSwapsStep(w.router, swappers, tolerance, expectation, receiver, funds).value;
    DispatchConserves(w.(ledger := paid, router := out.0), [Outgoing(w.me, out.1), ReplyMsg], d);
  }
}
