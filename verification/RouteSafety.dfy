/**
 A route from the resolver, run through the router: no pool ever sees a coin it does not trade, the asked
 denom arrives in the amount the pools quote in order, and nobody's coins are lost on the way.
 */
module RouteSafety {
  import opened Results
  import opened Bank
  import opened PoolCalc
  import opened Payments
  import opened PoolMachine
  import opened Chain
  import opened RoutedSwap
  import opened RouteHops
  import opened RouteFinder
  import opened Market
  import Router
  import FixedPoint
  import Arith

  // ---- Routes of the market ----

  /** The swapper list `buildSwapIxs` sends to the router; `None` is the thrown error for a hop without a pair. */
  function Swappers(pairs: seq<Pair>, names: map<Denom, Denom>, route: Route): Option<seq<Addr>> {
    if forall i :: 0 <= i < |route| ==> GetPair(pairs, names, route[i]).Some? then
      Some(seq(|route|, i requires 0 <= i < |route| => GetPair(pairs, names, route[i]).value.address))
    else None
  }

  function DenomsOf(route: Route): seq<Denom>
    requires route != []
  {
    seq(|route| + 1, i requires 0 <= i <= |route| => if i == 0 then route[0].0 else route[i - 1].1)
  }

  /** Every pair the client knows is deployed at its address, with its canonical denoms. */
  ghost predicate Deployed(pairs: seq<Pair>, pools: Pools) {
    forall i :: 0 <= i < |pairs| ==>
      pairs[i].address in pools && pools[pairs[i].address].pair == PairId(pairs[i].key.0, pairs[i].key.1)
  }

  lemma HopTrades(pairs: seq<Pair>, names: map<Denom, Denom>, pools: Pools, hop: Hop)
    requires ValidMarket(pairs, names) && Deployed(pairs, pools) && Adjacent(TradeMapOf(pairs), hop.0, hop.1)
    ensures GetPair(pairs, names, hop).Some?
    ensures Joins(GetPair(pairs, names, hop).value, hop.0, hop.1)
    ensures Trades(pools, GetPair(pairs, names, hop).value.address, hop.0, hop.1)
  {
    HopHasPair(pairs, names, hop);
    var p := GetPair(pairs, names, hop).value;
    var i :| 0 <= i < |pairs| && pairs[i] == p;
    assert pairs[i].address in pools && pools[pairs[i].address].pair == PairId(pairs[i].key.0, pairs[i].key.1);
    assert WellFormed(pairs[i]);
  }

  /** One pool serves two hops of a chain only if the chain passes through a denom twice. */
  lemma HopsDiffer(g: TradeMap, route: Route, from: Denom, to: Denom, i: nat, j: nat)
    requires IsChain(g, route, from, to) && IsSimple(route) && i < j < |route|
    ensures route[i] != route[j] && route[i] != (route[j].1, route[j].0)
  {
    if j < |route| - 1 {
      assert route[j + 1].0 == route[j].1;
    }
  }

  lemma SameAddressSamePair(pairs: seq<Pair>, names: map<Denom, Denom>, p: Pair, q: Pair)
    requires ValidMarket(pairs, names) && p in pairs && q in pairs && p.address == q.address
    ensures p == q
  {
    var i :| 0 <= i < |pairs| && pairs[i] == p;
    var j :| 0 <= j < |pairs| && pairs[j] == q;
  }

  lemma RouteTrades(pairs: seq<Pair>, names: map<Denom, Denom>, pools: Pools, route: Route, from: Denom, to: Denom)
    requires ValidMarket(pairs, names) && Deployed(pairs, pools) && IsChain(TradeMapOf(pairs), route, from, to)
    ensures forall i :: 0 <= i < |route| ==>
              && GetPair(pairs, names, route[i]).Some?
              && Trades(pools, GetPair(pairs, names, route[i]).value.address, route[i].0, route[i].1)
  {
    forall i | 0 <= i < |route|
      ensures GetPair(pairs, names, route[i]).Some?
      ensures Trades(pools, GetPair(pairs, names, route[i]).value.address, route[i].0, route[i].1)
    {
      assert Adjacent(TradeMapOf(pairs), route[i].0, route[i].1);
      HopTrades(pairs, names, pools, route[i]);
    }
  }

  lemma DenomsAreHops(g: TradeMap, route: Route, from: Denom, to: Denom, i: nat)
    requires IsChain(g, route, from, to) && i < |route|
    ensures DenomsOf(route)[i] == route[i].0 && DenomsOf(route)[i + 1] == route[i].1
  {
  }

  /** A simple chain of pairs becomes a list of distinct pools trading along its denoms. */
  lemma RouteIsPath(pairs: seq<Pair>, names: map<Denom, Denom>, pools: Pools, route: Route, from: Denom, to: Denom)
    requires ValidMarket(pairs, names) && Deployed(pairs, pools)
    requires IsChain(TradeMapOf(pairs), route, from, to) && IsSimple(route)
    ensures Swappers(pairs, names, route).Some?
    ensures var path := Swappers(pairs, names, route).value;
            && |path| == |route|
            && TradeAlong(pools, path, DenomsOf(route))
            && forall i, j :: 0 <= i < j < |path| ==> path[i] != path[j]
  {
    RouteTrades(pairs, names, pools, route, from, to);
    var path, denoms := Swappers(pairs, names, route).value, DenomsOf(route);
    forall i | 0 <= i < |path|
      ensures Trades(pools, path[i], denoms[i], denoms[i + 1])
    {
      DenomsAreHops(TradeMapOf(pairs), route, from, to, i);
    }
    forall i, j | 0 <= i < j < |path|
      ensures path[i] != path[j]
    {
      DistinctPools(pairs, names, route, from, to, i, j);
    }
  }

  lemma DistinctPools(pairs: seq<Pair>, names: map<Denom, Denom>, route: Route, from: Denom, to: Denom, i: nat, j: nat)
    requires ValidMarket(pairs, names) && IsChain(TradeMapOf(pairs), route, from, to) && IsSimple(route)
    requires i < j < |route|
    ensures GetPair(pairs, names, route[i]).Some? && GetPair(pairs, names, route[j]).Some?
    ensures GetPair(pairs, names, route[i]).value.address != GetPair(pairs, names, route[j]).value.address
  {
    assert Adjacent(TradeMapOf(pairs), route[i].0, route[i].1) && Adjacent(TradeMapOf(pairs), route[j].0, route[j].1);
    HopHasPair(pairs, names, route[i]);
    HopHasPair(pairs, names, route[j]);
    var p, q := GetPair(pairs, names, route[i]).value, GetPair(pairs, names, route[j]).value;
    if p.address == q.address {
      SameAddressSamePair(pairs, names, p, q);
      HopsDiffer(TradeMapOf(pairs), route, from, to, i, j);
    }
  }

  // ---- The theorem ----

  /** Terms the router accepts: no expectation of nothing, and a receiver whose address is known. */
  predicate Acceptable(expectation: Option<Router.Expectation>, receiver: Router.SwapReceiver) {
    && (expectation.Some? ==> expectation.value.expectedAmount != 0)
    && (receiver.EvmUnwrap? ==> receiver.seiAddress.Some?)
  }

  /** Where the result is sent: to the receiver, or to the unwrapper named with it. */
  function DeliverTo(receiver: Router.SwapReceiver): Addr
    requires receiver.EvmUnwrap? ==> receiver.seiAddress.Some?
  {
    if receiver.Direct? || receiver.contract == ZERO_ADDR then Router.Recipient(receiver) else receiver.contract
  }

  /** The tolerance of the hops after the first: the largest decimal reads as none. */
  function LaterTolerance(tolerance: Option<nat>): Option<nat> {
    if tolerance == Some(0xFFFF_FFFF_FFFF_FFFF_FFFF_FFFF_FFFF_FFFF) then None else tolerance
  }

  /** What the pools' own swaps make of the offer, in order. */
  function RouteRun(states: States, me: Addr, path: seq<Addr>, tolerance: Option<nat>, offer: Coin)
    : Result<Outcomes, TxError>
    requires path != []
  {
    MachineRun(states, me, path[0], tolerance, path[1..], LaterTolerance(tolerance), offer)
  }

  /** The setting: an idle router among deployed pools in their states, and a user who is neither. */
  ghost predicate Ready(w: World, states: States, pairs: seq<Pair>, names: map<Denom, Denom>, user: Addr) {
    && w.router == Router.RouterStore(None, [])
    && ValidMarket(pairs, names) && Deployed(pairs, w.pools) && FeesOutside(w.pools, w.me)
    && AtPools(states, w.ledger, w.pools)
    && user != w.me && user !in w.pools
  }

  ghost predicate PathReady(w: World, states: States, user: Addr, path: seq<Addr>, denoms: seq<Denom>) {
    && w.router == Router.RouterStore(None, [])
    && TradeAlong(w.pools, path, denoms) && FeesOutside(w.pools, w.me) && AtPools(states, w.ledger, w.pools)
    && user != w.me && user !in w.pools
  }

  /** A coin sent between accounts that are no pools leaves the pools' contracts as they are. */
  lemma SendKeepsPools(states: States, l: Ledger, pools: Pools, from: Addr, to: Addr, coin: Coin)
    requires AtPools(states, l, pools) && from !in pools && to !in pools && Send(l, from, to, coin).Some?
    ensures AtPools(states, Send(l, from, to, coin).value, pools)
  {
    var sent := Send(l, from, to, coin).value;
    forall pool | pool in pools
      ensures IsPoolAt(states[pool], sent, pools, pool)
    {
      SendMoves(l, from, to, coin, pool, states[pool].pair.left);
      SendMoves(l, from, to, coin, pool, states[pool].pair.right);
    }
  }

  /** The router accepts acceptable terms, and stores what they say. */
  lemma StartOutcome(w: World, path: seq<Addr>, tolerance: Option<nat>, expectation: Option<Router.Expectation>,
                     receiver: Router.SwapReceiver, offer: Coin)
    requires w.router == Router.RouterStore(None, []) && path != []
    ensures var start := Router.ExecuteSwapsStep(w.router, path, tolerance, expectation, receiver, [offer]);
            && (start.Ok? <==> Acceptable(expectation, receiver))
            && (start.Ok? ==>
                  && start.value.0.state.Some?
                  && var st := start.value.0.state.value;
                     && Router.DecodeTolerance(st.intermediateTolerance) == LaterTolerance(tolerance)
                     && Target(st) == DeliverTo(receiver)
                     && st.expectedAmount == (if expectation.Some? then expectation.value.expectedAmount else 0)
                     && (expectation.Some? ==> st.slippageTolerance == expectation.value.slippageTolerance))
  {
  }

  /** The router's final check is the expectation's two-sided bound. */
  lemma FinalCheck(amount: nat, e: Router.Expectation)
    requires e.expectedAmount != 0
    ensures Router.MeetsExpectation(amount, e.expectedAmount, e.slippageTolerance) == Ok(true)
            <==> Router.MeetsTerms(amount, e)
  {
    FixedPoint.WithinTolerance(amount, e.expectedAmount, e.slippageTolerance);
    Arith.DivLt(amount * FixedPoint.ONE, e.expectedAmount, Arith.U128_MAX + 1);
  }

  lemma FinishOutcome(w: World, st: Router.RouterState, folded: Result<(Ledger, Coin), TxError>)
    requires folded.Ok? ==> 0 < folded.value.1.amount <= Holding(folded.value.0, w.me, folded.value.1.denom)
    requires folded.Err? ==> !Mismatch(folded.error)
    ensures var end := Finish(w, st, folded);
            && (end.Ok? <==> folded.Ok? && Router.MeetsExpectation(folded.value.1.amount, st.expectedAmount,
                                                                    st.slippageTolerance) == Ok(true))
            && (end.Err? ==> !Mismatch(end.error))
            && (end.Ok? ==> Send(folded.value.0, w.me, Target(st), folded.value.1).Some?
                            && end.value == w.(ledger := Send(folded.value.0, w.me, Target(st), folded.value.1).value,
                                               router := Router.RouterStore(None, [])))
  {
  }

  /**
   When a routed transaction goes through: the user can pay, the terms are acceptable, every pool swaps, and
   the end meets the expectation.
   */
  predicate Succeeds(w: World, states: States, user: Addr, offer: Coin, path: seq<Addr>, tolerance: Option<nat>,
                     expectation: Option<Router.Expectation>, receiver: Router.SwapReceiver)
    requires path != []
  {
    && offer.amount <= Holding(w.ledger, user, offer.denom)
    && Acceptable(expectation, receiver)
    && RouteRun(states, w.me, path, tolerance, offer).Ok?
    && (expectation.Some? ==>
          Router.MeetsTerms(RouteRun(states, w.me, path, tolerance, offer).value.coin.amount, expectation.value))
  }

  /** The route's run on the ledger once the user has paid. */
  function PaidRun(w: World, user: Addr, offer: Coin, path: seq<Addr>, tolerance: Option<nat>)
    : Result<(Ledger, Coin), TxError>
    requires path != [] && Send(w.ledger, user, w.me, offer).Some?
  {
    FoldRoute(Send(w.ledger, user, w.me, offer).value, w.pools, w.me, path[0], tolerance, path[1..],
              LaterTolerance(tolerance), offer)
  }

  lemma PaidRunIsMachine(w: World, states: States, user: Addr, offer: Coin, path: seq<Addr>, denoms: seq<Denom>,
                         tolerance: Option<nat>)
    requires PathReady(w, states, user, path, denoms) && offer.denom == denoms[0]
    requires Send(w.ledger, user, w.me, offer).Some?
    ensures RunsAs(Send(w.ledger, user, w.me, offer).value, w.pools, w.me, offer, denoms[|path|],
                   PaidRun(w, user, offer, path, tolerance), RouteRun(states, w.me, path, tolerance, offer))
  {
    var paid := Send(w.ledger, user, w.me, offer).value;
    SendMoves(w.ledger, user, w.me, offer, w.me, offer.denom);
    SendKeepsPools(states, w.ledger, w.pools, user, w.me, offer);
    RouteOutcome(paid, w.pools, w.me, states, path, tolerance, LaterTolerance(tolerance), offer, denoms);
  }

  /**
   After a delivery the router is idle and every denom's total is what it was; of all accounts that are no
   pools the user has the offer less, the target has the coin more, each fee receiver the fees of its hops,
   and no other holds more or less than before; and every pool is in the state its own swaps left it in.
   */
  ghost predicate Delivered(w: World, after: World, user: Addr, offer: Coin, target: Addr, o: Outcomes) {
    && after == w.(ledger := after.ledger) && after.router == Router.RouterStore(None, [])
    && (forall d :: Total(Of(after.ledger, d)) == Total(Of(w.ledger, d)))
    && (forall a, d :: a !in w.pools ==>
          Holding(after.ledger, a, d) + (if a == user then Part(offer, d) else 0)
            == Holding(w.ledger, a, d) + (if a == target then Part(o.coin, d) else 0) + FeesTo(o.fees, a, d))
    && (target !in w.pools ==> AtPools(o.states, after.ledger, w.pools))
  }

  /** One account's holdings through payment, route and delivery. */
  lemma HoldingsAlong(w: World, user: Addr, offer: Coin, target: Addr, run: (Ledger, Coin), o: Outcomes, to: Denom,
                      a: Addr, d: Denom)
    requires user != w.me && a !in w.pools && Send(w.ledger, user, w.me, offer).Some?
    requires RunsAs(Send(w.ledger, user, w.me, offer).value, w.pools, w.me, offer, to, Ok(run), Ok(o))
    requires Send(run.0, w.me, target, run.1).Some?
    ensures Holding(Send(run.0, w.me, target, run.1).value, a, d) + (if a == user then Part(offer, d) else 0)
         == Holding(w.ledger, a, d) + (if a == target then Part(o.coin, d) else 0) + FeesTo(o.fees, a, d)
  {
    SendMoves(w.ledger, user, w.me, offer, a, d);
    SendMoves(run.0, w.me, target, run.1, a, d);
  }

  lemma PathOutcome(w: World, states: States, user: Addr, offer: Coin, path: seq<Addr>, denoms: seq<Denom>,
                    tolerance: Option<nat>, expectation: Option<Router.Expectation>, receiver: Router.SwapReceiver)
    requires PathReady(w, states, user, path, denoms) && offer.denom == denoms[0]
    ensures var tx := Transact(w, user, [offer], path, tolerance, expectation, receiver);
            && (tx.Ok? <==> Succeeds(w, states, user, offer, path, tolerance, expectation, receiver))
            && (tx.Err? ==> !Mismatch(tx.error))
            && (tx.Ok? ==>
                  && Send(w.ledger, user, w.me, offer).Some?
                  && var run := PaidRun(w, user, offer, path, tolerance);
                     && run.Ok? && Send(run.value.0, w.me, DeliverTo(receiver), run.value.1).Some?
                     && tx.value == w.(ledger := Send(run.value.0, w.me, DeliverTo(receiver), run.value.1).value))
  {
    TransactIsFold(w, user, offer, path, tolerance, expectation, receiver);
    StartOutcome(w, path, tolerance, expectation, receiver, offer);
    if Send(w.ledger, user, w.me, offer).Some? && Acceptable(expectation, receiver) {
      PaidRunIsMachine(w, states, user, offer, path, denoms, tolerance);
      var start := Router.ExecuteSwapsStep(w.router, path, tolerance, expectation, receiver, [offer]);
      var run := PaidRun(w, user, offer, path, tolerance);
      FinishOutcome(w, start.value.0.state.value, run);
      if run.Ok? && expectation.Some? {
        FinalCheck(run.value.1.amount, expectation.value);
      }
    }
  }

  lemma PathDelivery(w: World, states: States, user: Addr, offer: Coin, path: seq<Addr>, denoms: seq<Denom>,
                     tolerance: Option<nat>, expectation: Option<Router.Expectation>, receiver: Router.SwapReceiver)
    requires PathReady(w, states, user, path, denoms) && offer.denom == denoms[0]
    requires Transact(w, user, [offer], path, tolerance, expectation, receiver).Ok?
    ensures Acceptable(expectation, receiver) && RouteRun(states, w.me, path, tolerance, offer).Ok?
    ensures var o := RouteRun(states, w.me, path, tolerance, offer).value;
            && o.coin.denom == denoms[|path|] && 0 < o.coin.amount
            && Delivered(w, Transact(w, user, [offer], path, tolerance, expectation, receiver).value, user, offer,
                         DeliverTo(receiver), o)
  {
    PathOutcome(w, states, user, offer, path, denoms, tolerance, expectation, receiver);
    PaidRunIsMachine(w, states, user, offer, path, denoms, tolerance);
    var after := Transact(w, user, [offer], path, tolerance, expectation, receiver).value;
    var run, o := PaidRun(w, user, offer, path, tolerance).value, RouteRun(states, w.me, path, tolerance, offer).value;
    forall d
      ensures Total(Of(after.ledger, d)) == Total(Of(w.ledger, d))
    {
      TransactionConserves(w, user, [offer], path, tolerance, expectation, receiver, d);
    }
    forall a, d | a !in w.pools
      ensures Holding(after.ledger, a, d) + (if a == user then Part(offer, d) else 0)
              == Holding(w.ledger, a, d) + (if a == DeliverTo(receiver) then Part(o.coin, d) else 0)
                 + FeesTo(o.fees, a, d)
    {
      HoldingsAlong(w, user, offer, DeliverTo(receiver), run, o, denoms[|path|], a, d);
    }
    if DeliverTo(receiver) !in w.pools {
      SendKeepsPools(o.states, run.0, w.pools, w.me, DeliverTo(receiver), run.1);
    }
  }

  lemma MarketPath(w: World, states: States, pairs: seq<Pair>, names: map<Denom, Denom>, user: Addr, route: Route,
                   from: Denom, to: Denom)
    requires Ready(w, states, pairs, names, user)
    requires IsChain(TradeMapOf(pairs), route, from, to) && IsSimple(route)
    ensures Swappers(pairs, names, route).Some? && |Swappers(pairs, names, route).value| == |route|
    ensures PathReady(w, states, user, Swappers(pairs, names, route).value, DenomsOf(route))
    ensures DenomsOf(route)[0] == from && DenomsOf(route)[|route|] == to
    ensures forall i, j :: 0 <= i < j < |route| ==>
              Swappers(pairs, names, route).value[i] != Swappers(pairs, names, route).value[j]
  {
    RouteIsPath(pairs, names, w.pools, route, from, to);
  }

  /**
   A routed transaction along a simple chain succeeds exactly when the user can pay, the terms are acceptable,
   every pool's own swap goes through and the result meets the expectation; no pool is ever sent a coin it
   does not trade, and each prices its hop at the balances it had at the outset.
   */
  lemma RoutedOutcome(w: World, states: States, pairs: seq<Pair>, names: map<Denom, Denom>, user: Addr, offer: Coin,
                      to: Denom, route: Route, tolerance: Option<nat>, expectation: Option<Router.Expectation>,
                      receiver: Router.SwapReceiver) returns (path: seq<Addr>)
    requires Ready(w, states, pairs, names, user)
    requires IsChain(TradeMapOf(pairs), route, offer.denom, to) && IsSimple(route)
    ensures Swappers(pairs, names, route) == Some(path) && path != []
    ensures var tx := Transact(w, user, [offer], path, tolerance, expectation, receiver);
            && (tx.Ok? <==> Succeeds(w, states, user, offer, path, tolerance, expectation, receiver))
            && (tx.Err? ==> !Mismatch(tx.error))
    ensures var run := RouteRun(states, w.me, path, tolerance, offer);
            var quote := Quote(states, w.me, path[0], tolerance, path[1..], LaterTolerance(tolerance), offer);
            (run.Ok? <==> quote.Ok?) && (run.Ok? ==> run.value.coin == quote.value)
  {
    MarketPath(w, states, pairs, names, user, route, offer.denom, to);
    path := Swappers(pairs, names, route).value;
    PathOutcome(w, states, user, offer, path, DenomsOf(route), tolerance, expectation, receiver);
    OutsetPath(w, states, user, path, DenomsOf(route), tolerance, offer);
  }

  lemma OutsetPath(w: World, states: States, user: Addr, path: seq<Addr>, denoms: seq<Denom>, tolerance: Option<nat>,
                   offer: Coin)
    requires PathReady(w, states, user, path, denoms) && forall i, j :: 0 <= i < j < |path| ==> path[i] != path[j]
    ensures var run := RouteRun(states, w.me, path, tolerance, offer);
            var quote := Quote(states, w.me, path[0], tolerance, path[1..], LaterTolerance(tolerance), offer);
            (run.Ok? <==> quote.Ok?) && (run.Ok? ==> run.value.coin == quote.value)
  {
    forall i | 0 <= i < |path|
      ensures path[i] in states
    {
      assert Trades(w.pools, path[i], denoms[i], denoms[i + 1]);
    }
    PricedAtOutset(states, states, w.me, path, tolerance, LaterTolerance(tolerance), offer);
  }

  /** A successful routed transaction delivers the coin the pools' swaps end with, in the asked denom. */
  lemma RoutedDelivery(w: World, states: States, pairs: seq<Pair>, names: map<Denom, Denom>, user: Addr, offer: Coin,
                       to: Denom, route: Route, path: seq<Addr>, tolerance: Option<nat>,
                       expectation: Option<Router.Expectation>, receiver: Router.SwapReceiver)
    requires Ready(w, states, pairs, names, user)
    requires IsChain(TradeMapOf(pairs), route, offer.denom, to) && IsSimple(route)
    requires Swappers(pairs, names, route) == Some(path) && path != []
    requires Transact(w, user, [offer], path, tolerance, expectation, receiver).Ok?
    ensures Acceptable(expectation, receiver) && RouteRun(states, w.me, path, tolerance, offer).Ok?
    ensures var o := RouteRun(states, w.me, path, tolerance, offer).value;
            && o.coin.denom == to && 0 < o.coin.amount
            && Delivered(w, Transact(w, user, [offer], path, tolerance, expectation, receiver).value, user, offer,
                         DeliverTo(receiver), o)
  {
    MarketPath(w, states, pairs, names, user, route, offer.denom, to);
    PathDelivery(w, states, user, offer, path, DenomsOf(route), tolerance, expectation, receiver);
  }

  /** The resolver's own routes are such chains: whatever it returns for the offered denom can be run. */
  lemma ResolvedRouteRuns(w: World, states: States, pairs: seq<Pair>, names: map<Denom, Denom>, user: Addr,
                          offer: Coin, ask: Denom, tolerance: Option<nat>, expectation: Option<Router.Expectation>,
                          receiver: Router.SwapReceiver) returns (path: seq<Addr>)
    requires Ready(w, states, pairs, names, user)
    requires Wrapped(names, offer.denom) == offer.denom != Wrapped(names, ask)
    requires Connected(TradeMapOf(pairs), offer.denom, Wrapped(names, ask))
    ensures var found := Resolve(TradeMapOf(pairs), offer.denom, Wrapped(names, ask), {}).route;
            found.Some? && Swappers(pairs, names, found.value) == Some(path) && path != []
    ensures var tx := Transact(w, user, [offer], path, tolerance, expectation, receiver);
            && (tx.Ok? <==> Succeeds(w, states, user, offer, path, tolerance, expectation, receiver))
            && (tx.Err? ==> !Mismatch(tx.error))
            && (tx.Ok? ==>
                  var o := RouteRun(states, w.me, path, tolerance, offer).value;
                  && o.coin.denom == Wrapped(names, ask) && 0 < o.coin.amount
                  && Delivered(w, tx.value, user, offer, DeliverTo(receiver), o))
  {
    var to := Wrapped(names, ask);
    ResolveIsCorrect(TradeMapOf(pairs), offer.denom, to);
    var route := Resolve(TradeMapOf(pairs), offer.denom, to, {}).route.value;
    path := RoutedOutcome(w, states, pairs, names, user, offer, to, route, tolerance, expectation, receiver);
    if Transact(w, user, [offer], path, tolerance, expectation, receiver).Ok? {
      RoutedDelivery(w, states, pairs, names, user, offer, to, route, path, tolerance, expectation, receiver);
    }
  }

  /**
   `buildSwapIxs` attaches the offer under the name it was given, while the route starts at its wrapped
   name.  If the two differ the first pool refuses the coin and the transaction fails.
   */
  lemma OfferMustBeWrapped(w: World, states: States, pairs: seq<Pair>, names: map<Denom, Denom>, user: Addr,
                           offer: Coin, to: Denom, route: Route, tolerance: Option<nat>,
                           expectation: Option<Router.Expectation>, receiver: Router.SwapReceiver)
    requires Ready(w, states, pairs, names, user)
    requires IsChain(TradeMapOf(pairs), route, Wrapped(names, offer.denom), to) && IsSimple(route)
    requires Wrapped(names, offer.denom) != offer.denom
    ensures Swappers(pairs, names, route).Some? && Swappers(pairs, names, route).value != []
    ensures Transact(w, user, [offer], Swappers(pairs, names, route).value, tolerance, expectation, receiver).Err?
  {
    MarketPath(w, states, pairs, names, user, route, Wrapped(names, offer.denom), to);
    var path := Swappers(pairs, names, route).value;
    FirstPoolRefuses(pairs, names, w.pools, route[0], path[0], offer.denom);
    TransactIsFold(w, user, offer, path, tolerance, expectation, receiver);
    if Send(w.ledger, user, w.me, offer).Some? {
      RefusesOther(Send(w.ledger, user, w.me, offer).value, w.pools[path[0]], path[0], tolerance, offer);
    }
  }

  lemma FirstPoolRefuses(pairs: seq<Pair>, names: map<Denom, Denom>, pools: Pools, hop: Hop, pool: Addr, d: Denom)
    requires ValidMarket(pairs, names) && Deployed(pairs, pools) && Wrapped(names, d) != d
    requires GetPair(pairs, names, hop).Some? && pool == GetPair(pairs, names, hop).value.address
    ensures pool in pools && d != pools[pool].pair.left && d != pools[pool].pair.right
  {
    var p := GetPair(pairs, names, hop).value;
    var i :| 0 <= i < |pairs| && pairs[i] == p;
    assert pairs[i].address in pools && pools[pairs[i].address].pair == PairId(pairs[i].key.0, pairs[i].key.1);
    assert WellFormed(pairs[i]);
    assert Wrapped(names, pairs[i].assets.0) == pairs[i].assets.0 && Wrapped(names, pairs[i].assets.1) == pairs[i].assets.1;
  }

  lemma RefusesOther(l: Ledger, info: PoolInfo, pool: Addr, tolerance: Option<nat>, coin: Coin)
    requires coin.denom != info.pair.left && coin.denom != info.pair.right
    ensures PricedSwap(PoolView(l, info, pool), [coin], None, tolerance).Err?
  {
  }
}
