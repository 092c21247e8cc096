/** A two-hop swap with its numbers: the settings the routing theorems speak of exist, and routes do go through. */
module RoutedExample {
  import opened Results
  import opened Bank
  import opened PoolCalc
  import opened Payments
  import opened PoolMachine
  import opened PoolFlows
  import opened Chain
  import opened RouteHops
  import opened RouteFinder
  import opened Market
  import opened RouteSafety
  import Router

  const CONFIG := PoolConfig(1, 2, 30, 10, false)
  const PAIRS := [Pair(("a", "b"), ("a", "b"), 10, (0, 0), 30), Pair(("b", "c"), ("c", "b"), 11, (0, 0), 30)]
  const ROUTE: Route := [("a", "b"), ("b", "c")]
  const USER: Addr := 3
  const OFFER := Coin("a", 1000)
  const EXPECTATION := Some(Router.Expectation(995, 0))

  function Before(): World {
    World(map["a" := map[10 := 1_000_000, USER := 1000],
              "b" := map[10 := 1_000_000, 11 := 1_000_000],
              "c" := map[11 := 1_000_000]],
          map[10 := PoolInfo(PairId("a", "b"), CONFIG), 11 := PoolInfo(PairId("b", "c"), CONFIG)],
          4, Router.RouterStore(None, []))
  }

  /** The two pools' contracts. */
  function Contracts(): States {
    map[10 := PoolState(PairId("a", "b"), "ab", Amounts(1_000_000, 1_000_000), 1_000_000, CONFIG, map[5 := 1_000_000]),
        11 := PoolState(PairId("b", "c"), "bc", Amounts(1_000_000, 1_000_000), 1_000_000, CONFIG, map[5 := 1_000_000])]
  }

  lemma Numbers()
    ensures CalcSwap(Amounts(1_000_000, 1_000_000), 1000, 30, 10, false, None, DEFAULT_SLIPPAGE)
         == Ok(SwapResult(997, 0, 3, 1))
    ensures CalcSwap(Amounts(1_000_000, 1_000_000), 997, 30, 10, false, None, DEFAULT_SLIPPAGE)
         == Ok(SwapResult(995, 0, 2, 0))
  {
    assert Kept(1_000_000, 1_000_000, 1000) == 999_000;
    assert Kept(1_000_000, 1_000_000, 997) == 999_003;
    assert NaiveResult(1_000_000, 1_000_000, 1000) == 1000;
    assert NaiveResult(1_000_000, 1_000_000, 997) == 997;
  }

  lemma MarketIsValid()
    ensures ValidMarket(PAIRS, map[])
  {
    assert WellFormed(PAIRS[0]) && WellFormed(PAIRS[1]);
    assert !Joins(PAIRS[0], PAIRS[1].key.0, PAIRS[1].key.1);
  }

  lemma PairsAreDeployed()
    ensures Deployed(PAIRS, Before().pools)
  {
    assert PAIRS[0].address == 10 && PAIRS[1].address == 11;
  }

  lemma ContractsAreDeployed()
    ensures AtPools(Contracts(), Before().ledger, Before().pools)
  {
    assert IsPoolAt(Contracts()[10], Before().ledger, Before().pools, 10);
    assert IsPoolAt(Contracts()[11], Before().ledger, Before().pools, 11);
  }

  lemma Setting()
    ensures Ready(Before(), Contracts(), PAIRS, map[], USER)
    ensures Holding(Before().ledger, USER, "a") == 1000 && Holding(Before().ledger, USER, "c") == 0
    ensures Holding(Before().ledger, 2, "b") == 0
  {
    MarketIsValid();
    PairsAreDeployed();
    ContractsAreDeployed();
  }

  lemma RouteIsChain()
    ensures IsChain(TradeMapOf(PAIRS), ROUTE, "a", "c") && IsSimple(ROUTE)
  {
    EdgesArePairs(PAIRS, "a", "b");
    EdgesArePairs(PAIRS, "b", "c");
    assert Joins(PAIRS[0], "a", "b") && Joins(PAIRS[1], "b", "c");
  }

  lemma FirstSwap()
    ensures var hop := MachineHop(Contracts(), 4, 10, None, OFFER);
            && hop.Ok? && hop.value.coin == Coin("b", 997) && hop.value.fees == [Fee(2, Coin("b", 1))]
            && hop.value.states.Keys == {10, 11} && hop.value.states[11] == Contracts()[11]
  {
    Numbers();
    var p := Contracts()[10];
    assert PricedSwap(p, [OFFER], None, None) == Ok((OneOfPair(1000, false), SwapResult(997, 0, 3, 1)));
    SwapStepPays(p, 4, None, OFFER, "b", 4);
    SwapStepPays(p, 4, None, OFFER, "b", 2);
  }

  lemma SecondSwap(states: States)
    requires 11 in states && states[11] == Contracts()[11]
    ensures var hop := MachineHop(states, 4, 11, None, Coin("b", 997));
            hop.Ok? && hop.value.coin == Coin("c", 995) && hop.value.fees == [Fee(2, Coin("c", 0))]
  {
    Numbers();
    var p := Contracts()[11];
    assert PricedSwap(p, [Coin("b", 997)], None, None) == Ok((OneOfPair(997, false), SwapResult(995, 0, 2, 0)));
    SwapStepPays(p, 4, None, Coin("b", 997), "c", 4);
    SwapStepPays(p, 4, None, Coin("b", 997), "c", 2);
  }

  lemma BothSwaps()
    ensures var run := RouteRun(Contracts(), 4, [10, 11], None, OFFER);
            && run.Ok? && run.value.coin == Coin("c", 995)
            && run.value.fees == [Fee(2, Coin("b", 1)), Fee(2, Coin("c", 0))]
  {
    FirstSwap();
    var first := MachineHop(Contracts(), 4, 10, None, OFFER).value;
    SecondSwap(first.states);
    assert [10, 11][1..] == [11] && [11][1..] == [] && [11][0] == 11;
    assert MachineRun(first.states, 4, 11, None, [], None, Coin("b", 997))
        == MachineHop(first.states, 4, 11, None, Coin("b", 997));
  }

  lemma PathIs()
    ensures Swappers(PAIRS, map[], ROUTE) == Some([10, 11])
  {
    assert GetPair(PAIRS, map[], ROUTE[0]) == Some(PAIRS[0]);
    assert GetPair(PAIRS, map[], ROUTE[1]) == Some(PAIRS[1]);
    var path := Swappers(PAIRS, map[], ROUTE).value;
    assert path == [10, 11];
  }

  lemma ItSucceeds()
    ensures Succeeds(Before(), Contracts(), USER, OFFER, [10, 11], None, EXPECTATION, Router.Direct(USER))
  {
    BothSwaps();
  }

  /** What the routing theorems say of a route whose outcome is known. */
  lemma Swapped(w: World, states: States, pairs: seq<Pair>, route: Route, user: Addr, offer: Coin, path: seq<Addr>,
                expectation: Option<Router.Expectation>, coin: Coin, a: Addr, d: Denom)
    requires Ready(w, states, pairs, map[], user) && a !in w.pools
    requires IsChain(TradeMapOf(pairs), route, offer.denom, coin.denom) && IsSimple(route)
    requires Swappers(pairs, map[], route) == Some(path) && path != []
    requires Succeeds(w, states, user, offer, path, None, expectation, Router.Direct(user))
    requires RouteRun(states, w.me, path, None, offer).value.coin == coin
    ensures var tx := Transact(w, user, [offer], path, None, expectation, Router.Direct(user));
            && tx.Ok? && tx.value.router == Router.RouterStore(None, [])
            && Holding(tx.value.ledger, a, d) + (if a == user then Part(offer, d) else 0)
               == Holding(w.ledger, a, d) + (if a == user then Part(coin, d) else 0)
                  + FeesTo(RouteRun(states, w.me, path, None, offer).value.fees, a, d)
  {
    var p := RoutedOutcome(w, states, pairs, map[], user, offer, coin.denom, route, None, expectation,
                           Router.Direct(user));
    RoutedDelivery(w, states, pairs, map[], user, offer, coin.denom, route, path, None, expectation,
                   Router.Direct(user));
  }

  lemma {:induction false} FeesTwo(f: Fee, g: Fee, a: Addr, d: Denom)
    ensures FeesTo([f, g], a, d) == (if f.to == a then Part(f.coin, d) else 0) + (if g.to == a then Part(g.coin, d) else 0)
  {
    assert [f, g][1..] == [g] && [g][1..] == [];
    assert FeesTo([g], a, d) == (if g.to == a then Part(g.coin, d) else 0);
  }

  /** An outside account after the two hops. */
  lemma AfterHops(w: World, a: Addr, d: Denom)
    requires w == Before() && a !in w.pools
    ensures var tx := Transact(w, USER, [OFFER], [10, 11], None, EXPECTATION, Router.Direct(USER));
            && tx.Ok? && tx.value.router == Router.RouterStore(None, [])
            && Holding(tx.value.ledger, a, d) + (if a == USER then Part(OFFER, d) else 0)
               == Holding(w.ledger, a, d) + (if a == USER then Part(Coin("c", 995), d) else 0)
                  + (if a == 2 then Part(Coin("b", 1), d) + Part(Coin("c", 0), d) else 0)
  {
    Setting();
    RouteIsChain();
    PathIs();
    BothSwaps();
    ItSucceeds();
    Swapped(w, Contracts(), PAIRS, ROUTE, USER, OFFER, [10, 11], EXPECTATION, Coin("c", 995), a, d);
    FeesTwo(Fee(2, Coin("b", 1)), Fee(2, Coin("c", 0)), a, d);
  }

  /**
   A thousand a's through two pools arrive as exactly the 995 c's that were asked for, and the first pool's
   fee receiver gets its one b.
   */
  lemma TwoHops()
    ensures Swappers(PAIRS, map[], ROUTE) == Some([10, 11])
    ensures var tx := Transact(Before(), USER, [OFFER], [10, 11], None, EXPECTATION, Router.Direct(USER));
            && tx.Ok? && tx.value.router == Router.RouterStore(None, [])
            && Holding(tx.value.ledger, USER, "a") == 0 && Holding(tx.value.ledger, USER, "c") == 995
            && Holding(tx.value.ledger, 2, "b") == 1
  {
    PathIs();
    Setting();
    AfterHops(Before(), USER, "a");
    AfterHops(Before(), USER, "c");
    AfterHops(Before(), 2, "b");
  }
}
