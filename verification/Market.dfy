/** The client's view of the market: its pairs, the trade map, routes and quotes (swap_market.ts). */
module Market {
  import opened Results
  import opened Bank
  import opened RouteFinder

  /** A pool as the client knows it; the key is its denoms in canonical order, the assets in marketing order. */
  datatype Pair = Pair(
    key: Hop,
    assets: Hop,
    address: Addr,
    deposits: (nat, nat),
    totalFeeBps: nat
  )

  predicate Joins(p: Pair, a: Denom, b: Denom) {
    p.assets == (a, b) || p.assets == (b, a)
  }

  predicate WellFormed(p: Pair) {
    && p.assets.0 != p.assets.1
    && Joins(p, p.key.0, p.key.1)
    && p.totalFeeBps <= 10_000
  }

  // ---- The trade map ----

  function AddEdge(g: TradeMap, a: Denom, b: Denom): TradeMap {
    if a in g then g[a := g[a] + [b]] else g[a := [b]]
  }

  function TradeMapOf(pairs: seq<Pair>): TradeMap {
    if pairs == [] then map[] else
      var p := pairs[|pairs| - 1];
      AddEdge(AddEdge(TradeMapOf(pairs[..|pairs| - 1]), p.assets.0, p.assets.1), p.assets.1, p.assets.0)
  }

  lemma TradeMapNext(pairs: seq<Pair>, i: nat)
    requires i < |pairs|
    ensures TradeMapOf(pairs[..i + 1])
         == AddEdge(AddEdge(TradeMapOf(pairs[..i]), pairs[i].assets.0, pairs[i].assets.1),
                    pairs[i].assets.1, pairs[i].assets.0)
  {
    assert pairs[..i + 1][..i] == pairs[..i];
  }

  lemma EdgeAdded(g: TradeMap, a: Denom, b: Denom, d: Denom, e: Denom)
    ensures Adjacent(AddEdge(g, a, b), d, e) <==> Adjacent(g, d, e) || (d == a && e == b)
  {
  }

  /** Two denoms are adjacent in the trade map exactly when some pair joins them. */
  lemma {:induction false} EdgesArePairs(pairs: seq<Pair>, d: Denom, e: Denom)
    ensures Adjacent(TradeMapOf(pairs), d, e) <==> exists i :: 0 <= i < |pairs| && Joins(pairs[i], d, e)
  {
    if pairs != [] {
      var n := |pairs| - 1;
      var p, g := pairs[n], TradeMapOf(pairs[..n]);
      EdgesArePairs(pairs[..n], d, e);
      EdgeAdded(g, p.assets.0, p.assets.1, d, e);
      EdgeAdded(AddEdge(g, p.assets.0, p.assets.1), p.assets.1, p.assets.0, d, e);
      if i :| 0 <= i < |pairs| && Joins(pairs[i], d, e) && i < n {
        assert Joins(pairs[..n][i], d, e);
      }
      if i :| 0 <= i < n && Joins(pairs[..n][i], d, e) {
        assert Joins(pairs[i], d, e);
      }
    }
  }

  lemma TradeMapIsSymmetric(pairs: seq<Pair>)
    ensures IsSymmetric(TradeMapOf(pairs))
  {
    forall a, b | Adjacent(TradeMapOf(pairs), a, b)
      ensures Adjacent(TradeMapOf(pairs), b, a)
    {
      EdgesArePairs(pairs, a, b);
      EdgesArePairs(pairs, b, a);
      var i :| 0 <= i < |pairs| && Joins(pairs[i], a, b);
      assert Joins(pairs[i], b, a);
    }
  }

  /** The denoms a denom is paired with, one for each of its pairs, as they are listed. */
  function Partners(pairs: seq<Pair>, d: Denom): seq<Denom> {
    if pairs == [] then [] else
      var assets, rest := pairs[0].assets, Partners(pairs[1..], d);
      if d == assets.0 then [assets.1] + rest
      else if d == assets.1 then [assets.0] + rest
      else rest
  }

  lemma {:induction false} PartnersLast(pairs: seq<Pair>, p: Pair, d: Denom)
    ensures Partners(pairs + [p], d) == Partners(pairs, d) + Partners([p], d)
  {
    if pairs == [] {
      assert [] + [p] == [p];
    } else {
      assert (pairs + [p])[1..] == pairs[1..] + [p];
      PartnersLast(pairs[1..], p, d);
    }
  }

  /** So the trade map lists a denom's neighbours in the order of the pairs. */
  lemma {:induction false} NeighboursInOrder(pairs: seq<Pair>, d: Denom)
    requires forall i :: 0 <= i < |pairs| ==> WellFormed(pairs[i])
    ensures var g := TradeMapOf(pairs); Partners(pairs, d) == if d in g then g[d] else []
  {
    if pairs != [] {
      var n := |pairs| - 1;
      NeighboursInOrder(pairs[..n], d);
      assert pairs == pairs[..n] + [pairs[n]];
      PartnersLast(pairs[..n], pairs[n], d);
      assert [pairs[n]][1..] == [] && WellFormed(pairs[n]);
    }
  }

  // ---- Looking pairs up ----

  function FindKey(pairs: seq<Pair>, key: Hop): (r: Option<Pair>)
    ensures r.Some? <==> exists i :: 0 <= i < |pairs| && pairs[i].key == key
    ensures r.Some? ==> r.value in pairs && r.value.key == key
  {
    if pairs == [] then None
    else if pairs[0].key == key then Some(pairs[0])
    else
      assert forall i :: 0 < i < |pairs| ==> pairs[i] == pairs[1..][i - 1];
      FindKey(pairs[1..], key)
  }

  /** Denoms of wrappable tokens are looked up under their wrapped name. */
  function Wrapped(names: map<Denom, Denom>, d: Denom): Denom {
    if d in names && names[d] != "" then names[d] else d
  }

  /** `getPair(hop, true)`. */
  function GetPair(pairs: seq<Pair>, names: map<Denom, Denom>, hop: Hop): Option<Pair> {
    var a, b := Wrapped(names, hop.0), Wrapped(names, hop.1);
    var direct := FindKey(pairs, (a, b));
    if direct.Some? then direct else FindKey(pairs, (b, a))
  }

  /** What refreshing from the factory leaves: one pair per key, and pool assets under their final names. */
  ghost predicate ValidMarket(pairs: seq<Pair>, names: map<Denom, Denom>) {
    && (forall i :: 0 <= i < |pairs| ==> WellFormed(pairs[i]))
    && (forall i, j :: 0 <= i < j < |pairs| ==> !Joins(pairs[i], pairs[j].key.0, pairs[j].key.1))
    && (forall i, j :: 0 <= i < j < |pairs| ==> pairs[i].address != pairs[j].address)
    && (forall i :: 0 <= i < |pairs| ==>
          Wrapped(names, pairs[i].assets.0) == pairs[i].assets.0 && Wrapped(names, pairs[i].assets.1) == pairs[i].assets.1)
    && (forall d :: d in names ==> names[d] != "" && Wrapped(names, names[d]) == names[d])
  }

  /** No asset that can be traded has another, wrapped name; every other name has one. */
  lemma TradedNames(pairs: seq<Pair>, names: map<Denom, Denom>, d: Denom)
    requires ValidMarket(pairs, names)
    ensures Wrapped(names, d) == if d in names then names[d] else d
    ensures (exists e :: Adjacent(TradeMapOf(pairs), d, e)) && d in names ==> names[d] == d
  {
    if e :| Adjacent(TradeMapOf(pairs), d, e) {
      EdgesArePairs(pairs, d, e);
    }
  }

  lemma KeyedPair(pairs: seq<Pair>, names: map<Denom, Denom>, hop: Hop, i: nat)
    requires forall k :: 0 <= k < |pairs| ==> WellFormed(pairs[k])
    requires i < |pairs| && Joins(pairs[i], hop.0, hop.1)
    requires Wrapped(names, hop.0) == hop.0 && Wrapped(names, hop.1) == hop.1
    ensures GetPair(pairs, names, hop).Some?
    ensures var p := GetPair(pairs, names, hop).value; p in pairs && WellFormed(p) && Joins(p, hop.0, hop.1)
  {
    assert pairs[i].key == hop || pairs[i].key == (hop.1, hop.0);
    var p := GetPair(pairs, names, hop).value;
    var k :| 0 <= k < |pairs| && pairs[k] == p;
  }

  /** Every hop along trade-map edges has its pair, found whichever way round it is stored. */
  lemma HopHasPair(pairs: seq<Pair>, names: map<Denom, Denom>, hop: Hop)
    requires ValidMarket(pairs, names) && Adjacent(TradeMapOf(pairs), hop.0, hop.1)
    ensures GetPair(pairs, names, hop).Some?
    ensures var p := GetPair(pairs, names, hop).value; p in pairs && WellFormed(p) && Joins(p, hop.0, hop.1)
  {
    EdgesArePairs(pairs, hop.0, hop.1);
    var i :| 0 <= i < |pairs| && Joins(pairs[i], hop.0, hop.1);
    KeyedPair(pairs, names, hop, i);
  }

  // ---- Quotes at current prices ----

  /** The pair's deposit of one of its denoms. */
  function DepositOf(p: Pair, d: Denom): nat {
    if d == p.assets.0 then p.deposits.0 else p.deposits.1
  }

  function AfterFee(p: Pair, value: nat, includeFees: bool): nat
    requires p.totalFeeBps <= 10_000
  {
    if includeFees then value * (10_000 - p.totalFeeBps) / 10_000 else value
  }

  function Converted(net: nat, got: nat, held: nat): nat
    requires 0 < held
  {
    net * got / held
  }

  /** `SwapMarketPair.exchangeValue`: `None` is the division by an empty deposit. */
  function PairExchangeValue(p: Pair, value: nat, inverse: bool, includeFees: bool): Option<nat>
    requires p.totalFeeBps <= 10_000
  {
    var net := AfterFee(p, value, includeFees);
    if inverse then
      if p.deposits.1 == 0 then None else Some(Converted(net, p.deposits.0, p.deposits.1))
    else
      if p.deposits.0 == 0 then None else Some(Converted(net, p.deposits.1, p.deposits.0))
  }

  /** A quote along a route: each hop converts from its own first denom to its own second. */
  function QuoteAlong(pairs: seq<Pair>, names: map<Denom, Denom>, route: Route, value: nat, includeFees: bool): Option<nat>
    requires ValidMarket(pairs, names)
    requires forall i :: 0 <= i < |route| ==> Adjacent(TradeMapOf(pairs), route[i].0, route[i].1)
  {
    if route == [] then Some(value) else
      HopHasPair(pairs, names, route[0]);
      var p := GetPair(pairs, names, route[0]).value;
      var held := DepositOf(p, route[0].0);
      if held == 0 then None else
        QuoteAlong(pairs, names, route[1..],
                   Converted(AfterFee(p, value, includeFees), DepositOf(p, route[0].1), held), includeFees)
  }

  lemma {:induction false} QuoteStep(pairs: seq<Pair>, names: map<Denom, Denom>, route: Route, value: nat,
                                     includeFees: bool, i: nat)
    requires ValidMarket(pairs, names) && i < |route|
    requires forall k :: 0 <= k < |route| ==> Adjacent(TradeMapOf(pairs), route[k].0, route[k].1)
    ensures GetPair(pairs, names, route[i]).Some? && WellFormed(GetPair(pairs, names, route[i]).value)
    ensures Joins(GetPair(pairs, names, route[i]).value, route[i].0, route[i].1)
    ensures var p := GetPair(pairs, names, route[i]).value;
            var next := PairExchangeValue(p, value, p.assets.1 == route[i].0, includeFees);
            QuoteAlong(pairs, names, route[i..], value, includeFees)
            == if next.None? then None else QuoteAlong(pairs, names, route[i + 1..], next.value, includeFees)
  {
    HopHasPair(pairs, names, route[i]);
    assert route[i..][0] == route[i] && route[i..][1..] == route[i + 1..];
  }

  /** The other denom of a hop's pair is where the next hop starts, or where the chain ends. */
  lemma HopEnds(pairs: seq<Pair>, names: map<Denom, Denom>, route: Route, from: Denom, to: Denom, i: nat)
    requires ValidMarket(pairs, names) && IsChain(TradeMapOf(pairs), route, from, to) && i < |route|
    ensures GetPair(pairs, names, route[i]).Some?
    ensures var p := GetPair(pairs, names, route[i]).value;
            (if p.assets.0 == route[i].0 then p.assets.1 else p.assets.0)
            == if i + 1 < |route| then route[i + 1].0 else to
  {
    HopHasPair(pairs, names, route[i]);
    assert i + 1 < |route| ==> route[i + 1].0 == route[i].1;
  }

  // ---- The market object ----

  class SwapMarket {
    /** `#assetPairMap` in insertion order. */
    var pairs: seq<Pair>
    /** `#unwrappedToWrapped`. */
    var names: map<Denom, Denom>

    ghost predicate Valid()
      reads this
    {
      ValidMarket(pairs, names)
    }

    constructor (pairs: seq<Pair>, names: map<Denom, Denom>)
      requires ValidMarket(pairs, names)
      ensures Valid() && this.pairs == pairs && this.names == names
    {
      this.pairs, this.names := pairs, names;
    }

    method GetDirectTradeMap() returns (result: TradeMap)
      ensures result == TradeMapOf(pairs)
    {
      result := map[];
      for i := 0 to |pairs|
        invariant result == TradeMapOf(pairs[..i])
      {
        TradeMapNext(pairs, i);
        var p := pairs[i];
        if p.assets.0 in result {
          result := result[p.assets.0 := result[p.assets.0] + [p.assets.1]];
        } else {
          result := result[p.assets.0 := [p.assets.1]];
        }
        if p.assets.1 in result {
          result := result[p.assets.1 := result[p.assets.1] + [p.assets.0]];
        } else {
          result := result[p.assets.1 := [p.assets.0]];
        }
      }
      assert pairs[..|pairs|] == pairs;
    }

    /**
     A route between two assets: empty when they are the same, null exactly when no chain of pools
     connects them, a simple chain of pools otherwise, and the direct pool whenever there is one.
     */
    method ResolveMultiSwapRoute(fromIn: Denom, toIn: Denom) returns (route: Option<Route>)
      ensures var from, to, g := Wrapped(names, fromIn), Wrapped(names, toIn), TradeMapOf(pairs);
              && (from == to ==> route == Some([]))
              && (from != to ==>
                    && route == Resolve(g, from, to, {}).route
                    && (route.None? <==> !Connected(g, from, to))
                    && (route.Some? ==> IsChain(g, route.value, from, to) && IsSimple(route.value))
                    && (Adjacent(g, from, to) ==> route == Some([(from, to)])))
    {
      var from, to := Wrapped(names, fromIn), Wrapped(names, toIn);
      if from == to {
        return Some([]);
      }
      var directPairs := GetDirectTradeMap();
      var seen := new SeenSet();
      route := ResolveRoute(from, to, directPairs, seen);
      ResolveIsCorrect(directPairs, from, to);
      if Adjacent(directPairs, from, to) {
        DirectIsOneHop(directPairs, from, to);
      }
    }

    /**
     The conversion loop, with the denom it keeps track of: though each pair is read the way round that
     record says, every hop is converted from its own first denom to its own second, and the record ends
     at the asked one.
     */
    method FollowRoute(route: Route, valueIn: nat, from: Denom, to: Denom, includeFees: bool)
      returns (r: Option<nat>, fromDenom: Denom)
      requires Valid() && IsChain(TradeMapOf(pairs), route, from, to)
      ensures r == QuoteAlong(pairs, names, route, valueIn, includeFees)
      ensures r.Some? ==> fromDenom == to
    {
      var value := valueIn;
      fromDenom := from;
      var i := 0;
      assert route[0..] == route;
      while i < |route|
        invariant 0 <= i <= |route|
        invariant fromDenom == if i < |route| then route[i].0 else to
        invariant QuoteAlong(pairs, names, route[i..], value, includeFees)
                  == QuoteAlong(pairs, names, route, valueIn, includeFees)
      {
        QuoteStep(pairs, names, route, value, includeFees, i);
        HopEnds(pairs, names, route, from, to, i);
        var pair := GetPair(pairs, names, route[i]).value;
        var next := PairExchangeValue(pair, value, pair.assets.1 == fromDenom, includeFees);
        if next.None? {
          return None, fromDenom;
        }
        value := next.value;
        fromDenom := if pair.assets.0 == fromDenom then pair.assets.1 else pair.assets.0;
        i := i + 1;
      }
      r := Some(value);
    }

    /** A quote ignoring liquidity: `Ok(None)` exactly when there is no route, an error for an empty deposit. */
    method ExchangeValue(valueIn: nat, fromIn: Denom, toIn: Denom, includeFees: bool)
      returns (r: Result<Option<nat>, ()>)
      requires Valid()
      ensures var from, to, g := Wrapped(names, fromIn), Wrapped(names, toIn), TradeMapOf(pairs);
              && (from == to ==> r == Ok(Some(valueIn)))
              && (from != to && !Connected(g, from, to) ==> r == Ok(None))
              && (from != to && Connected(g, from, to) ==>
                    && Resolve(g, from, to, {}).route.Some?
                    && IsChain(g, Resolve(g, from, to, {}).route.value, from, to)
                    && var quote := QuoteAlong(pairs, names, Resolve(g, from, to, {}).route.value, valueIn, includeFees);
                       r == if quote.None? then Err(()) else Ok(Some(quote.value)))
    {
      var fromDenom, toDenom := Wrapped(names, fromIn), Wrapped(names, toIn);
      if fromDenom == toDenom {
        return Ok(Some(valueIn));
      }
      var route := ResolveMultiSwapRoute(fromDenom, toDenom);
      if route.None? || route.value == [] {
        return Ok(None);
      }
      var value, _ := FollowRoute(route.value, valueIn, fromDenom, toDenom, includeFees);
      r := if value.None? then Err(()) else Ok(value);
    }
  }
}
