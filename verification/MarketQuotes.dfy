/** What the client's quotes mean, hop by hop and along a route, and how they compare with the contract's. */
module MarketQuotes {
  import opened Arith
  import opened Results
  import opened Bank
  import opened RouteFinder
  import opened Market
  import PoolCalc

  predicate IsFloor(q: int, n: int, d: int) {
    q * d <= n < (q + 1) * d
  }

  /** What a pair holds of the denom that goes in, and of the one that comes out. */
  function Held(p: Pair, from: Denom): nat {
    if from == p.assets.0 then p.deposits.0 else p.deposits.1
  }

  function Got(p: Pair, from: Denom): nat {
    if from == p.assets.0 then p.deposits.1 else p.deposits.0
  }

  /** `net` is what is left of the value after the pair's fee, rounded down; all of it without fees. */
  predicate IsNet(p: Pair, value: nat, net: nat, includeFees: bool) {
    if includeFees then IsFloor(net, value * (10_000 - p.totalFeeBps), 10_000) else net == value
  }

  /** `out` is the value, less the fee, times what comes out over what goes in, rounded down. */
  ghost predicate ConvertsTo(p: Pair, from: Denom, value: nat, out: nat, includeFees: bool) {
    exists net: nat :: IsNet(p, value, net, includeFees) && IsFloor(out, net * Got(p, from), Held(p, from))
  }

  lemma FloorIs(n: nat, d: nat)
    requires 0 < d
    ensures IsFloor(n / d, n, d)
  {
    DivBounds(n, d);
    Distribute(n / d, 1, d);
  }

  lemma NetIs(p: Pair, value: nat, includeFees: bool)
    requires p.totalFeeBps <= 10_000
    ensures IsNet(p, value, AfterFee(p, value, includeFees), includeFees)
  {
    FloorIs(value * (10_000 - p.totalFeeBps), 10_000);
  }

  /** One pair converts at the price of its deposits, from its first asset to its second or, inversely, back. */
  lemma PairConverts(p: Pair, value: nat, inverse: bool, includeFees: bool)
    requires WellFormed(p)
    ensures var r := PairExchangeValue(p, value, inverse, includeFees);
            var from := if inverse then p.assets.1 else p.assets.0;
            && (r.None? <==> Held(p, from) == 0)
            && (r.Some? ==> ConvertsTo(p, from, value, r.value, includeFees))
  {
    var net, from := AfterFee(p, value, includeFees), if inverse then p.assets.1 else p.assets.0;
    NetIs(p, value, includeFees);
    if 0 < Held(p, from) {
      FloorIs(net * Got(p, from), Held(p, from));
      assert IsFloor(net * Got(p, from) / Held(p, from), net * Got(p, from), Held(p, from));
    }
  }

  /** A value converts at the price of some pair of the market that joins the hop's denoms. */
  ghost predicate HopQuoted(pairs: seq<Pair>, hop: Hop, value: nat, next: nat, includeFees: bool) {
    exists p :: p in pairs && Joins(p, hop.0, hop.1) && ConvertsTo(p, hop.0, value, next, includeFees)
  }

  /** Each hop's value so converts to the next. */
  ghost predicate QuotedAlong(pairs: seq<Pair>, route: Route, values: seq<nat>, includeFees: bool) {
    && |values| == |route| + 1
    && forall i :: 0 <= i < |route| ==> HopQuoted(pairs, route[i], values[i], values[i + 1], includeFees)
  }

  lemma QuotedOn(pairs: seq<Pair>, route: Route, value: nat, rest: seq<nat>, includeFees: bool)
    requires route != [] && QuotedAlong(pairs, route[1..], rest, includeFees)
    requires HopQuoted(pairs, route[0], value, rest[0], includeFees)
    ensures QuotedAlong(pairs, route, [value] + rest, includeFees)
  {
    var values := [value] + rest;
    forall i | 0 <= i < |route|
      ensures HopQuoted(pairs, route[i], values[i], values[i + 1], includeFees)
    {
      if 0 < i {
        assert route[i] == route[1..][i - 1] && values[i] == rest[i - 1] && values[i + 1] == rest[i];
      }
    }
  }

  lemma QuoteFirst(pairs: seq<Pair>, names: map<Denom, Denom>, route: Route, value: nat, includeFees: bool)
    requires ValidMarket(pairs, names) && route != []
    requires forall i :: 0 <= i < |route| ==> Adjacent(TradeMapOf(pairs), route[i].0, route[i].1)
    ensures GetPair(pairs, names, route[0]).Some?
    ensures var p := GetPair(pairs, names, route[0]).value;
            var next := PairExchangeValue(p, value, p.assets.1 == route[0].0, includeFees);
            && p in pairs && WellFormed(p) && Joins(p, route[0].0, route[0].1)
            && QuoteAlong(pairs, names, route, value, includeFees)
               == if next.None? then None else QuoteAlong(pairs, names, route[1..], next.value, includeFees)
  {
    HopHasPair(pairs, names, route[0]);
    QuoteStep(pairs, names, route, value, includeFees, 0);
    assert route[0..] == route;
  }

  /** A quote along a route is the end of such a series of values. */
  lemma {:induction false} QuoteMeans(pairs: seq<Pair>, names: map<Denom, Denom>, route: Route, value: nat,
                                      includeFees: bool) returns (values: seq<nat>)
    requires ValidMarket(pairs, names)
    requires forall i :: 0 <= i < |route| ==> Adjacent(TradeMapOf(pairs), route[i].0, route[i].1)
    requires QuoteAlong(pairs, names, route, value, includeFees).Some?
    ensures QuotedAlong(pairs, route, values, includeFees)
    ensures values[0] == value && QuoteAlong(pairs, names, route, value, includeFees) == Some(values[|route|])
  {
    if route == [] {
      values := [value];
    } else {
      QuoteFirst(pairs, names, route, value, includeFees);
      var p := GetPair(pairs, names, route[0]).value;
      var next := PairExchangeValue(p, value, p.assets.1 == route[0].0, includeFees).value;
      PairConverts(p, value, p.assets.1 == route[0].0, includeFees);
      var rest := QuoteMeans(pairs, names, route[1..], next, includeFees);
      QuotedOn(pairs, route, value, rest, includeFees);
      values := [value] + rest;
    }
  }

  /** There is none exactly when the pair of some hop holds nothing of what goes in. */
  lemma {:induction false} NoQuote(pairs: seq<Pair>, names: map<Denom, Denom>, route: Route, value: nat,
                                   includeFees: bool)
    requires ValidMarket(pairs, names)
    requires forall i :: 0 <= i < |route| ==> Adjacent(TradeMapOf(pairs), route[i].0, route[i].1)
    ensures QuoteAlong(pairs, names, route, value, includeFees).None? <==>
            exists i :: 0 <= i < |route| && EmptyHop(pairs, names, route[i])
  {
    if route != [] {
      QuoteFirst(pairs, names, route, value, includeFees);
      var p := GetPair(pairs, names, route[0]).value;
      var next := PairExchangeValue(p, value, p.assets.1 == route[0].0, includeFees);
      PairConverts(p, value, p.assets.1 == route[0].0, includeFees);
      if next.Some? {
        NoQuote(pairs, names, route[1..], next.value, includeFees);
        if i :| 0 <= i < |route| && EmptyHop(pairs, names, route[i]) {
          assert 0 < i && EmptyHop(pairs, names, route[1..][i - 1]);
        }
        if i :| 0 <= i < |route[1..]| && EmptyHop(pairs, names, route[1..][i]) {
          assert EmptyHop(pairs, names, route[i + 1]);
        }
      } else {
        assert EmptyHop(pairs, names, route[0]);
      }
    }
  }

  predicate EmptyHop(pairs: seq<Pair>, names: map<Denom, Denom>, hop: Hop) {
    GetPair(pairs, names, hop).Some? && Held(GetPair(pairs, names, hop).value, hop.0) == 0
  }

  // ---- Against the contract ----

  /**
   At the balances a pool holds, the client's quote without fees is the contract's payout at the current price,
   and with fees at most the contract's infinite-liquidity quote: the client takes the fee off what goes in.
   */
  lemma QuoteAtMostContract(p: Pair, value: nat, inverse: bool, makerBps: nat)
    requires WellFormed(p)
    requires var balances := PoolCalc.Amounts(p.deposits.0, p.deposits.1);
             && 0 < balances.Side(inverse)
             && value * balances.Side(!inverse) / balances.Side(inverse) <= U128_MAX
             && PoolCalc.CalcNaiveSwap(balances, value, p.totalFeeBps, makerBps, inverse).Ok?
    ensures var balances := PoolCalc.Amounts(p.deposits.0, p.deposits.1);
            && PairExchangeValue(p, value, inverse, false)
               == Some(PoolCalc.NaiveResult(balances.Side(inverse), balances.Side(!inverse), value))
            && PairExchangeValue(p, value, inverse, true).Some?
            && PairExchangeValue(p, value, inverse, true).value
               <= PoolCalc.CalcNaiveSwap(balances, value, p.totalFeeBps, makerBps, inverse).value.resultAmount
  {
    var balances := PoolCalc.Amounts(p.deposits.0, p.deposits.1);
    var held, got := balances.Side(inverse), balances.Side(!inverse);
    var naive, net := value * got / held, AfterFee(p, value, true);
    FeeFirst(value, got, held, 10_000 - p.totalFeeBps, net, naive);
    FeeSplit(naive, p.totalFeeBps);
  }

  lemma FeeSplit(n: nat, bps: nat)
    requires bps <= 10_000
    ensures n * (10_000 - bps) <= 10_000 * (n - n * bps / 10_000)
    ensures n * bps / 10_000 <= n
  {
    DivBounds(n * bps, 10_000);
    Distribute(10_000 - bps, bps, n);
  }

  /** Rounding the fee off the input first loses at least as much. */
  lemma FeeFirst(value: nat, got: nat, held: nat, keep: nat, net: nat, naive: nat)
    requires 0 < held && keep <= 10_000 && net == value * keep / 10_000 && naive == value * got / held
    ensures forall kept :: naive * keep <= 10_000 * kept ==> net * got / held <= kept
  {
    DivBounds(value * keep, 10_000);
    DivBounds(value * got, held);
    var out := net * got / held;
    DivBounds(net * got, held);
    forall kept | naive * keep <= 10_000 * kept
      ensures out <= kept
    {
      FeeFirstArith(value, got, held, keep, net, naive, out, kept);
    }
  }

  lemma FeeFirstArith(value: nat, got: nat, held: nat, keep: nat, net: nat, naive: nat, out: nat, kept: int)
    requires 0 < held && keep <= 10_000
    requires net * 10_000 <= value * keep && value * got < naive * held + held && out * held <= net * got
    requires naive * keep <= 10_000 * kept
    ensures out <= kept
  {
    // out * held * 10000 <= value * keep * got < (naive + 1) * held * keep <= held * 10000 * (kept + 1)
    MulMono(out * held, net * got, 10_000);
    MulMono(net * 10_000, value * keep, got);
    Assoc(net, got, 10_000);
    Assoc(value, keep, got);
    MulMono(value * got, naive * held + held - 1, keep);
    Strictly(naive, held, keep, kept, out);
  }

  lemma Strictly(naive: nat, held: nat, keep: nat, kept: int, out: nat)
    requires 0 < held && keep <= 10_000 && naive * keep <= 10_000 * kept
    requires (out * held) * 10_000 <= (naive * held + held - 1) * keep
    ensures out <= kept
  {
    if kept < out {
      MulMono(kept + 1, out, held);
      Distribute(kept, 1, held);
      MulMono(naive * keep, 10_000 * kept, held);
      Assoc(naive, keep, held);
      Assoc(10_000, kept, held);
      Distribute(naive * held, held - 1, keep);
      MulMono(keep, 10_000, held - 1);
      assert false;
    }
  }
}
