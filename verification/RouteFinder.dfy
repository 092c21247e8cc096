/**
 The depth-first route search over the trade graph, with one visited set shared by all branches
 (`#resolveMultiSwapRoute` in swap_market.ts).
 */
module RouteFinder {
  import opened Results
  import opened Bank

  /** For each denom, the denoms it can be traded with directly, in the order the pairs were listed. */
  type TradeMap = map<Denom, seq<Denom>>

  /** One direct exchange: what goes in and what comes out. */
  type Hop = (Denom, Denom)

  type Route = seq<Hop>

  predicate Adjacent(g: TradeMap, a: Denom, b: Denom) {
    a in g && b in g[a]
  }

  // ---- The search, as a function of the visited set ----

  datatype Found = Found(route: Option<Route>, seen: set<Denom>)

  function Shorter(best: Option<Route>, other: Option<Route>): Option<Route> {
    if other.Some? && (best.None? || |best.value| > |other.value|) then other else best
  }

  function Resolve(g: TradeMap, from: Denom, to: Denom, seen: set<Denom>): (r: Found)
    ensures seen <= r.seen
    ensures r.route.Some? ==> r.route.value != [] && r.route.value[0].0 == from
    decreases g.Keys - seen, 0
  {
    if from in seen then Found(None, seen)
    else if from !in g then Found(None, seen + {from})
    else
      assert g.Keys - (seen + {from}) < g.Keys - seen by {
        assert from in g.Keys - seen;
      }
      ResolveFrom(g, from, to, seen + {from}, 0, None)
  }

  /** The loop over the neighbours of `from`, from the i-th on, with the best sub-route so far. */
  function ResolveFrom(g: TradeMap, from: Denom, to: Denom, seen: set<Denom>, i: nat, best: Option<Route>): (r: Found)
    requires from in g && i <= |g[from]|
    requires best.Some? ==> best.value != []
    ensures seen <= r.seen
    ensures r.route.Some? ==> r.route.value != [] && r.route.value[0].0 == from
    decreases g.Keys - seen, 1 + |g[from]| - i
  {
    if i == |g[from]| then
      Found(if best.None? then None else Some([(from, best.value[0].0)] + best.value), seen)
    else if g[from][i] == to then Found(Some([(from, to)]), seen)
    else
      var sub := Resolve(g, g[from][i], to, seen);
      assert g.Keys - sub.seen <= g.Keys - seen;
      ResolveFrom(g, from, to, sub.seen, i + 1, Shorter(best, sub.route))
  }

  // ---- What a route is ----

  /** Consecutive direct exchanges leading from one denom to the other. */
  predicate IsChain(g: TradeMap, route: Route, from: Denom, to: Denom) {
    && route != [] && route[0].0 == from && route[|route| - 1].1 == to
    && (forall i :: 0 <= i < |route| ==> Adjacent(g, route[i].0, route[i].1))
    && (forall i :: 0 < i < |route| ==> route[i].0 == route[i - 1].1)
  }

  /** No denom is passed through twice. */
  predicate IsSimple(route: Route) {
    && (forall i, j :: 0 <= i < j < |route| ==> route[i].0 != route[j].0)
    && (forall i, j :: 0 <= i < |route| && 0 <= j < |route| && j == |route| - 1 ==> route[i].0 != route[j].1)
  }

  ghost predicate SourcesWithin(route: Route, inside: set<Denom>, outside: set<Denom>) {
    forall i :: 0 <= i < |route| ==> route[i].0 in inside && route[i].0 !in outside
  }

  /** A sound result for a search that started with `before` already visited. */
  ghost predicate Sound(g: TradeMap, r: Found, from: Denom, to: Denom, before: set<Denom>) {
    r.route.Some? ==>
      && IsChain(g, r.route.value, from, to)
      && IsSimple(r.route.value)
      && SourcesWithin(r.route.value, r.seen, before)
  }

  lemma Prepend(g: TradeMap, from: Denom, to: Denom, tail: Route, seen: set<Denom>, base: set<Denom>)
    requires tail != [] && Adjacent(g, from, tail[0].0) && from != to
    requires Sound(g, Found(Some(tail), seen), tail[0].0, to, base + {from})
    requires from in seen && from !in base
    ensures Sound(g, Found(Some([(from, tail[0].0)] + tail), seen), from, to, base)
  {
    var route := [(from, tail[0].0)] + tail;
    forall i | 0 <= i < |route|
      ensures Adjacent(g, route[i].0, route[i].1) && (i > 0 ==> route[i].0 == route[i - 1].1)
      ensures route[i].0 in seen && route[i].0 !in base && (i > 0 ==> route[i].0 != from)
    {
      if i > 0 {
        assert route[i] == tail[i - 1];
      }
    }
  }

  lemma ResolveSound(g: TradeMap, from: Denom, to: Denom, seen: set<Denom>)
    requires from != to
    ensures Sound(g, Resolve(g, from, to, seen), from, to, seen)
    decreases g.Keys - seen, 0
  {
    if from !in seen && from in g {
      assert from in g.Keys - seen;
      ResolveFromSound(g, from, to, seen + {from}, 0, None, seen);
    }
  }

  lemma ResolveFromSound(g: TradeMap, from: Denom, to: Denom, seen: set<Denom>, i: nat, best: Option<Route>,
                         base: set<Denom>)
    requires from in g && i <= |g[from]| && from != to
    requires from in seen && from !in base && base <= seen
    requires best.Some? ==> best.value != [] && Adjacent(g, from, best.value[0].0)
                            && Sound(g, Found(best, seen), best.value[0].0, to, base + {from})
    ensures Sound(g, ResolveFrom(g, from, to, seen, i, best), from, to, base)
    decreases g.Keys - seen, 1 + |g[from]| - i
  {
    if i == |g[from]| {
      if best.Some? {
        Prepend(g, from, to, best.value, seen, base);
      }
    } else if g[from][i] != to {
      var next := g[from][i];
      ResolveSound(g, next, to, seen);
      var sub := Resolve(g, next, to, seen);
      assert g.Keys - sub.seen <= g.Keys - seen;
      ResolveFromSound(g, from, to, sub.seen, i + 1, Shorter(best, sub.route), base);
    }
  }

  // ---- Null means there is no chain ----

  /** Everything next to the denoms in `inner` lies in `outer`, and `to` is not among it. */
  ghost predicate Exhausted(g: TradeMap, to: Denom, inner: set<Denom>, outer: set<Denom>) {
    forall u, v :: u in inner && Adjacent(g, u, v) ==> v in outer && v != to
  }

  lemma ResolveNull(g: TradeMap, from: Denom, to: Denom, seen: set<Denom>)
    requires from != to && Resolve(g, from, to, seen).route.None?
    ensures from in Resolve(g, from, to, seen).seen
    ensures Exhausted(g, to, Resolve(g, from, to, seen).seen - seen, Resolve(g, from, to, seen).seen)
    decreases g.Keys - seen, 0
  {
    if from !in seen && from in g {
      assert from in g.Keys - seen;
      ResolveFromNull(g, from, to, seen + {from}, 0);
    }
  }

  lemma ResolveFromNull(g: TradeMap, from: Denom, to: Denom, seen: set<Denom>, i: nat)
    requires from in g && i <= |g[from]| && from in seen
    requires ResolveFrom(g, from, to, seen, i, None).route.None?
    ensures var r := ResolveFrom(g, from, to, seen, i, None);
            && Exhausted(g, to, r.seen - seen, r.seen)
            && forall j :: i <= j < |g[from]| ==> g[from][j] in r.seen && g[from][j] != to
    decreases g.Keys - seen, 1 + |g[from]| - i
  {
    if i < |g[from]| {
      var next := g[from][i];
      var sub := Resolve(g, next, to, seen);
      if sub.route.Some? {
        OnceFound(g, from, to, sub.seen, i + 1, sub.route);
      }
      ResolveNull(g, next, to, seen);
      assert g.Keys - sub.seen <= g.Keys - seen;
      ResolveFromNull(g, from, to, sub.seen, i + 1);
    }
  }

  /** A sub-route once found is never lost to a later branch. */
  lemma OnceFound(g: TradeMap, from: Denom, to: Denom, seen: set<Denom>, i: nat, best: Option<Route>)
    requires from in g && i <= |g[from]| && best.Some? && best.value != []
    ensures ResolveFrom(g, from, to, seen, i, best).route.Some?
    decreases |g[from]| - i
  {
    if i < |g[from]| && g[from][i] != to {
      var sub := Resolve(g, g[from][i], to, seen);
      OnceFound(g, from, to, sub.seen, i + 1, Shorter(best, sub.route));
    }
  }

  /** A chain that starts in a set closed under exchange never leaves it. */
  lemma {:induction false} ChainStaysInside(g: TradeMap, route: Route, from: Denom, to: Denom, inside: set<Denom>, k: nat)
    requires IsChain(g, route, from, to) && from in inside && Exhausted(g, to, inside, inside)
    requires k < |route|
    ensures route[k].0 in inside
  {
    if k > 0 {
      ChainStaysInside(g, route, from, to, inside, k - 1);
      assert Adjacent(g, route[k - 1].0, route[k - 1].1);
    }
  }

  lemma NoChainFrom(g: TradeMap, from: Denom, to: Denom, inside: set<Denom>, route: Route)
    requires from in inside && Exhausted(g, to, inside, inside)
    ensures !IsChain(g, route, from, to)
  {
    if IsChain(g, route, from, to) {
      ChainStaysInside(g, route, from, to, inside, |route| - 1);
    }
  }

  ghost predicate Connected(g: TradeMap, from: Denom, to: Denom) {
    exists route :: IsChain(g, route, from, to)
  }

  /**
   The search from a clean visited set returns null exactly when no chain of direct exchanges connects
   the two denoms, and otherwise a chain that passes no denom twice; the sharing of the visited set
   between sibling branches loses nothing.
   */
  lemma ResolveIsCorrect(g: TradeMap, from: Denom, to: Denom)
    requires from != to
    ensures var r := Resolve(g, from, to, {}).route;
            && (r.None? <==> !Connected(g, from, to))
            && (r.Some? ==> IsChain(g, r.value, from, to) && IsSimple(r.value))
  {
    var r := Resolve(g, from, to, {});
    if r.route.Some? {
      ResolveSound(g, from, to, {});
    } else {
      ResolveNull(g, from, to, {});
      assert r.seen - {} == r.seen;
      forall route
        ensures !IsChain(g, route, from, to)
      {
        NoChainFrom(g, from, to, r.seen, route);
      }
    }
  }

  // ---- Direct exchanges and symmetry ----

  lemma DirectFrom(g: TradeMap, from: Denom, to: Denom, seen: set<Denom>, i: nat, best: Option<Route>, j: nat)
    requires from in g && i <= j < |g[from]| && g[from][j] == to
    requires best.Some? ==> best.value != []
    ensures ResolveFrom(g, from, to, seen, i, best).route == Some([(from, to)])
    decreases j - i
  {
    if g[from][i] != to {
      var sub := Resolve(g, g[from][i], to, seen);
      DirectFrom(g, from, to, sub.seen, i + 1, Shorter(best, sub.route), j);
    }
  }

  /** A direct exchange is always taken, however late it is listed. */
  lemma DirectIsOneHop(g: TradeMap, from: Denom, to: Denom)
    requires Adjacent(g, from, to)
    ensures Resolve(g, from, to, {}).route == Some([(from, to)])
  {
    var j :| 0 <= j < |g[from]| && g[from][j] == to;
    DirectFrom(g, from, to, {from}, 0, None, j);
    assert {} + {from} == {from};
  }

  ghost predicate IsSymmetric(g: TradeMap) {
    forall a, b :: Adjacent(g, a, b) ==> Adjacent(g, b, a)
  }

  function Turned(route: Route): (r: Route)
    ensures |r| == |route|
    ensures forall i :: 0 <= i < |route| ==> r[i] == (route[|route| - 1 - i].1, route[|route| - 1 - i].0)
  {
    seq(|route|, i requires 0 <= i < |route| => (route[|route| - 1 - i].1, route[|route| - 1 - i].0))
  }

  lemma TurnedIsChain(g: TradeMap, route: Route, from: Denom, to: Denom)
    requires IsSymmetric(g) && IsChain(g, route, from, to)
    ensures IsChain(g, Turned(route), to, from)
  {
    var r, n := Turned(route), |route|;
    forall i | 0 <= i < n
      ensures Adjacent(g, r[i].0, r[i].1) && (0 < i ==> r[i].0 == r[i - 1].1)
    {
      assert Adjacent(g, route[n - 1 - i].0, route[n - 1 - i].1);
      if 0 < i {
        assert route[n - i].0 == route[n - i - 1].1;
      }
    }
  }

  /** In a symmetric graph a route exists one way exactly when one exists the other way. */
  lemma RoutabilityIsSymmetric(g: TradeMap, from: Denom, to: Denom)
    requires IsSymmetric(g) && from != to
    ensures Resolve(g, from, to, {}).route.Some? <==> Resolve(g, to, from, {}).route.Some?
  {
    ResolveIsCorrect(g, from, to);
    ResolveIsCorrect(g, to, from);
    if Resolve(g, from, to, {}).route.Some? {
      TurnedIsChain(g, Resolve(g, from, to, {}).route.value, from, to);
    }
    if Resolve(g, to, from, {}).route.Some? {
      TurnedIsChain(g, Resolve(g, to, from, {}).route.value, to, from);
    }
  }

  /**
   Fewest hops are not promised beyond that (module `RouteLength` says when they are found): with the pairs
   a-b, b-c, c-t, a-c listed in this order, the first branch uses c up, and the route found from a to t has
   three hops where two would do.
   */
  lemma NotAlwaysShortest(a: Denom, b: Denom, c: Denom, t: Denom)
    requires a != b && a != c && a != t && b != c && b != t && c != t
    ensures var g: TradeMap := map[a := [b, c], b := [a, c], c := [b, t, a], t := [c]];
            && Resolve(g, a, t, {}).route == Some([(a, b), (b, c), (c, t)])
            && IsChain(g, [(a, c), (c, t)], a, t)
  {
    var g: TradeMap := map[a := [b, c], b := [a, c], c := [b, t, a], t := [c]];
    var ab, abc := {a} + {b}, {a} + {b} + {c};
    assert [(b, c)] + [(c, t)] == [(b, c), (c, t)];
    assert [(a, b)] + [(b, c), (c, t)] == [(a, b), (b, c), (c, t)];
    assert ResolveFrom(g, c, t, abc, 1, None) == Found(Some([(c, t)]), abc);
    assert ResolveFrom(g, c, t, abc, 0, None) == Found(Some([(c, t)]), abc);
    assert Resolve(g, c, t, ab) == Found(Some([(c, t)]), abc);
    assert ResolveFrom(g, b, t, abc, 2, Some([(c, t)])) == Found(Some([(b, c), (c, t)]), abc);
    assert ResolveFrom(g, b, t, ab, 1, None) == Found(Some([(b, c), (c, t)]), abc);
    assert ResolveFrom(g, b, t, ab, 0, None) == Found(Some([(b, c), (c, t)]), abc);
    assert Resolve(g, b, t, {a}) == Found(Some([(b, c), (c, t)]), abc);
    assert ResolveFrom(g, a, t, abc, 2, Some([(b, c), (c, t)])) == Found(Some([(a, b), (b, c), (c, t)]), abc);
    assert ResolveFrom(g, a, t, abc, 1, Some([(b, c), (c, t)])) == Found(Some([(a, b), (b, c), (c, t)]), abc);
    assert ResolveFrom(g, a, t, {a}, 0, None) == Found(Some([(a, b), (b, c), (c, t)]), abc);
    assert {} + {a} == {a};
  }

  // ---- The search as it is run ----

  /** The `Set` handed down through the recursion. */
  class SeenSet {
    var items: set<Denom>
    /** Every denom added, in order, and the number of searches entered. */
    ghost var added: seq<Denom>
    ghost var calls: nat

    ghost predicate Valid()
      reads this
    {
      && (forall d :: d in items <==> d in added)
      && (forall i, j :: 0 <= i < j < |added| ==> added[i] != added[j])
    }

    constructor ()
      ensures Valid() && items == {} && added == [] && calls == 0
    {
      items, added, calls := {}, [], 0;
    }

    method Add(d: Denom)
      requires Valid() && d !in items
      modifies this`items, this`added
      ensures Valid() && items == old(items) + {d} && added == old(added) + [d]
    {
      items := items + {d};
      added := added + [d];
    }
  }

  /** The neighbours listed for some denoms, altogether. */
  function Listed(g: TradeMap, denoms: seq<Denom>): nat {
    if denoms == [] then 0
    else Listed(g, denoms[..|denoms| - 1]) + if denoms[|denoms| - 1] in g then |g[denoms[|denoms| - 1]]| else 0
  }

  lemma {:induction false} ListedSplit(g: TradeMap, a: seq<Denom>, b: seq<Denom>)
    ensures Listed(g, a + b) == Listed(g, a) + Listed(g, b)
  {
    if b == [] {
      assert a + b == a;
    } else {
      assert (a + b)[..|a + b| - 1] == a + b[..|b| - 1];
      ListedSplit(g, a, b[..|b| - 1]);
    }
  }

  /**
   Computes the search function.  Each denom's neighbour list is walked at most once (a denom is added
   to the set just before, and never twice), so the number of calls is at most one more than the number
   of list entries: linear in the graph, not exponential.
   */
  method ResolveRoute(from: Denom, to: Denom, directPairs: TradeMap, alreadySeen: SeenSet) returns (route: Option<Route>)
    requires alreadySeen.Valid()
    modifies alreadySeen
    ensures alreadySeen.Valid() && old(alreadySeen.added) <= alreadySeen.added
    ensures Found(route, alreadySeen.items) == Resolve(directPairs, from, to, old(alreadySeen.items))
    ensures alreadySeen.calls + Listed(directPairs, old(alreadySeen.added))
            <= old(alreadySeen.calls) + 1 + Listed(directPairs, alreadySeen.added)
    decreases directPairs.Keys - alreadySeen.items
  {
    alreadySeen.calls := alreadySeen.calls + 1;
    if from in alreadySeen.items {
      return None;
    }
    ghost var before := alreadySeen.added;
    alreadySeen.Add(from);
    ListedSplit(directPairs, before, [from]);
    if from !in directPairs {
      return None;
    }
    var directTos := directPairs[from];
    assert from in directPairs.Keys - old(alreadySeen.items);
    var subResult: Option<Route> := None;
    var i := 0;
    while i < |directTos|
      invariant 0 <= i <= |directTos| && (subResult.Some? ==> subResult.value != [])
      invariant alreadySeen.Valid() && old(alreadySeen.items) + {from} <= alreadySeen.items
      invariant before + [from] <= alreadySeen.added
      invariant ResolveFrom(directPairs, from, to, alreadySeen.items, i, subResult)
                == Resolve(directPairs, from, to, old(alreadySeen.items))
      invariant alreadySeen.calls + Listed(directPairs, before + [from])
                <= old(alreadySeen.calls) + 1 + i + Listed(directPairs, alreadySeen.added)
    {
      var directTo := directTos[i];
      if directTo == to {
        return Some([(from, to)]);
      }
      assert directPairs.Keys - alreadySeen.items < directPairs.Keys - old(alreadySeen.items);
      var potential := ResolveRoute(directTo, to, directPairs, alreadySeen);
      if potential.Some? && (subResult.None? || |subResult.value| > |potential.value|) {
        subResult := potential;
      }
      i := i + 1;
    }
    if subResult.None? {
      return None;
    }
    route := Some([(from, subResult.value[0].0)] + subResult.value);
  }
}
