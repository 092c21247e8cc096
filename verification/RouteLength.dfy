/**
 How short the routes found are.  The search is depth first and never visits a denom twice, so a short chain
 is missed exactly when an earlier branch gets to one of its denoms first.
 */
module RouteLength {
  import opened Results
  import opened Bank
  import opened RouteFinder

  // ---- Where the search goes ----

  function FirstAt(list: seq<Denom>, d: Denom): (k: nat)
    ensures k <= |list| && d !in list[..k]
    ensures k < |list| <==> d in list
    ensures k < |list| ==> list[k] == d
  {
    if list == [] || list[0] == d then 0 else
      assert list == [list[0]] + list[1..];
      1 + FirstAt(list[1..], d)
  }

  lemma {:induction false} FirstIsEarliest(list: seq<Denom>, i: nat)
    requires i < |list|
    ensures FirstAt(list, list[i]) <= i
  {
    if 0 < i && list[0] != list[i] {
      FirstIsEarliest(list[1..], i - 1);
    }
  }

  /** The search goes on from `u` to the neighbours listed before `to`, and no further. */
  predicate Explores(g: TradeMap, to: Denom, u: Denom, v: Denom) {
    u in g && v in g[u][..FirstAt(g[u], to)]
  }

  ghost predicate IsWalk(g: TradeMap, to: Denom, walk: seq<Denom>, avoid: set<Denom>) {
    && walk != []
    && (forall i :: 0 <= i < |walk| ==> walk[i] !in avoid)
    && (forall i :: 0 <= i < |walk| - 1 ==> Explores(g, to, walk[i], walk[i + 1]))
  }

  /** The search could get from `u` to `v` without entering `avoid`. */
  ghost predicate Reaches(g: TradeMap, to: Denom, u: Denom, v: Denom, avoid: set<Denom>) {
    exists walk :: IsWalk(g, to, walk, avoid) && walk[0] == u && walk[|walk| - 1] == v
  }

  lemma ReachesSelf(g: TradeMap, to: Denom, u: Denom, avoid: set<Denom>)
    requires u !in avoid
    ensures Reaches(g, to, u, u, avoid)
  {
    assert IsWalk(g, to, [u], avoid);
  }

  lemma ReachesStep(g: TradeMap, to: Denom, u: Denom, v: Denom, w: Denom, avoid: set<Denom>)
    requires u !in avoid && Explores(g, to, u, v) && Reaches(g, to, v, w, avoid)
    ensures Reaches(g, to, u, w, avoid)
  {
    var walk :| IsWalk(g, to, walk, avoid) && walk[0] == v && walk[|walk| - 1] == w;
    assert IsWalk(g, to, [u] + walk, avoid);
  }

  lemma ReachesMore(g: TradeMap, to: Denom, u: Denom, v: Denom, avoid: set<Denom>, less: set<Denom>)
    requires less <= avoid && Reaches(g, to, u, v, avoid)
    ensures Reaches(g, to, u, v, less)
  {
    var walk :| IsWalk(g, to, walk, avoid) && walk[0] == u && walk[|walk| - 1] == v;
    assert IsWalk(g, to, walk, less);
  }

  // ---- What a search visits ----

  /** Everything newly visited can be reached from where the search started. */
  lemma VisitsReachable(g: TradeMap, from: Denom, to: Denom, seen: set<Denom>, v: Denom)
    requires v in Resolve(g, from, to, seen).seen && v !in seen
    ensures Reaches(g, to, from, v, seen)
    decreases g.Keys - seen, 0
  {
    ReachesSelf(g, to, from, seen);
    if from in g && v != from {
      assert from in g.Keys - seen;
      var j := BranchVisits(g, from, to, seen + {from}, 0, None, v);
      ReachesMore(g, to, g[from][j], v, seen + {from}, seen);
      assert g[from][j] in g[from][..FirstAt(g[from], to)];
      ReachesStep(g, to, from, g[from][j], v, seen);
    }
  }

  /** In the loop: from the neighbour of some remaining branch. */
  lemma BranchVisits(g: TradeMap, from: Denom, to: Denom, seen: set<Denom>, i: nat, best: Option<Route>, v: Denom)
    returns (j: nat)
    requires from in g && i <= FirstAt(g[from], to) && (best.Some? ==> best.value != [])
    requires v in ResolveFrom(g, from, to, seen, i, best).seen && v !in seen
    ensures i <= j < FirstAt(g[from], to) && Reaches(g, to, g[from][j], v, seen)
    decreases g.Keys - seen, 1 + |g[from]| - i
  {
    assert i < |g[from]| && g[from][i] != to ==> i < FirstAt(g[from], to);
    var sub := Resolve(g, g[from][i], to, seen);
    if v in sub.seen {
      VisitsReachable(g, g[from][i], to, seen, v);
      j := i;
    } else {
      assert g.Keys - sub.seen <= g.Keys - seen;
      j := BranchVisits(g, from, to, sub.seen, i + 1, Shorter(best, sub.route), v);
      ReachesMore(g, to, g[from][j], v, sub.seen, seen);
    }
  }

  /** The search goes on from each of `inner` to nothing outside `outer`. */
  ghost predicate Closed(g: TradeMap, to: Denom, inner: set<Denom>, outer: set<Denom>) {
    forall u, v :: u in inner && Explores(g, to, u, v) ==> v in outer
  }

  /** A search leaves nothing half explored. */
  lemma VisitsAll(g: TradeMap, from: Denom, to: Denom, seen: set<Denom>)
    ensures from in Resolve(g, from, to, seen).seen
    ensures Closed(g, to, Resolve(g, from, to, seen).seen - seen, Resolve(g, from, to, seen).seen)
    decreases g.Keys - seen, 0
  {
    if from !in seen && from in g {
      assert from in g.Keys - seen;
      BranchesVisitAll(g, from, to, seen + {from}, 0, None);
    }
  }

  lemma BranchesVisitAll(g: TradeMap, from: Denom, to: Denom, seen: set<Denom>, i: nat, best: Option<Route>)
    requires from in g && i <= FirstAt(g[from], to) && (best.Some? ==> best.value != [])
    ensures var all := ResolveFrom(g, from, to, seen, i, best).seen;
            && Closed(g, to, all - seen, all)
            && forall j :: i <= j < FirstAt(g[from], to) ==> g[from][j] in all
    decreases g.Keys - seen, 1 + |g[from]| - i
  {
    if i < FirstAt(g[from], to) {
      assert g[from][i] in g[from][..FirstAt(g[from], to)];
      VisitsAll(g, g[from][i], to, seen);
      var sub := Resolve(g, g[from][i], to, seen);
      assert g.Keys - sub.seen <= g.Keys - seen;
      BranchesVisitAll(g, from, to, sub.seen, i + 1, Shorter(best, sub.route));
    }
  }

  lemma {:induction false} StaysVisited(g: TradeMap, to: Denom, walk: seq<Denom>, k: nat, seen: set<Denom>,
                                        passed: set<Denom>)
    requires IsWalk(g, to, walk, passed) && k < |walk| && walk[0] in seen && Closed(g, to, seen - passed, seen)
    ensures walk[k] in seen
  {
    if 0 < k {
      StaysVisited(g, to, walk, k - 1, seen, passed);
      assert Explores(g, to, walk[k - 1], walk[k]);
    }
  }

  // ---- Chains no earlier branch cuts ----

  /** No neighbour of the chain's first denom listed before its second reaches the rest of it past what lies behind. */
  ghost predicate FirstHopClear(g: TradeMap, to: Denom, from: Denom, tail: Route, passed: set<Denom>) {
    && tail != [] && from in g && to !in g[from]
    && forall j, m :: 0 <= j < FirstAt(g[from], tail[0].0) && 0 <= m < |tail| ==>
         !Reaches(g, to, g[from][j], tail[m].0, passed + {from})
  }

  /** So along the whole chain; `passed` is what lies behind it. */
  ghost predicate Clear(g: TradeMap, to: Denom, route: Route, passed: set<Denom>)
    decreases |route|
  {
    |route| > 1 ==>
      && FirstHopClear(g, to, route[0].0, route[1..], passed)
      && Clear(g, to, route[1..], passed + {route[0].0})
  }

  // ---- A clear chain is never beaten by a longer one, nor by a later one of its length ----

  /** The same route, or one that at the first difference goes on to a denom listed earlier. */
  predicate NotLater(g: TradeMap, r: Route, route: Route)
    decreases |r|
  {
    || r == route
    || (&& r != [] && route != [] && r[0].0 == route[0].0 && r[0].0 in g
        && (|| FirstAt(g[r[0].0], r[0].1) < FirstAt(g[r[0].0], route[0].1)
            || (r[0].1 == route[0].1 && NotLater(g, r[1..], route[1..]))))
  }

  lemma NotLaterFrom(g: TradeMap, from: Denom, r: Route, tail: Route)
    requires from in g && r != [] && tail != []
    requires FirstAt(g[from], r[0].0) < FirstAt(g[from], tail[0].0) || (r[0].0 == tail[0].0 && NotLater(g, r, tail))
    ensures NotLater(g, [(from, r[0].0)] + r, [(from, tail[0].0)] + tail)
  {
    assert ([(from, r[0].0)] + r)[1..] == r && ([(from, tail[0].0)] + tail)[1..] == tail;
  }

  /** At least as good as a route: shorter, or as short and not later. */
  predicate AsGood(g: TradeMap, r: Option<Route>, route: Route) {
    r.Some? && |r.value| <= |route| && (|r.value| == |route| ==> NotLater(g, r.value, route))
  }

  ghost predicate Fresh(route: Route, seen: set<Denom>) {
    forall m :: 0 <= m < |route| ==> route[m].0 !in seen
  }

  lemma ClearIsAtMost(g: TradeMap, route: Route, from: Denom, to: Denom, seen: set<Denom>, passed: set<Denom>)
    requires from != to && IsChain(g, route, from, to) && IsSimple(route) && Clear(g, to, route, passed)
    requires passed <= seen && Fresh(route, seen)
    ensures AsGood(g, Resolve(g, from, to, seen).route, route)
    decreases |route|, 1, 0
  {
    assert Adjacent(g, route[0].0, route[0].1);
    if |route| == 1 {
      DirectFrom(g, from, to, seen + {from}, 0, None, FirstAt(g[from], to));
    } else {
      TailIsChain(g, route, from, to);
      ClearBranch(g, from, to, route[1..], seen + {from}, passed, 0, None);
      assert route == [(from, route[1].0)] + route[1..];
    }
  }

  lemma ClearBranch(g: TradeMap, from: Denom, to: Denom, tail: Route, seen: set<Denom>, passed: set<Denom>, i: nat,
                    best: Option<Route>)
    requires FirstHopClear(g, to, from, tail, passed) && tail[0].0 in g[from] && tail[0].0 != to
    requires IsChain(g, tail, tail[0].0, to) && IsSimple(tail) && Clear(g, to, tail, passed + {from})
    requires passed + {from} <= seen && Fresh(tail, seen)
    requires i <= FirstAt(g[from], tail[0].0)
    requires best.Some? ==> best.value != [] && FirstAt(g[from], best.value[0].0) < i
    ensures AsGood(g, ResolveFrom(g, from, to, seen, i, best).route, [(from, tail[0].0)] + tail)
    decreases |tail| + 1, 0, |g[from]| - i
  {
    var sub := Resolve(g, g[from][i], to, seen);
    if i < FirstAt(g[from], tail[0].0) {
      BranchKeepsFresh(g, from, to, tail, seen, passed, i);
      FirstIsEarliest(g[from], i);
      ClearBranch(g, from, to, tail, sub.seen, passed, i + 1, Shorter(best, sub.route));
    } else {
      var next := g[from][i];
      ClearIsAtMost(g, tail, next, to, seen, passed + {from});
      AfterBranch(g, from, to, tail, sub.seen, i, best, sub.route);
    }
  }

  /** The branch along the chain found something as good as the rest of it; nothing after makes it worse. */
  lemma AfterBranch(g: TradeMap, from: Denom, to: Denom, tail: Route, seen: set<Denom>, i: nat, best: Option<Route>,
                    found: Option<Route>)
    requires from in g && to !in g[from] && tail != [] && i == FirstAt(g[from], tail[0].0) < |g[from]|
    requires AsGood(g, found, tail) && found.value != [] && found.value[0].0 == tail[0].0
    requires best.Some? ==> best.value != [] && FirstAt(g[from], best.value[0].0) < i
    ensures AsGood(g, ResolveFrom(g, from, to, seen, i + 1, Shorter(best, found)).route, [(from, tail[0].0)] + tail)
  {
    var kept := Shorter(best, found);
    StaysShort(g, from, to, seen, i + 1, kept, |tail|);
    if |kept.value| == |tail| {
      NotLaterFrom(g, from, kept.value, tail);
    }
  }

  lemma BranchKeepsFresh(g: TradeMap, from: Denom, to: Denom, tail: Route, seen: set<Denom>, passed: set<Denom>, i: nat)
    requires FirstHopClear(g, to, from, tail, passed) && i < FirstAt(g[from], tail[0].0)
    requires passed + {from} <= seen && Fresh(tail, seen)
    ensures Fresh(tail, Resolve(g, g[from][i], to, seen).seen)
  {
    forall m | 0 <= m < |tail|
      ensures tail[m].0 !in Resolve(g, g[from][i], to, seen).seen
    {
      if tail[m].0 in Resolve(g, g[from][i], to, seen).seen {
        VisitsReachable(g, g[from][i], to, seen, tail[m].0);
        ReachesMore(g, to, g[from][i], tail[m].0, seen, passed + {from});
        assert false;
      }
    }
  }

  lemma TailIsChain(g: TradeMap, route: Route, from: Denom, to: Denom)
    requires IsChain(g, route, from, to) && IsSimple(route) && |route| > 1
    ensures IsChain(g, route[1..], route[1].0, to) && IsSimple(route[1..]) && route[1].0 != to
    ensures Adjacent(g, from, route[1].0) && route[1..] != []
  {
    assert Adjacent(g, route[0].0, route[0].1) && Adjacent(g, route[1].0, route[1].1);
  }

  lemma StaysShort(g: TradeMap, from: Denom, to: Denom, seen: set<Denom>, i: nat, best: Option<Route>, n: nat)
    requires from in g && i <= |g[from]| && to !in g[from]
    requires best.Some? && best.value != [] && |best.value| <= n
    ensures var r := ResolveFrom(g, from, to, seen, i, best).route;
            r.Some? && (|r.value| < n + 1 || (|best.value| == n && r.value == [(from, best.value[0].0)] + best.value))
    decreases |g[from]| - i
  {
    if i < |g[from]| {
      var sub := Resolve(g, g[from][i], to, seen);
      StaysShort(g, from, to, sub.seen, i + 1, Shorter(best, sub.route),
                 if |Shorter(best, sub.route).value| < n then n - 1 else n);
    }
  }

  // ---- What is found is clear ----

  lemma FoundIsClear(g: TradeMap, from: Denom, to: Denom, seen: set<Denom>, passed: set<Denom>)
    requires from != to && passed <= seen && Closed(g, to, seen - passed, seen)
    ensures var r := Resolve(g, from, to, seen).route; r.Some? ==> Clear(g, to, r.value, passed)
    decreases g.Keys - seen, 0
  {
    if from !in seen && from in g {
      assert from in g.Keys - seen;
      BranchIsClear(g, from, to, seen + {from}, 0, None, passed);
    }
  }

  ghost predicate BestIsClear(g: TradeMap, from: Denom, to: Denom, best: Option<Route>, passed: set<Denom>)
    requires from in g
  {
    best.Some? ==>
      && best.value != [] && Clear(g, to, best.value, passed + {from})
      && (to !in g[from] ==> FirstHopClear(g, to, from, best.value, passed))
  }

  lemma PrependClear(g: TradeMap, from: Denom, to: Denom, tail: Route, passed: set<Denom>)
    requires FirstHopClear(g, to, from, tail, passed) && Clear(g, to, tail, passed + {from})
    ensures Clear(g, to, [(from, tail[0].0)] + tail, passed)
  {
    assert ([(from, tail[0].0)] + tail)[1..] == tail;
  }

  /**
   The loop at its i-th neighbour: the ones before are visited, and nothing visited is half explored but what
   lies behind.
   */
  ghost predicate Tried(g: TradeMap, from: Denom, to: Denom, seen: set<Denom>, i: nat, passed: set<Denom>)
    requires from in g && i <= |g[from]|
  {
    && passed + {from} <= seen && Closed(g, to, seen - (passed + {from}), seen)
    && forall j :: 0 <= j < i ==> g[from][j] in seen
  }

  lemma TriedNext(g: TradeMap, from: Denom, to: Denom, seen: set<Denom>, i: nat, passed: set<Denom>)
    requires from in g && i < |g[from]| && Tried(g, from, to, seen, i, passed)
    ensures Tried(g, from, to, Resolve(g, g[from][i], to, seen).seen, i + 1, passed)
  {
    VisitsAll(g, g[from][i], to, seen);
  }

  lemma NextBest(g: TradeMap, from: Denom, to: Denom, seen: set<Denom>, i: nat, best: Option<Route>, passed: set<Denom>)
    requires from in g && i < |g[from]| && Tried(g, from, to, seen, i, passed)
    requires BestIsClear(g, from, to, best, passed)
    requires var r := Resolve(g, g[from][i], to, seen).route; r.Some? ==> Clear(g, to, r.value, passed + {from})
    ensures BestIsClear(g, from, to, Shorter(best, Resolve(g, g[from][i], to, seen).route), passed)
  {
    if Resolve(g, g[from][i], to, seen).route.Some? && to !in g[from] {
      FoundHopIsClear(g, from, to, seen, i, passed);
    }
  }

  lemma BranchIsClear(g: TradeMap, from: Denom, to: Denom, seen: set<Denom>, i: nat, best: Option<Route>,
                      passed: set<Denom>)
    requires from != to && from in g && i <= FirstAt(g[from], to)
    requires Tried(g, from, to, seen, i, passed) && BestIsClear(g, from, to, best, passed)
    ensures var r := ResolveFrom(g, from, to, seen, i, best).route; r.Some? ==> Clear(g, to, r.value, passed)
    decreases g.Keys - seen, 1 + |g[from]| - i
  {
    if i == |g[from]| {
      if best.Some? {
        PrependClear(g, from, to, best.value, passed);
      }
    } else if g[from][i] != to {
      FoundIsClear(g, g[from][i], to, seen, passed + {from});
      NextBest(g, from, to, seen, i, best, passed);
      TriedNext(g, from, to, seen, i, passed);
      var sub := Resolve(g, g[from][i], to, seen);
      assert g.Keys - sub.seen <= g.Keys - seen;
      BranchIsClear(g, from, to, sub.seen, i + 1, Shorter(best, sub.route), passed);
    }
  }

  /** What the branches before have visited they have explored, so none of them reaches what this one finds. */
  lemma FoundHopIsClear(g: TradeMap, from: Denom, to: Denom, seen: set<Denom>, i: nat, passed: set<Denom>)
    requires from in g && to !in g[from] && i < |g[from]| && Tried(g, from, to, seen, i, passed)
    requires Resolve(g, g[from][i], to, seen).route.Some?
    ensures FirstHopClear(g, to, from, Resolve(g, g[from][i], to, seen).route.value, passed)
  {
    var next, tail := g[from][i], Resolve(g, g[from][i], to, seen).route.value;
    ResolveSound(g, next, to, seen);
    FirstIsEarliest(g[from], i);
    forall j, m | 0 <= j < FirstAt(g[from], next) && 0 <= m < |tail|
      ensures !Reaches(g, to, g[from][j], tail[m].0, passed + {from})
    {
      if Reaches(g, to, g[from][j], tail[m].0, passed + {from}) {
        var walk :| IsWalk(g, to, walk, passed + {from}) && walk[0] == g[from][j] && walk[|walk| - 1] == tail[m].0;
        StaysVisited(g, to, walk, |walk| - 1, seen, passed + {from});
        assert false;
      }
    }
  }

  // ---- The length law ----

  /** A simple chain that no earlier branch cuts. */
  ghost predicate IsClearChain(g: TradeMap, route: Route, from: Denom, to: Denom) {
    IsChain(g, route, from, to) && IsSimple(route) && Clear(g, to, route, {})
  }

  /** The search finds a shortest one among the clear chains, and of several the one listed first. */
  lemma FindsShortestClear(g: TradeMap, from: Denom, to: Denom)
    requires from != to
    ensures var r := Resolve(g, from, to, {}).route; r.Some? ==> IsClearChain(g, r.value, from, to)
    ensures forall route :: IsClearChain(g, route, from, to) ==> AsGood(g, Resolve(g, from, to, {}).route, route)
  {
    ResolveIsCorrect(g, from, to);
    FoundIsClear(g, from, to, {}, {});
    forall route | IsClearChain(g, route, from, to)
      ensures AsGood(g, Resolve(g, from, to, {}).route, route)
    {
      ClearIsAtMost(g, route, from, to, {}, {});
    }
  }

  ghost predicate IsShortest(g: TradeMap, route: Route, from: Denom, to: Denom) {
    IsChain(g, route, from, to) && forall other: Route :: IsChain(g, other, from, to) ==> |route| <= |other|
  }

  /** So a route with fewest hops is found exactly when some chain with fewest hops is clear. */
  lemma ShortestExactly(g: TradeMap, from: Denom, to: Denom)
    requires from != to
    ensures var r := Resolve(g, from, to, {}).route;
            r.Some? ==> (IsShortest(g, r.value, from, to) <==>
                           exists route :: IsShortest(g, route, from, to) && IsClearChain(g, route, from, to))
  {
    FindsShortestClear(g, from, to);
  }

  /** Where only one simple chain connects two denoms, as in a market without cycles, it is the one found. */
  lemma OnlyChainIsFound(g: TradeMap, from: Denom, to: Denom, only: Route)
    requires from != to && IsChain(g, only, from, to)
    requires forall route :: IsChain(g, route, from, to) && IsSimple(route) ==> route == only
    ensures Resolve(g, from, to, {}).route == Some(only)
  {
    ResolveIsCorrect(g, from, to);
  }

  /** In the market of `NotAlwaysShortest` the two-hop chain is cut: the branch through b gets to c first. */
  lemma ShorterChainIsCut(a: Denom, b: Denom, c: Denom, t: Denom)
    requires a != b && a != c && a != t && b != c && b != t && c != t
    ensures var g: TradeMap := map[a := [b, c], b := [a, c], c := [b, t, a], t := [c]];
            IsShortest(g, [(a, c), (c, t)], a, t) && !Clear(g, t, [(a, c), (c, t)], {})
  {
    var g: TradeMap := map[a := [b, c], b := [a, c], c := [b, t, a], t := [c]];
    NotAlwaysShortest(a, b, c, t);
    FindsShortestClear(g, a, t);
    forall other: Route | IsChain(g, other, a, t)
      ensures 2 <= |other|
    {
      assert Adjacent(g, other[0].0, other[0].1);
    }
  }
}
