/** The multi-hop swap router: a stored route worked off by callbacks (swap-router/src/contract.rs). */
module Router {
  import opened Arith
  import opened Results
  import opened Bank
  import PoolCalc
  import Payments
  import FixedPoint

  datatype RouterError =
    | AlreadyRoutingSwaps
    | ExpectingNothing
    | RouteEmpty
    | NotFound
    | SlippageTooHigh
    | IncompleteRoute
    | UnknownReceiver
    | Panicked
    | PaymentError(payment: PoolCalc.PoolError)

  /** Where the result goes; for an EVM receiver the chain's address lookup is given, `None` if it fails. */
  datatype SwapReceiver =
    | Direct(addr: Addr)
    | WasmUnwrap(contract: Addr, receiver: Addr)
    | EvmUnwrap(contract: Addr, seiAddress: Option<Addr>)

  datatype Expectation = Expectation(expectedAmount: nat, slippageTolerance: nat)

  /** The stored terms of a route in progress; the raw u128 encodings of "none" are the source's. */
  datatype RouterState = RouterState(
    receiver: Addr,
    unwrapper: Addr,
    unwrapperKind: nat,
    intermediateTolerance: nat,
    expectedAmount: nat,
    slippageTolerance: nat
  )

  /** The last swapper on the stack is the next to be called. */
  datatype RouterStore = RouterStore(state: Option<RouterState>, swappers: seq<Addr>)

  /** The one message a successful call sends. */
  datatype Emitted =
    | SwapOn(pool: Addr, tolerance: Option<nat>, funds: seq<Coin>)
    | PayOut(to: Addr, coin: Coin)
    | UnwrapVia(contract: Addr, kind: nat, recipient: Addr, coin: Coin)

  datatype Call =
    | ExecuteSwaps(swappers: seq<Addr>, tolerance: Option<nat>, expectation: Option<Expectation>,
                   receiver: SwapReceiver, funds: seq<Coin>)
    | NextStep(funds: seq<Coin>)

  function EncodeTolerance(t: Option<nat>): nat {
    t.GetOr(U128_MAX)
  }

  function DecodeTolerance(raw: nat): Option<nat> {
    if raw == U128_MAX then None else Some(raw)
  }

  /** A stored tolerance is read back unchanged, unless it was the largest decimal: that is read back as none. */
  lemma ToleranceRoundTrip(t: Option<nat>)
    ensures DecodeTolerance(EncodeTolerance(t)) == t <==> t != Some(U128_MAX)
  {
  }

  function Reverse<T>(s: seq<T>): (r: seq<T>)
    ensures |r| == |s|
    ensures forall i :: 0 <= i < |s| ==> r[i] == s[|s| - 1 - i]
  {
    if s == [] then [] else Reverse(s[1..]) + [s[0]]
  }

  function NewState(tolerance: Option<nat>, expectation: Option<Expectation>, receiver: SwapReceiver)
    : Result<RouterState, RouterError>
  {
    if receiver.EvmUnwrap? && receiver.seiAddress.None? then Err(UnknownReceiver) else
      var (to, unwrapper, kind) :=
        match receiver
        case Direct(addr) => (addr, ZERO_ADDR, 0)
        case EvmUnwrap(contract, address) => (address.value, contract, 1)
        case WasmUnwrap(contract, addr) => (addr, contract, 2);
      Ok(RouterState(to, unwrapper, kind, EncodeTolerance(tolerance),
                     if expectation.Some? then expectation.value.expectedAmount else 0,
                     if expectation.Some? then expectation.value.slippageTolerance else U128_MAX))
  }

  function ExecuteSwapsStep(s: RouterStore, swappers: seq<Addr>, tolerance: Option<nat>,
                            expectation: Option<Expectation>, receiver: SwapReceiver, funds: seq<Coin>)
    : Result<(RouterStore, Emitted), RouterError>
  {
    if s.state.Some? then Err(AlreadyRoutingSwaps)
    else if expectation.Some? && expectation.value.expectedAmount == 0 then Err(ExpectingNothing)
    else
      var state :- NewState(tolerance, expectation, receiver);
      if swappers == [] then Err(RouteEmpty)
      else Ok((RouterStore(Some(state), s.swappers + Reverse(swappers[1..])), SwapOn(swappers[0], tolerance, funds)))
  }

  /** The final check: the received amount against the expectation, if there is one. */
  function MeetsExpectation(amount: nat, expected: nat, tolerance: nat): Result<bool, RouterError> {
    if expected == 0 then Ok(true) else
      match FixedPoint.FromRatio(amount, expected)
      case None => Err(Panicked)
      case Some(ratio) => Ok(FixedPoint.AbsDiff(ratio, FixedPoint.ONE) <= tolerance)
  }

  function Payout(state: RouterState, coin: Coin): Emitted {
    if state.unwrapper != ZERO_ADDR then UnwrapVia(state.unwrapper, state.unwrapperKind, state.receiver, coin)
    else PayOut(state.receiver, coin)
  }

  function NextStepStep(s: RouterStore, funds: seq<Coin>): Result<(RouterStore, Emitted), RouterError> {
    if s.state.None? then Err(NotFound) else
      var state, n := s.state.value, |s.swappers|;
      if n > 0 then
        Ok((s.(swappers := s.swappers[..n - 1]),
            SwapOn(s.swappers[n - 1], DecodeTolerance(state.intermediateTolerance), funds)))
      else
        match Payments.OneCoin(funds)
        case Err(e) => Err(PaymentError(e))
        case Ok(coin) =>
          var good :- MeetsExpectation(coin.amount, state.expectedAmount, state.slippageTolerance);
          if !good then Err(SlippageTooHigh) else Ok((s.(state := None), Payout(state, coin)))
  }

  /** The address a receiver names, looked up where it is an EVM one. */
  function Recipient(receiver: SwapReceiver): Addr
    requires receiver.EvmUnwrap? ==> receiver.seiAddress.Some?
  {
    if receiver.Direct? then receiver.addr
    else if receiver.WasmUnwrap? then receiver.receiver
    else receiver.seiAddress.value
  }

  /** The amount is within the expected one's tolerance, and the ratio fits a decimal. */
  predicate MeetsTerms(amount: nat, e: Expectation) {
    && e.expectedAmount * (FixedPoint.ONE - e.slippageTolerance) <= amount * FixedPoint.ONE
    && amount * FixedPoint.ONE < e.expectedAmount * (Min(FixedPoint.ONE + e.slippageTolerance, U128_MAX) + 1)
  }

  /** When a route is accepted, why it is not, in the order of the checks, and what is sent first. */
  lemma StartOutcomes(s: RouterStore, swappers: seq<Addr>, tolerance: Option<nat>, expectation: Option<Expectation>,
                      receiver: SwapReceiver, funds: seq<Coin>)
    ensures var r := ExecuteSwapsStep(s, swappers, tolerance, expectation, receiver, funds);
            var nothing := expectation.Some? && expectation.value.expectedAmount == 0;
            var unknown := receiver.EvmUnwrap? && receiver.seiAddress.None?;
            && (r.Ok? <==> s.state.None? && !nothing && !unknown && swappers != [])
            && (r.Err? ==>
                  r.error == if s.state.Some? then AlreadyRoutingSwaps
                             else if nothing then ExpectingNothing
                             else if unknown then UnknownReceiver
                             else RouteEmpty)
            && (r.Ok? ==>
                  && r.value.1 == SwapOn(swappers[0], tolerance, funds) && r.value.0.state.Some?
                  && |r.value.0.swappers| == |s.swappers| + |swappers| - 1
                  && forall i :: 0 <= i < |r.value.0.swappers| ==>
                       r.value.0.swappers[i] == if i < |s.swappers| then s.swappers[i]
                                                else swappers[|swappers| - 1 - (i - |s.swappers|)])
  {
  }

  /**
   A callback needs a route; it calls the stacked pool with what it brings, or ends the route.  The reply
   passes on an idle router alone.
   */
  lemma CallbackOutcomes(s: RouterStore, funds: seq<Coin>)
    ensures var r := NextStepStep(s, funds);
            && (s.state.None? ==> r == Err(NotFound))
            && (s.state.Some? && s.swappers != [] ==>
                  && r.Ok? && r.value.0.state == s.state
                  && s.swappers == r.value.0.swappers + [s.swappers[|s.swappers| - 1]]
                  && r.value.1 == SwapOn(s.swappers[|s.swappers| - 1],
                                         if s.state.value.intermediateTolerance == U128_MAX then None
                                         else Some(s.state.value.intermediateTolerance), funds))
            && (s.state.Some? && s.swappers == [] && r.Ok? ==>
                  |funds| == 1 && 0 < funds[0].amount && r.value.0 == RouterStore(None, []))
            && (ReplyStep(s).Ok? <==> s == RouterStore(None, []))
  {
  }

  /**
   What an accepted call stores is what its sender asked for: the last callback passes exactly when the
   amount is within the expectation's tolerance, and hands the coin to the receiver, through the unwrapper
   unless that is missing or the zeroed address.
   */
  lemma TermsAreKept(s: RouterStore, swappers: seq<Addr>, tolerance: Option<nat>, expectation: Option<Expectation>,
                     receiver: SwapReceiver, funds: seq<Coin>, coin: Coin)
    requires ExecuteSwapsStep(s, swappers, tolerance, expectation, receiver, funds).Ok?
    requires 0 < coin.amount
    ensures receiver.EvmUnwrap? ==> receiver.seiAddress.Some?
    ensures var st := ExecuteSwapsStep(s, swappers, tolerance, expectation, receiver, funds).value.0.state;
            var last := NextStepStep(RouterStore(st, []), [coin]);
            && (last.Ok? <==> expectation.None? || MeetsTerms(coin.amount, expectation.value))
            && (last.Ok? ==>
                  && last.value.0 == RouterStore(None, [])
                  && last.value.1 ==
                     if receiver.Direct? || receiver.contract == ZERO_ADDR then PayOut(Recipient(receiver), coin)
                     else UnwrapVia(receiver.contract, if receiver.EvmUnwrap? then 1 else 2, Recipient(receiver), coin))
  {
    if expectation.Some? {
      var e := expectation.value;
      FixedPoint.WithinTolerance(coin.amount, e.expectedAmount, e.slippageTolerance);
      DivLt(coin.amount * FixedPoint.ONE, e.expectedAmount, U128_MAX + 1);
    }
  }

  function CallStep(s: RouterStore, call: Call): Result<(RouterStore, Emitted), RouterError> {
    match call
    case ExecuteSwaps(swappers, tolerance, expectation, receiver, funds) =>
      ExecuteSwapsStep(s, swappers, tolerance, expectation, receiver, funds)
    case NextStep(funds) => NextStepStep(s, funds)
  }

  /** `reply` to a successful sub-message. */
  function ReplyStep(s: RouterStore): Result<(), RouterError> {
    if s.state.Some? || |s.swappers| > 0 then Err(IncompleteRoute) else Ok(())
  }

  // ---- The stored form ----

  class SwapRouter {
    var state: Option<RouterState>
    var swappers: seq<Addr>

    function Store(): RouterStore
      reads this
    {
      RouterStore(state, swappers)
    }

    constructor ()
      ensures Store() == RouterStore(None, [])
    {
      state, swappers := None, [];
    }

    /** Writes may remain after an error; the transaction around it discards them. */
    method ProcessExecuteSwaps(route: seq<Addr>, tolerance: Option<nat>, expectation: Option<Expectation>,
                               receiver: SwapReceiver, funds: seq<Coin>)
      returns (r: Result<Emitted, RouterError>)
      modifies this
      ensures var step := ExecuteSwapsStep(old(Store()), route, tolerance, expectation, receiver, funds);
              match step
              case Ok(out) => r == Ok(out.1) && Store() == out.0
              case Err(e) => r == Err(e)
    {
      if state.Some? {
        return Err(AlreadyRoutingSwaps);
      }
      if expectation.Some? && expectation.value.expectedAmount == 0 {
        return Err(ExpectingNothing);
      }
      var newState :- NewState(tolerance, expectation, receiver);
      var i := |route|;
      while i > 1
        invariant 0 <= i <= |route| && (route != [] ==> 1 <= i)
        invariant swappers == old(swappers) + Reverse(route[i..])
        invariant state == old(state)
      {
        i := i - 1;
        assert route[i..][1..] == route[i + 1..];
        swappers := swappers + [route[i]];
      }
      state := Some(newState);
      if route == [] {
        return Err(RouteEmpty);
      }
      r := Ok(SwapOn(route[0], tolerance, funds));
    }

    method ProcessExecuteNextStep(funds: seq<Coin>) returns (r: Result<Emitted, RouterError>)
      modifies this
      ensures match NextStepStep(old(Store()), funds)
              case Ok(out) => r == Ok(out.1) && Store() == out.0
              case Err(e) => r == Err(e)
    {
      if state.None? {
        return Err(NotFound);
      }
      var routerState := state.value;
      if |swappers| > 0 {
        var swapper := swappers[|swappers| - 1];
        swappers := swappers[..|swappers| - 1];
        return Ok(SwapOn(swapper, DecodeTolerance(routerState.intermediateTolerance), funds));
      }
      var coin := Payments.OneCoin(funds);
      if coin.Err? {
        return Err(PaymentError(coin.error));
      }
      var good :- MeetsExpectation(coin.value.amount, routerState.expectedAmount, routerState.slippageTolerance);
      if !good {
        return Err(SlippageTooHigh);
      }
      state := None;
      r := Ok(Payout(routerState, coin.value));
    }

    method ProcessReply() returns (r: Result<(), RouterError>)
      ensures r == ReplyStep(Store())
    {
      if state.Some? || |swappers| > 0 {
        return Err(IncompleteRoute);
      }
      r := Ok(());
    }

    /** A call as the VM runs it: an error leaves the storage as it was. */
    method Execute(call: Call) returns (r: Result<Emitted, RouterError>)
      modifies this
      ensures match CallStep(old(Store()), call)
              case Ok(out) => r == Ok(out.1) && Store() == out.0
              case Err(e) => r == Err(e) && Store() == old(Store())
    {
      var savedState, savedSwappers := state, swappers;
      match call {
        case ExecuteSwaps(route, tolerance, expectation, receiver, funds) =>
          r := ProcessExecuteSwaps(route, tolerance, expectation, receiver, funds);
        case NextStep(funds) =>
          r := ProcessExecuteNextStep(funds);
      }
      if r.Err? {
        state, swappers := savedState, savedSwappers;
      }
    }
  }

  // ---- Any sequence of calls ----

  /** The store with what it has done for the latest route it accepted. */
  datatype History = History(store: RouterStore, route: seq<Addr>, visits: seq<Addr>, payouts: nat)

  const IDLE: History := History(RouterStore(None, []), [], [], 0)

  /** One call by anyone, at any moment; a failing call changes nothing. */
  function Play(h: History, call: Call): History {
    match CallStep(h.store, call)
    case Err(_) => h
    case Ok(out) =>
      var route := if call.ExecuteSwaps? then call.swappers else h.route;
      var visits := if call.ExecuteSwaps? then [] else h.visits;
      var payouts := if call.ExecuteSwaps? then 0 else h.payouts;
      match out.1
      case SwapOn(pool, _, _) => History(out.0, route, visits + [pool], payouts)
      case PayOut(_, _) => History(out.0, route, visits, payouts + 1)
      case UnwrapVia(_, _, _, _) => History(out.0, route, visits, payouts + 1)
  }

  function PlayAll(h: History, calls: seq<Call>): History
    decreases |calls|
  {
    if calls == [] then h else PlayAll(Play(h, calls[0]), calls[1..])
  }

  /**
   While a route is in progress, the swappers called and those still stacked make up the route in order
   and nothing has been paid out; when none is, the stack is empty and the last route was called through
   in order and paid out once.
   */
  ghost predicate OnTrack(h: History) {
    if h.store.state.Some? then
      h.route != [] && h.visits + Reverse(h.store.swappers) == h.route && h.payouts == 0
    else
      h.store.swappers == [] && h.visits == h.route && h.payouts == (if h.route == [] then 0 else 1)
  }

  lemma ReverseReverse<T>(s: seq<T>)
    ensures Reverse(Reverse(s)) == s
  {
    assert |Reverse(Reverse(s))| == |s|;
  }

  lemma StackedRoute<T>(route: seq<T>)
    requires route != []
    ensures [route[0]] + Reverse([] + Reverse(route[1..])) == route
  {
    assert [] + Reverse(route[1..]) == Reverse(route[1..]);
    ReverseReverse(route[1..]);
  }

  lemma {:induction false} ReverseLast<T>(s: seq<T>, x: T)
    ensures Reverse(s + [x]) == [x] + Reverse(s)
  {
    var all := s + [x];
    if s == [] {
      assert all[1..] == [];
    } else {
      assert all[1..] == s[1..] + [x];
      ReverseLast(s[1..], x);
    }
  }

  lemma PopVisits<T>(visits: seq<T>, rest: seq<T>, next: T, route: seq<T>)
    requires visits + Reverse(rest + [next]) == route
    ensures visits + [next] + Reverse(rest) == route
  {
    ReverseLast(rest, next);
    assert visits + ([next] + Reverse(rest)) == visits + [next] + Reverse(rest);
  }

  lemma StartKeepsOnTrack(h: History, call: Call)
    requires OnTrack(h) && call.ExecuteSwaps?
    ensures OnTrack(Play(h, call))
  {
    if call.swappers != [] {
      StackedRoute(call.swappers);
    }
  }

  lemma CallbackKeepsOnTrack(h: History, call: Call)
    requires OnTrack(h) && call.NextStep?
    ensures OnTrack(Play(h, call))
  {
    if h.store.state.Some? && h.store.swappers != [] {
      var stack, n := h.store.swappers, |h.store.swappers|;
      assert stack == stack[..n - 1] + [stack[n - 1]];
      PopVisits(h.visits, stack[..n - 1], stack[n - 1], h.route);
    }
  }

  lemma PlayKeepsOnTrack(h: History, call: Call)
    requires OnTrack(h)
    ensures OnTrack(Play(h, call))
  {
    if call.ExecuteSwaps? {
      StartKeepsOnTrack(h, call);
    } else {
      CallbackKeepsOnTrack(h, call);
    }
  }

  /** Every state the router can ever get into, whoever calls it and in whatever order, is on track. */
  lemma {:induction false} AlwaysOnTrack(h: History, calls: seq<Call>)
    requires OnTrack(h)
    ensures OnTrack(PlayAll(h, calls))
    decreases |calls|
  {
    if calls != [] {
      PlayKeepsOnTrack(h, calls[0]);
      AlwaysOnTrack(Play(h, calls[0]), calls[1..]);
    }
  }

  /**
   The completion check passes exactly when the last accepted route has been called through in order and
   paid out once (or there never was one); its second condition can never fail on its own.
   */
  lemma ReplyMeansComplete(calls: seq<Call>)
    ensures var h := PlayAll(IDLE, calls);
            && (ReplyStep(h.store).Ok? <==> h.store.state.None?)
            && (ReplyStep(h.store).Ok? ==> h.visits == h.route && (h.route != [] ==> h.payouts == 1))
            && (ReplyStep(h.store).Err? ==> h.payouts == 0 && |h.visits| <= |h.route| && h.visits <= h.route)
  {
    AlwaysOnTrack(IDLE, calls);
  }

  // ---- Callbacks ----

  /** A run of callbacks that must all succeed. */
  function NextSteps(s: RouterStore, payments: seq<seq<Coin>>): Result<RouterStore, RouterError>
    decreases |payments|
  {
    if payments == [] then Ok(s) else
      var out :- NextStepStep(s, payments[0]);
      NextSteps(out.0, payments[1..])
  }

  /**
   The stack is the measure: an idle router refuses every callback, and one in progress takes exactly one
   callback more than it has swappers left, after which it is idle.
   */
  lemma {:induction false} CallbacksLeft(s: RouterStore, payments: seq<seq<Coin>>)
    requires s.state.None? ==> s.swappers == []
    requires NextSteps(s, payments).Ok?
    ensures var left := if s.state.None? then 0 else |s.swappers| + 1;
            && |payments| <= left
            && (NextSteps(s, payments).value.state.None? <==> |payments| == left)
            && |NextSteps(s, payments).value.swappers| == if |payments| == left then 0 else |s.swappers| - |payments|
    decreases |payments|
  {
    if payments != [] {
      CallbacksLeft(NextStepStep(s, payments[0]).value.0, payments[1..]);
    }
  }
}
