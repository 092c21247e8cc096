/** What holds of a pool after any run of messages, aborted ones included. */
module PoolRuns {
  import opened Arith
  import opened Results
  import opened Bank
  import opened PoolCalc
  import opened Payments
  import opened PoolMachine
  import opened PoolLaws
  import opened CurveLaws

  // ---- The supply is backed by the balances ----

  /** The tracked supply squared is at most the product of the balances. */
  ghost predicate Backed(p: PoolState) {
    FitsU128(p.balances) && p.supply * p.supply <= Product(p.balances)
  }

  /** The product an executed swap leaves, read off the pool and the attached funds. */
  function SwapProductAfter(p: PoolState, funds: seq<Coin>): int {
    var payment := MustPayOneOfPair(funds, p.pair);
    if payment.Err? || p.balances.Side(payment.value.inverse) == 0 then Product(p.balances) else
      var inverse := payment.value.inverse;
      ProductAfter(p.config, p.balances.Side(inverse), p.balances.Side(!inverse), payment.value.amount)
  }

  lemma SwapLeaves(p: PoolState, act: Action)
    requires act.Swap? && Step(p, act).Ok?
    ensures var q := After(p, act);
            && Product(q.balances) == SwapProductAfter(p, act.funds)
            && q == p.(balances := q.balances) && FitsU128(q.balances)
  {
    var payment, r := SwapProductLaw(p, act.sender, act.funds, act.expected, act.tolerance, act.receiver);
    var p1, r1 := SwapMoves(p, act.sender, act.funds, act.expected, act.tolerance, act.receiver);
  }

  /** A swap, if it goes through, does not lower the product. */
  predicate KeepsProduct(p: PoolState, act: Action) {
    act.Swap? && Step(p, act).Ok? ==> Product(p.balances) <= SwapProductAfter(p, act.funds)
  }

  predicate ProductRun(p: PoolState, acts: seq<Action>)
    decreases |acts|
  {
    acts == [] || (KeepsProduct(p, acts[0]) && ProductRun(After(p, acts[0]), acts[1..]))
  }

  lemma InstantiateIsBacked(lpDenom: Denom, held: Amounts, funds: seq<Coin>, config: PoolConfig, receiver: Addr)
    requires Instantiate(lpDenom, held, funds, config, receiver).Ok?
    ensures Backed(Instantiate(lpDenom, held, funds, config, receiver).value)
    ensures Solvent(Instantiate(lpDenom, held, funds, config, receiver).value)
    ensures Gap(Instantiate(lpDenom, held, funds, config, receiver).value) == 0
  {
    var p := Instantiate(lpDenom, held, funds, config, receiver).value;
    var x, y := funds[0].amount, funds[1].amount;
    var root := Isqrt(x * y);
    MulMono(p.supply, root, p.supply);
    MulMono(p.supply, root, root);
    MulMono(x, held.left + x, y);
    MulMono(y, held.right + y, held.left + x);
    TotalUpdate(map[], receiver, p.supply);
    assert Total(map[]) == 0;
  }

  lemma ProvideKeepsBacked(p: PoolState, sender: Addr, funds: seq<Coin>, tolerance: Option<nat>, receiver: Option<Addr>)
    requires Backed(p) && ProvideStep(p, sender, funds, tolerance, receiver).Ok?
    ensures Backed(ProvideStep(p, sender, funds, tolerance, receiver).value.0)
  {
    var q := ProvideStep(p, sender, funds, tolerance, receiver).value.0;
    if p.supply == 0 {
      SeedingIsBacked(p, sender, funds, tolerance, receiver);
    } else {
      ProvideKeepsBacking(p, sender, funds, tolerance, receiver);
      BackedProduct(p, q);
    }
  }

  lemma RedeemKeepsBacked(p: PoolState, sender: Addr, funds: seq<Coin>)
    requires Backed(p) && Redeem(p, sender, funds).Ok?
    ensures Backed(Redeem(p, sender, funds).value.0)
  {
    RedeemKeepsBacking(p, sender, funds);
    BackedProduct(p, Redeem(p, sender, funds).value.0);
  }

  /** A swap leaves the bound intact exactly when the product it leaves still covers the squared supply. */
  predicate KeepsBound(p: PoolState, act: Action) {
    act.Swap? && Step(p, act).Ok? ==> p.supply * p.supply <= SwapProductAfter(p, act.funds)
  }

  lemma DonationGrows(before: Amounts, amounts: Amounts)
    ensures Product(before) <= Product(before.Plus(amounts))
  {
    MulMono(before.left, before.left + amounts.left, before.right);
    MulMono(before.right, before.right + amounts.right, before.left + amounts.left);
  }

  /** Every message other than a swap keeps the bound; a swap keeps it exactly under the condition above. */
  lemma StepKeepsBacked(p: PoolState, act: Action)
    requires Backed(p)
    ensures Backed(After(p, act)) <==> KeepsBound(p, act)
  {
    if Step(p, act).Ok? {
      match act
      case Provide(sender, funds, tolerance, receiver) => ProvideKeepsBacked(p, sender, funds, tolerance, receiver);
      case Withdraw(sender, funds, _) => RedeemKeepsBacked(p, sender, funds);
      case WithdrawAndSplit(sender, funds, _, _) => RedeemKeepsBacked(p, sender, funds);
      case Swap(_, _, _, _, _) => SwapLeaves(p, act);
      case Donate(amounts) => DonationGrows(p.balances, amounts);
      case UpdateConfig(_, _, _, _, _, _, _) =>
      case BurnShares(_, _) =>
      case SendShares(_, _, _) =>
    }
  }

  /** The bound holds before every message of a run and at its end. */
  ghost predicate BackedThroughout(p: PoolState, acts: seq<Action>)
    decreases |acts|
  {
    Backed(p) && (acts == [] || BackedThroughout(After(p, acts[0]), acts[1..]))
  }

  predicate BoundRun(p: PoolState, acts: seq<Action>)
    decreases |acts|
  {
    acts == [] || (KeepsBound(p, acts[0]) && BoundRun(After(p, acts[0]), acts[1..]))
  }

  /**
   The squared supply is at most the product of the balances in every state of a run exactly when each
   executed swap's remainder and fee leave enough product; donations, outside burns, draining and
   re-seeding included.
   */
  lemma {:induction false} BackedExactly(p: PoolState, acts: seq<Action>)
    requires Backed(p)
    ensures BackedThroughout(p, acts) <==> BoundRun(p, acts)
    decreases |acts|
  {
    if acts != [] {
      StepKeepsBacked(p, acts[0]);
      if Backed(After(p, acts[0])) {
        BackedExactly(After(p, acts[0]), acts[1..]);
      }
    }
  }

  /** In particular over any run in which no executed swap lowers the product. */
  lemma {:induction false} SupplyStaysBacked(p: PoolState, acts: seq<Action>)
    requires Backed(p) && ProductRun(p, acts)
    ensures Backed(Run(p, acts))
    decreases |acts|
  {
    if acts != [] {
      StepKeepsBacked(p, acts[0]);
      SupplyStaysBacked(After(p, acts[0]), acts[1..]);
    }
  }

  /**
   A caller's check: with the maker's fee within the total, a curve amount whose fee difference reaches a
   whole unit keeps the product, indeed raises it.
   */
  lemma FeeKeepsProduct(p: PoolState, funds: seq<Coin>, payment: OneOfPair)
    requires MustPayOneOfPair(funds, p.pair) == Ok(payment) && 0 < p.balances.Side(payment.inverse)
    requires EffectiveMakerBps(p.config) <= p.config.totalFeeBps
    requires var a, b := p.balances.Side(payment.inverse), p.balances.Side(!payment.inverse);
             BPS <= ActualResult(a, b, payment.amount) * (p.config.totalFeeBps - EffectiveMakerBps(p.config))
    ensures Product(p.balances) < SwapProductAfter(p, funds)
  {
    var a, b, x := p.balances.Side(payment.inverse), p.balances.Side(!payment.inverse), payment.amount;
    EnoughForAFee(p.config, a, b, x);
    ProductOfSides(p.balances, payment.inverse);
    SwapProduct(a, b, x, LpFeeFor(p.config, a, b, x));
  }

  // ---- The value of a share ----

  /** No executed deposit finds the pool without shares. */
  predicate NeverReseeded(p: PoolState, acts: seq<Action>)
    decreases |acts|
  {
    acts == [] || ((acts[0].Provide? && Step(p, acts[0]).Ok? ==> 0 < p.supply)
                   && NeverReseeded(After(p, acts[0]), acts[1..]))
  }

  /** The product per squared share does not fall (cross-multiplied). */
  predicate KeepsValue(before: PoolState, after: PoolState) {
    Product(before.balances) * (after.supply * after.supply) <= Product(after.balances) * (before.supply * before.supply)
  }

  lemma StepKeepsValue(p: PoolState, act: Action)
    requires FitsU128(p.balances) && KeepsProduct(p, act)
    requires act.Provide? && Step(p, act).Ok? ==> 0 < p.supply
    ensures KeepsValue(p, After(p, act))
  {
    var q := After(p, act);
    if Step(p, act).Ok? {
      match act
      case Provide(sender, funds, tolerance, receiver) =>
        ProvideKeepsBacking(p, sender, funds, tolerance, receiver);
        BackingGrows(p, q);
      case Withdraw(sender, funds, _) =>
        RedeemKeepsBacking(p, sender, funds);
        BackingGrows(p, q);
      case WithdrawAndSplit(sender, funds, _, _) =>
        RedeemKeepsBacking(p, sender, funds);
        BackingGrows(p, q);
      case Swap(_, _, _, _, _) =>
        SwapLeaves(p, act);
        MulMono(Product(p.balances), Product(q.balances), p.supply * p.supply);
      case Donate(amounts) =>
        DonationGrows(p.balances, amounts);
        MulMono(Product(p.balances), Product(q.balances), p.supply * p.supply);
      case UpdateConfig(_, _, _, _, _, _, _) =>
      case BurnShares(_, _) =>
      case SendShares(_, _, _) =>
    }
  }

  lemma BackingGrows(p: PoolState, q: PoolState)
    requires KeepsBacking(p, q)
    ensures KeepsValue(p, q)
  {
    BackingProduct(p.balances.left, p.balances.right, p.supply, q.balances.left, q.balances.right, q.supply);
  }

  lemma ChainRatios(n0: nat, d0: nat, n1: nat, d1: nat, n2: nat, d2: nat)
    requires 0 < d1 && n0 * d1 <= n1 * d0 && n1 * d2 <= n2 * d1
    ensures n0 * d2 <= n2 * d0
  {
    MulMono(n0 * d1, n1 * d0, d2);
    MulMono(n1 * d2, n2 * d1, d0);
    Assoc(n0, d1, d2);
    Assoc(n1, d0, d2);
    Assoc(n2, d1, d0);
    MulCancel(n0 * d2, n2 * d0, d1);
  }

  lemma ValueIsTransitive(p: PoolState, next: PoolState, q: PoolState)
    requires KeepsValue(p, next) && KeepsValue(next, q) && 0 < next.supply
    ensures KeepsValue(p, q)
  {
    MulStrict(0, next.supply, next.supply);
    ChainRatios(Product(p.balances), p.supply * p.supply, Product(next.balances), next.supply * next.supply,
                Product(q.balances), q.supply * q.supply);
  }

  lemma DrainedKeepsValue(p: PoolState, q: PoolState)
    requires q.supply == 0
    ensures KeepsValue(p, q)
  {
  }

  lemma {:induction false} StaysDrained(p: PoolState, acts: seq<Action>)
    requires p.supply == 0 && NeverReseeded(p, acts)
    ensures Run(p, acts).supply == 0
    decreases |acts|
  {
    if acts != [] {
      assert After(p, acts[0]).supply == 0;
      StaysDrained(After(p, acts[0]), acts[1..]);
    }
  }

  /**
   What a share is worth, as the geometric mean of the balances over the supply, never falls over a run
   without re-seeding in which no executed swap lowers the product (squared and cross-multiplied).
   */
  lemma {:induction false} ShareValueNeverFalls(p: PoolState, acts: seq<Action>)
    requires FitsU128(p.balances) && ProductRun(p, acts) && NeverReseeded(p, acts)
    ensures KeepsValue(p, Run(p, acts))
    decreases |acts|
  {
    if acts != [] {
      var next, q := After(p, acts[0]), Run(p, acts);
      StepKeepsValue(p, acts[0]);
      if next.supply == 0 {
        StaysDrained(next, acts[1..]);
        DrainedKeepsValue(p, q);
      } else {
        StepFits(p, acts[0]);
        ShareValueNeverFalls(next, acts[1..]);
        ValueIsTransitive(p, next, q);
      }
    }
  }

  /** So a pool with shares outstanding always holds both coins, and a later deposit never divides by zero. */
  lemma BackedPoolHasBothCoins(p: PoolState)
    requires Backed(p) && 0 < p.supply
    ensures 0 < p.balances.left && 0 < p.balances.right
  {
    MulStrict(0, p.supply, p.supply);
  }

  /** Without a unit of LP fee the bound can break: one unit swapped into a fresh 1000:1000 pool at 0.3%. */
  lemma TinySwapBreaksBacking()
    ensures var config := PoolConfig(1, 2, 30, 10, false);
            var p := PoolState(PairId("a", "b"), "lp", Amounts(1000, 1000), 1000, config, map[1 := 1000]);
            var act := Swap(1, [Coin("a", 1)], None, None, None);
            Backed(p) && Step(p, act).Ok? && !Backed(After(p, act))
  {
    var config := PoolConfig(1, 2, 30, 10, false);
    var p := PoolState(PairId("a", "b"), "lp", Amounts(1000, 1000), 1000, config, map[1 := 1000]);
    assert Kept(1000, 1000, 1) == 999;
    assert NaiveResult(1000, 1000, 1) == 1;
    assert CalcSwap(p.balances, 1, 30, 10, false, None, DEFAULT_SLIPPAGE) == Ok(SwapResult(1, 0, 0, 0));
    assert MustPayOneOfPair([Coin("a", 1)], p.pair) == Ok(OneOfPair(1, false));
  }

  // ---- Swaps alone never drain both sides ----

  ghost predicate AllSwaps(acts: seq<Action>) {
    forall i :: 0 <= i < |acts| ==> acts[i].Swap?
  }

  /** Some swap of the run goes through and raises the product. */
  predicate SomethingGained(p: PoolState, acts: seq<Action>)
    decreases |acts|
  {
    && acts != []
    && (|| (acts[0].Swap? && Step(p, acts[0]).Ok? && Product(p.balances) < SwapProductAfter(p, acts[0].funds))
        || SomethingGained(After(p, acts[0]), acts[1..]))
  }

  lemma {:induction false} SwapsRaiseProduct(p: PoolState, acts: seq<Action>)
    requires AllSwaps(acts) && ProductRun(p, acts)
    ensures Product(p.balances) <= Product(Run(p, acts).balances)
    ensures SomethingGained(p, acts) ==> Product(p.balances) < Product(Run(p, acts).balances)
    decreases |acts|
  {
    if acts != [] {
      if Step(p, acts[0]).Ok? {
        SwapLeaves(p, acts[0]);
      }
      SwapsRaiseProduct(After(p, acts[0]), acts[1..]);
    }
  }

  /** No run of swaps that never lower the product, and once raise it, leaves both balances at or below their start. */
  lemma SwapsCannotTakeBoth(p: PoolState, acts: seq<Action>)
    requires AllSwaps(acts) && ProductRun(p, acts) && SomethingGained(p, acts)
    ensures var q := Run(p, acts).balances; p.balances.left < q.left || p.balances.right < q.right
  {
    SwapsRaiseProduct(p, acts);
    var q := Run(p, acts).balances;
    if q.left <= p.balances.left && q.right <= p.balances.right {
      MulMono(q.left, p.balances.left, q.right);
      MulMono(q.right, p.balances.right, p.balances.left);
    }
  }

  // ---- Holders' claims ----

  /** The tracked supply covers every holder: outside burns only make it larger than what is held. */
  ghost predicate Solvent(p: PoolState) {
    FitsU128(p.balances) && Total(p.shares) <= p.supply
  }

  /** Tracked shares that nobody holds any more. */
  ghost function Gap(p: PoolState): int {
    p.supply - Total(p.shares)
  }

  /** Shares a message burns behind the contract's back. */
  function BurnedOutside(p: PoolState, act: Action): nat {
    if act.BurnShares? && Step(p, act).Ok? then act.amount else 0
  }

  lemma RedeemKeepsGap(p: PoolState, sender: Addr, funds: seq<Coin>)
    requires Redeem(p, sender, funds).Ok?
    ensures Gap(Redeem(p, sender, funds).value.0) == Gap(p)
  {
    var amount := MustPay(funds, p.lpDenom).value;
    TotalUpdate(p.shares, sender, Balance(p.shares, sender) - amount);
  }

  lemma ProvideKeepsGap(p: PoolState, sender: Addr, funds: seq<Coin>, tolerance: Option<nat>, receiver: Option<Addr>)
    requires ProvideStep(p, sender, funds, tolerance, receiver).Ok?
    ensures Gap(ProvideStep(p, sender, funds, tolerance, receiver).value.0) == Gap(p)
  {
    var q := ProvideStep(p, sender, funds, tolerance, receiver).value.0;
    var to := receiver.GetOr(sender);
    TotalUpdate(p.shares, to, Balance(p.shares, to) + (q.supply - p.supply));
  }

  /** Deposits, withdrawals and transfers keep the gap; an outside burn widens it by what it burns. */
  lemma StepGap(p: PoolState, act: Action)
    ensures Gap(After(p, act)) == Gap(p) + BurnedOutside(p, act)
  {
    if Step(p, act).Ok? {
      match act
      case Provide(sender, funds, tolerance, receiver) => ProvideKeepsGap(p, sender, funds, tolerance, receiver);
      case Withdraw(sender, funds, _) => RedeemKeepsGap(p, sender, funds);
      case WithdrawAndSplit(sender, funds, _, _) => RedeemKeepsGap(p, sender, funds);
      case Swap(_, _, _, _, _) =>
      case Donate(_) =>
      case UpdateConfig(_, _, _, _, _, _, _) =>
      case BurnShares(holder, amount) => TotalUpdate(p.shares, holder, Balance(p.shares, holder) - amount);
      case SendShares(from, to, amount) => TransferConserves(p.shares, from, to, amount);
    }
  }

  lemma StepFits(p: PoolState, act: Action)
    requires FitsU128(p.balances)
    ensures FitsU128(After(p, act).balances)
  {
    if act.Swap? && Step(p, act).Ok? {
      var payment, r := SwapMoves(p, act.sender, act.funds, act.expected, act.tolerance, act.receiver);
    }
  }

  function AllBurnedOutside(p: PoolState, acts: seq<Action>): nat
    decreases |acts|
  {
    if acts == [] then 0 else BurnedOutside(p, acts[0]) + AllBurnedOutside(After(p, acts[0]), acts[1..])
  }

  /** Over any run the tracked supply exceeds what is held by exactly what was burned outside the contract. */
  lemma {:induction false} GapIsBurned(p: PoolState, acts: seq<Action>)
    ensures Gap(Run(p, acts)) == Gap(p) + AllBurnedOutside(p, acts)
    decreases |acts|
  {
    if acts != [] {
      StepGap(p, acts[0]);
      GapIsBurned(After(p, acts[0]), acts[1..]);
    }
  }

  lemma {:induction false} HoldersStayCovered(p: PoolState, acts: seq<Action>)
    requires Solvent(p)
    ensures Solvent(Run(p, acts))
    decreases |acts|
  {
    if acts != [] {
      StepGap(p, acts[0]);
      StepFits(p, acts[0]);
      HoldersStayCovered(After(p, acts[0]), acts[1..]);
    }
  }

  /** What every holder could redeem, each priced on its own. */
  function Claims(shares: Accounts, balance: nat, supply: nat): Accounts {
    map a | a in shares :: ShareOf(balance, shares[a], supply)
  }

  lemma {:induction false} ClaimsOver(shares: Accounts, balance: nat, supply: nat, s: set<Addr>)
    requires 0 < supply && balance <= U128_MAX && s <= shares.Keys
    requires forall a :: a in s ==> shares[a] <= supply
    ensures SumOver(Claims(shares, balance, supply), s) * supply <= balance * SumOver(shares, s)
  {
    var claims := Claims(shares, balance, supply);
    if s != {} {
      var a :| a in s;
      SumRemove(claims, s, a);
      SumRemove(shares, s, a);
      ClaimsOver(shares, balance, supply, s - {a});
      assert claims[a] * supply <= balance * shares[a] by {
        ShareBounds(balance, shares[a], supply);
      }
      AddClaims(claims[a], SumOver(claims, s - {a}), shares[a], SumOver(shares, s - {a}), balance, supply);
    }
  }

  lemma AddClaims(c: nat, d: nat, h: nat, k: nat, balance: nat, supply: nat)
    requires c * supply <= balance * h && d * supply <= balance * k
    ensures (c + d) * supply <= balance * (h + k)
  {
    assert (c + d) * supply == c * supply + d * supply;
    assert balance * (h + k) == balance * h + balance * k;
  }

  lemma ClaimsAgainst(p: PoolState, balance: nat)
    requires Solvent(p) && balance <= U128_MAX
    ensures Total(Claims(p.shares, balance, p.supply)) <= balance
  {
    var claims := Claims(p.shares, balance, p.supply);
    assert claims.Keys == p.shares.Keys;
    if p.supply == 0 {
      AllZero(claims, claims.Keys);
    } else {
      forall a | a in p.shares
        ensures p.shares[a] <= p.supply
      {
        TotalUpdate(p.shares, a, 0);
      }
      ClaimsOver(p.shares, balance, p.supply, p.shares.Keys);
      MulMono(Total(p.shares), p.supply, balance);
      MulCancel(Total(claims), balance, p.supply);
    }
  }

  lemma {:induction false} AllZero(m: Accounts, s: set<Addr>)
    requires s <= m.Keys && forall a :: a in s ==> m[a] == 0
    ensures SumOver(m, s) == 0
  {
    if s != {} {
      var a :| a in s;
      SumRemove(m, s, a);
      AllZero(m, s - {a});
    }
  }

  /** After any run the claims of all holders together are covered by each balance. */
  lemma ClaimsAreCovered(p: PoolState, acts: seq<Action>)
    requires Solvent(p)
    ensures var q := Run(p, acts);
            && Total(Claims(q.shares, q.balances.left, q.supply)) <= q.balances.left
            && Total(Claims(q.shares, q.balances.right, q.supply)) <= q.balances.right
  {
    HoldersStayCovered(p, acts);
    ClaimsAgainst(Run(p, acts), Run(p, acts).balances.left);
    ClaimsAgainst(Run(p, acts), Run(p, acts).balances.right);
  }
}
