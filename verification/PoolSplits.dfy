/** The split laws as runs of messages: withdrawing or selling in parts against doing it at once. */
module PoolSplits {
  import opened Arith
  import opened Results
  import opened Bank
  import opened PoolCalc
  import opened Payments
  import opened PoolMachine
  import opened PoolLaws
  import opened CurveLaws

  predicate AllExecuted(p: PoolState, acts: seq<Action>)
    decreases |acts|
  {
    acts == [] || (Step(p, acts[0]).Ok? && AllExecuted(After(p, acts[0]), acts[1..]))
  }

  // ---- Withdrawals ----

  /** A withdrawal by anyone, to anyone, of that many shares. */
  predicate Withdraws(act: Action, lpDenom: Denom, shares: nat) {
    (act.Withdraw? || act.WithdrawAndSplit?) && act.funds == [Coin(lpDenom, shares)]
  }

  ghost predicate WithdrawsEach(acts: seq<Action>, lpDenom: Denom, parts: seq<nat>) {
    |acts| == |parts| && forall i :: 0 <= i < |acts| ==> Withdraws(acts[i], lpDenom, parts[i])
  }

  lemma WithdrawLeaves(p: PoolState, act: Action, shares: nat, takeRight: bool)
    requires Withdraws(act, p.lpDenom, shares) && Step(p, act).Ok?
    ensures shares <= p.supply && 0 < p.supply
    ensures var part := ShareOf(p.balances.Side(takeRight), shares, p.supply);
            && part <= p.balances.Side(takeRight)
            && After(p, act).balances.Side(takeRight) == p.balances.Side(takeRight) - part
            && After(p, act).supply == p.supply - shares
            && After(p, act).lpDenom == p.lpDenom
  {
  }

  lemma RunFirst(p: PoolState, acts: seq<Action>)
    requires acts != []
    ensures Run(p, acts) == Run(After(p, acts[0]), acts[1..])
    ensures AllExecuted(p, acts) ==> Step(p, acts[0]).Ok? && AllExecuted(After(p, acts[0]), acts[1..])
  {
  }

  lemma RedeemedFirst(balance: nat, supply: nat, parts: seq<nat>, part: nat)
    requires parts != [] && Sum(parts) <= supply && part == ShareOf(balance, parts[0], supply) <= balance
    ensures RedeemedInParts(balance, supply, parts)
         == part + RedeemedInParts(balance - part, supply - parts[0], parts[1..])
  {
  }

  lemma WithdrawsRest(acts: seq<Action>, lpDenom: Denom, parts: seq<nat>)
    requires WithdrawsEach(acts, lpDenom, parts) && acts != []
    ensures Withdraws(acts[0], lpDenom, parts[0]) && WithdrawsEach(acts[1..], lpDenom, parts[1..])
  {
  }

  /** A run of executed withdrawals pays exactly the successive redemptions of its parts, of either coin. */
  lemma {:induction false} WithdrawnInParts(p: PoolState, acts: seq<Action>, parts: seq<nat>, takeRight: bool, q: PoolState)
    requires WithdrawsEach(acts, p.lpDenom, parts) && AllExecuted(p, acts) && q == Run(p, acts)
    ensures Sum(parts) <= p.supply && q.supply + Sum(parts) == p.supply
    ensures q.balances.Side(takeRight) + RedeemedInParts(p.balances.Side(takeRight), p.supply, parts)
         == p.balances.Side(takeRight)
    decreases |acts|
  {
    if acts != [] {
      var next, balance := After(p, acts[0]), p.balances.Side(takeRight);
      RunFirst(p, acts);
      WithdrawsRest(acts, p.lpDenom, parts);
      WithdrawLeaves(p, acts[0], parts[0], takeRight);
      WithdrawnInParts(next, acts[1..], parts[1..], takeRight, q);
      RedeemedFirst(balance, p.supply, parts, ShareOf(balance, parts[0], p.supply));
    }
  }

  /** So n executed withdrawals leave as much of each coin as the combined one would, or up to n - 1 units more. */
  lemma SplitWithdrawal(p: PoolState, acts: seq<Action>, parts: seq<nat>, whole: Action)
    requires FitsU128(p.balances) && parts != []
    requires WithdrawsEach(acts, p.lpDenom, parts) && AllExecuted(p, acts)
    requires Withdraws(whole, p.lpDenom, Sum(parts)) && Step(p, whole).Ok?
    ensures var once, split := After(p, whole).balances, Run(p, acts).balances;
            && once.left <= split.left <= once.left + |parts| - 1
            && once.right <= split.right <= once.right + |parts| - 1
            && After(p, whole).supply == Run(p, acts).supply
  {
    WithdrawnInParts(p, acts, parts, false, Run(p, acts));
    WithdrawnInParts(p, acts, parts, true, Run(p, acts));
    WithdrawLeaves(p, whole, Sum(parts), false);
    WithdrawLeaves(p, whole, Sum(parts), true);
    SplitRedemption(p.balances.left, p.supply, parts);
    SplitRedemption(p.balances.right, p.supply, parts);
  }

  // ---- Swaps without fees ----

  predicate Sells(act: Action, d: Denom, amount: nat) {
    act.Swap? && act.funds == [Coin(d, amount)]
  }

  ghost predicate SellsEach(acts: seq<Action>, d: Denom, parts: seq<nat>) {
    |acts| == |parts| && forall i :: 0 <= i < |acts| ==> Sells(acts[i], d, parts[i])
  }

  lemma SellsRest(acts: seq<Action>, d: Denom, parts: seq<nat>)
    requires SellsEach(acts, d, parts) && acts != []
    ensures Sells(acts[0], d, parts[0]) && SellsEach(acts[1..], d, parts[1..])
  {
  }

  predicate FeeFree(config: PoolConfig) {
    config.totalFeeBps == 0 && EffectiveMakerBps(config) == 0
  }

  lemma SaleLeaves(p: PoolState, act: Action, inverse: bool, x: nat)
    requires p.pair.left != p.pair.right && FeeFree(p.config)
    requires Sells(act, p.pair.Side(inverse), x) && Step(p, act).Ok?
    ensures var q, a, b := After(p, act), p.balances.Side(inverse), p.balances.Side(!inverse);
            && 0 < a
            && q == p.(balances := q.balances)
            && q.balances.Side(inverse) == a + x
            && q.balances.Side(!inverse) + ActualResult(a, b, x) == b
  {
    var payment, r := SwapMoves(p, act.sender, act.funds, act.expected, act.tolerance, act.receiver);
    assert payment == OneOfPair(x, inverse);
    SwapAccounting(p.balances, x, 0, 0, inverse, act.expected, CheckedTolerance(act.tolerance).value);
    KeptAtMost(p.balances.Side(inverse), p.balances.Side(!inverse), x);
  }

  /** A run of executed fee-free sales pays exactly what the curve pays for its parts one after another. */
  lemma {:induction false} SoldAsParts(p: PoolState, acts: seq<Action>, inverse: bool, parts: seq<nat>, q: PoolState)
    requires p.pair.left != p.pair.right && FeeFree(p.config) && 0 < p.balances.Side(inverse)
    requires SellsEach(acts, p.pair.Side(inverse), parts) && AllExecuted(p, acts) && q == Run(p, acts)
    ensures q.balances.Side(inverse) == p.balances.Side(inverse) + Sum(parts)
    ensures q.balances.Side(!inverse) + SoldInParts(p.balances.Side(inverse), p.balances.Side(!inverse), parts)
         == p.balances.Side(!inverse)
    decreases |acts|
  {
    if acts != [] {
      var next, a, b := After(p, acts[0]), p.balances.Side(inverse), p.balances.Side(!inverse);
      RunFirst(p, acts);
      SellsRest(acts, p.pair.Side(inverse), parts);
      SaleLeaves(p, acts[0], inverse, parts[0]);
      SoldFirst(a, b, parts, next.balances.Side(inverse), next.balances.Side(!inverse));
      SoldAsParts(next, acts[1..], inverse, parts[1..], q);
    }
  }

  lemma SoldFirst(a: nat, b: nat, parts: seq<nat>, nextA: nat, nextB: nat)
    requires 0 < a && parts != [] && nextA == a + parts[0] && nextB + ActualResult(a, b, parts[0]) == b
    ensures nextB + SoldInParts(a, b, parts) == b + SoldInParts(nextA, nextB, parts[1..])
  {
  }

  /** So n executed fee-free sales leave as much of the output coin as the single one would, or up to n - 1 units less. */
  lemma SplitSwap(p: PoolState, acts: seq<Action>, inverse: bool, parts: seq<nat>, whole: Action)
    requires p.pair.left != p.pair.right && FeeFree(p.config) && parts != []
    requires SellsEach(acts, p.pair.Side(inverse), parts) && AllExecuted(p, acts)
    requires Sells(whole, p.pair.Side(inverse), Sum(parts)) && Step(p, whole).Ok?
    ensures var once, split := After(p, whole).balances, Run(p, acts).balances;
            && split.Side(inverse) == once.Side(inverse)
            && once.Side(!inverse) - (|parts| - 1) <= split.Side(!inverse) <= once.Side(!inverse)
  {
    SaleLeaves(p, whole, inverse, Sum(parts));
    SoldAsParts(p, acts, inverse, parts, Run(p, acts));
    SplitSale(p.balances.Side(inverse), p.balances.Side(!inverse), parts);
  }
}
