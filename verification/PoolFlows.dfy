/** Where a pool's coins come from and go to: what one message moves, and what any run adds up to. */
module PoolFlows {
  import opened Results
  import opened Bank
  import opened PoolCalc
  import opened Payments
  import opened PoolMachine
  import opened PoolLaws

  /** How much of a denom is attached to a message. */
  function Attached(funds: seq<Coin>, d: Denom): nat {
    if funds == [] then 0
    else (if funds[0].denom == d then funds[0].amount else 0) + Attached(funds[1..], d)
  }

  /** What the payments send out of one of the pool's coins. */
  function Sent(payments: seq<Payment>, takeRight: bool): nat {
    if payments == [] then 0
    else (if payments[0].takeRight == takeRight then payments[0].amount else 0) + Sent(payments[1..], takeRight)
  }

  /** The part of it that goes to one account. */
  function SentTo(payments: seq<Payment>, to: Addr, takeRight: bool): nat {
    if payments == [] then 0
    else (if payments[0].to == to && payments[0].takeRight == takeRight then payments[0].amount else 0)
         + SentTo(payments[1..], to, takeRight)
  }

  /** The pool's two coins and its LP denom are three different denoms. */
  predicate ThreeDenoms(p: PoolState) {
    p.pair.left != p.pair.right && !p.pair.Contains(p.lpDenom)
  }

  /** What a message brings of one of the pool's coins. */
  function BroughtIn(p: PoolState, act: Action, takeRight: bool): nat {
    match act
    case Donate(amounts) => amounts.Side(takeRight)
    case Provide(_, funds, _, _) => Attached(funds, p.pair.Side(takeRight))
    case Withdraw(_, funds, _) => Attached(funds, p.pair.Side(takeRight))
    case WithdrawAndSplit(_, funds, _, _) => Attached(funds, p.pair.Side(takeRight))
    case Swap(_, funds, _, _, _) => Attached(funds, p.pair.Side(takeRight))
    case _ => 0
  }

  lemma {:induction false} AttachedOne(funds: seq<Coin>, d: Denom)
    requires |funds| == 1
    ensures Attached(funds, d) == if funds[0].denom == d then funds[0].amount else 0
  {
    assert Attached(funds[1..], d) == 0;
  }

  lemma {:induction false} AttachedTwo(funds: seq<Coin>, d: Denom)
    requires |funds| == 2
    ensures Attached(funds, d) == (if funds[0].denom == d then funds[0].amount else 0)
                                  + (if funds[1].denom == d then funds[1].amount else 0)
  {
    AttachedOne(funds[1..], d);
  }

  lemma {:induction false} SentTwo(a: Payment, b: Payment, to: Addr, takeRight: bool)
    ensures Sent([a, b], takeRight) == (if a.takeRight == takeRight then a.amount else 0)
                                       + (if b.takeRight == takeRight then b.amount else 0)
    ensures SentTo([a, b], to, takeRight) == (if a.to == to && a.takeRight == takeRight then a.amount else 0)
                                             + (if b.to == to && b.takeRight == takeRight then b.amount else 0)
  {
    assert [a, b][1..] == [b] && [b][1..] == [];
    assert Sent([b], takeRight) == (if b.takeRight == takeRight then b.amount else 0);
    assert SentTo([b], to, takeRight) == (if b.to == to && b.takeRight == takeRight then b.amount else 0);
  }

  /**
   An executed swap takes the attached coin, pays the receiver the quoted amount and the fee receiver the
   maker's fee, both in the other coin, and nobody else anything.
   */
  lemma SwapPays(p: PoolState, sender: Addr, funds: seq<Coin>, expected: Option<nat>, tolerance: Option<nat>,
                 receiver: Option<Addr>, a: Addr) returns (payment: OneOfPair, r: SwapResult)
    requires p.pair.left != p.pair.right && SwapStep(p, sender, funds, expected, tolerance, receiver).Ok?
    ensures IsSwapOf(p, funds, expected, tolerance, payment, r)
    ensures Attached(funds, p.pair.Side(payment.inverse)) == payment.amount
    ensures Attached(funds, p.pair.Side(!payment.inverse)) == 0
    ensures var sent := SwapStep(p, sender, funds, expected, tolerance, receiver).value.1;
            && SentTo(sent, a, payment.inverse) == Sent(sent, payment.inverse) == 0
            && Sent(sent, !payment.inverse) == OutputOf(r)
            && SentTo(sent, a, !payment.inverse) == (if a == receiver.GetOr(sender) then r.resultAmount else 0)
                                                    + (if a == p.config.feeReceiver then r.makerFeeAmount else 0)
  {
    payment, r := SwapMoves(p, sender, funds, expected, tolerance, receiver);
    if |funds| == 1 {
      AttachedOne(funds, p.pair.left);
      AttachedOne(funds, p.pair.right);
    }
    var payout := Payment(receiver.GetOr(sender), !payment.inverse, r.resultAmount);
    if r.makerFeeAmount == 0 {
      assert [payout][1..] == [];
    } else {
      var fee := Payment(p.config.feeReceiver, !payment.inverse, r.makerFeeAmount);
      SentTwo(fee, payout, a, payment.inverse);
      SentTwo(fee, payout, a, !payment.inverse);
    }
  }

  /**
   A withdrawal destroys exactly the attached shares, the sender's, and pays each receiver those shares'
   part of its coin, and nobody else anything.
   */
  lemma WithdrawPays(p: PoolState, sender: Addr, funds: seq<Coin>, leftReceiver: Addr, rightReceiver: Addr,
                     a: Addr, takeRight: bool)
    requires ThreeDenoms(p) && WithdrawStep(p, sender, funds, leftReceiver, rightReceiver).Ok?
    ensures var (q, sent) := WithdrawStep(p, sender, funds, leftReceiver, rightReceiver).value;
            var shares, receiver := Attached(funds, p.lpDenom), if takeRight then rightReceiver else leftReceiver;
            var part := ShareOf(p.balances.Side(takeRight), shares, p.supply);
            && 0 < part == Sent(sent, takeRight)
            && SentTo(sent, a, takeRight) == (if a == receiver then part else 0)
            && q.supply + shares == p.supply
            && Balance(q.shares, a) + (if a == sender then shares else 0) == Balance(p.shares, a)
            && Attached(funds, p.pair.Side(takeRight)) == 0
  {
    AttachedOne(funds, p.lpDenom);
    AttachedOne(funds, p.pair.Side(takeRight));
    var refund := Redeem(p, sender, funds).value.1;
    SentTwo(Payment(leftReceiver, false, refund.left), Payment(rightReceiver, true, refund.right), a, takeRight);
  }

  /** A deposit credits its receiver, and nobody else, with every share it adds to the supply. */
  lemma ProvideCredits(p: PoolState, sender: Addr, funds: seq<Coin>, tolerance: Option<nat>, receiver: Option<Addr>,
                       a: Addr)
    requires ProvideStep(p, sender, funds, tolerance, receiver).Ok?
    ensures var q := ProvideStep(p, sender, funds, tolerance, receiver).value.0;
            && p.supply < q.supply
            && Balance(q.shares, a) == Balance(p.shares, a)
                                       + (if a == receiver.GetOr(sender) then q.supply - p.supply else 0)
  {
  }

  lemma SwapConserves(p: PoolState, sender: Addr, funds: seq<Coin>, expected: Option<nat>, tolerance: Option<nat>,
                      receiver: Option<Addr>, takeRight: bool)
    requires p.pair.left != p.pair.right && SwapStep(p, sender, funds, expected, tolerance, receiver).Ok?
    ensures var (q, sent) := SwapStep(p, sender, funds, expected, tolerance, receiver).value;
            q.balances.Side(takeRight) + Sent(sent, takeRight)
            == p.balances.Side(takeRight) + Attached(funds, p.pair.Side(takeRight))
  {
    var payment, r := SwapPays(p, sender, funds, expected, tolerance, receiver, sender);
  }

  lemma ProvideConserves(p: PoolState, sender: Addr, funds: seq<Coin>, tolerance: Option<nat>, receiver: Option<Addr>,
                         takeRight: bool)
    requires p.pair.left != p.pair.right && ProvideStep(p, sender, funds, tolerance, receiver).Ok?
    ensures var (q, sent) := ProvideStep(p, sender, funds, tolerance, receiver).value;
            && sent == []
            && q.balances.Side(takeRight) == p.balances.Side(takeRight) + Attached(funds, p.pair.Side(takeRight))
  {
    AttachedTwo(funds, p.pair.Side(takeRight));
  }

  /** Of each coin, what the pool has after a message and what it sent out is what it had and was brought. */
  lemma MessageConserves(p: PoolState, act: Action, takeRight: bool)
    requires ThreeDenoms(p) && Step(p, act).Ok?
    ensures var (q, sent) := Step(p, act).value;
            q.balances.Side(takeRight) + Sent(sent, takeRight)
            == p.balances.Side(takeRight) + BroughtIn(p, act, takeRight)
  {
    match act
    case Provide(sender, funds, tolerance, receiver) =>
      ProvideConserves(p, sender, funds, tolerance, receiver, takeRight);
    case Withdraw(sender, funds, receiver) =>
      WithdrawPays(p, sender, funds, receiver.GetOr(sender), receiver.GetOr(sender), sender, takeRight);
    case WithdrawAndSplit(sender, funds, left, right) =>
      WithdrawPays(p, sender, funds, left.GetOr(sender), right.GetOr(sender), sender, takeRight);
    case Swap(sender, funds, expected, tolerance, receiver) =>
      SwapConserves(p, sender, funds, expected, tolerance, receiver, takeRight);
    case Donate(_) =>
    case UpdateConfig(_, _, _, _, _, _, _) =>
    case BurnShares(_, _) =>
    case SendShares(_, _, _) =>
  }

  lemma StepKeepsDenoms(p: PoolState, act: Action)
    ensures After(p, act).pair == p.pair && After(p, act).lpDenom == p.lpDenom
  {
  }

  /** What the executed messages of a run bring of a coin, and what they send out. */
  function RunIn(p: PoolState, acts: seq<Action>, takeRight: bool): nat
    decreases |acts|
  {
    if acts == [] then 0
    else (if Step(p, acts[0]).Ok? then BroughtIn(p, acts[0], takeRight) else 0)
         + RunIn(After(p, acts[0]), acts[1..], takeRight)
  }

  function RunOut(p: PoolState, acts: seq<Action>, takeRight: bool): nat
    decreases |acts|
  {
    if acts == [] then 0
    else (if Step(p, acts[0]).Ok? then Sent(Step(p, acts[0]).value.1, takeRight) else 0)
         + RunOut(After(p, acts[0]), acts[1..], takeRight)
  }

  /** Over any run nothing of either coin is lost or made, aborted messages included. */
  lemma {:induction false} RunConserves(p: PoolState, acts: seq<Action>, takeRight: bool)
    requires ThreeDenoms(p)
    ensures Run(p, acts).balances.Side(takeRight) + RunOut(p, acts, takeRight)
         == p.balances.Side(takeRight) + RunIn(p, acts, takeRight)
    decreases |acts|
  {
    if acts != [] {
      StepKeepsDenoms(p, acts[0]);
      if Step(p, acts[0]).Ok? {
        MessageConserves(p, acts[0], takeRight);
      }
      RunConserves(After(p, acts[0]), acts[1..], takeRight);
    }
  }
}
