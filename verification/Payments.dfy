/** Reading the coins attached to a message (swaps-common/src/validation/msg.rs and cw_utils). */
module Payments {
  import opened Results
  import opened Bank
  import opened PoolCalc

  /** The two denoms of a pool in canonical order. */
  datatype PairId = PairId(left: Denom, right: Denom) {
    function Side(takeRight: bool): Denom {
      if takeRight then right else left
    }

    predicate Contains(d: Denom) {
      d == left || d == right
    }
  }

  datatype OneOfPair = OneOfPair(amount: nat, inverse: bool)

  /** No coin at all counts as a zero payment. */
  function MustPayOneOfPair(funds: seq<Coin>, pair: PairId): Result<OneOfPair, PoolError> {
    if funds == [] then Ok(OneOfPair(0, false))
    else if |funds| > 1 then Err(MultipleDenoms)
    else if funds[0].denom == pair.left then Ok(OneOfPair(funds[0].amount, false))
    else if funds[0].denom == pair.right then Ok(OneOfPair(funds[0].amount, true))
    else Err(ExtraDenom)
  }

  function MustPayPair(funds: seq<Coin>, pair: PairId): Result<Amounts, PoolError> {
    if |funds| != 2 then Err(NeedsPair)
    else if funds[0].denom != pair.left || funds[1].denom != pair.right then Err(ExtraDenom)
    else if funds[0].amount == 0 || funds[1].amount == 0 then Err(PaymentIsZero)
    else Ok(Amounts(funds[0].amount, funds[1].amount))
  }

  /** Exactly one coin, and not a zero one. */
  function OneCoin(funds: seq<Coin>): Result<Coin, PoolError> {
    if funds == [] then Err(NoFunds)
    else if |funds| > 1 then Err(MultipleDenoms)
    else if funds[0].amount == 0 then Err(NoFunds)
    else Ok(funds[0])
  }

  function MustPay(funds: seq<Coin>, denom: Denom): Result<nat, PoolError> {
    var coin :- OneCoin(funds);
    if coin.denom != denom then Err(MissingDenom) else Ok(coin.amount)
  }

  function TwoCoins(funds: seq<Coin>): Result<(Coin, Coin), PoolError> {
    if |funds| != 2 then Err(NeedsTwoCoins)
    else if funds[0].amount == 0 || funds[1].amount == 0 then Err(PaymentIsZero)
    else Ok((funds[0], funds[1]))
  }
}
