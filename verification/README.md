# CrownFi swaps: a verified model

A Dafny model of the four linked parts of a CosmWasm constant-product exchange, with proofs of what they
promise:

* the **pool contract**: two balances, a tracked LP supply and a fee configuration, moved by deposits,
  withdrawals and swaps whose arithmetic is floor division and 18-digit fixed point (`PoolCalc`, `CurveLaws`,
  `PoolMachine`, `PoolOutcomes`, `PoolLaws`, `PoolFlows`, `PoolSplits`,
  `PoolRuns`, `PoolPairContract`);
* its **trade statistics**: bounded hourly and daily deques of merged buckets with low and high rates kept in a
  32-bit encoding (`ExchangeRatios`, `RatioOrder`, `VolumeSpec`, `RateBounds`, `VolumeCounter`,
  `ReportedRates`);
* the **swap router**: a stored stack of pools worked off by callbacks inside one transaction (`Router`, `Chain`);
* the client's **route finder** over the graph of pools, and its composition with the router
  (`RouteFinder`, `RouteLength`, `Market`, `MarketQuotes`, `RoutedSwap`, `RouteHops`, `RouteSafety`, `RoutedExample`).

Pure code is modelled as functions. Code that overwrites stored fields or walks a loop is modelled as classes and
methods (`VolumeStatisticsCounter`, `PoolPair`, `SwapRouter`, `SeenSet`, `SwapMarket`, `FromRatio`, `WalkBack`), each
proved equal to a function of its inputs and old state, and the laws are proved of those functions. `Arith`, `Results`,
`FixedPoint`, `Bank` and `Payments` hold what the parts share. `dafny verify dfyconfig.toml` checks the whole project.

Conventions. Amounts are natural numbers; every place where the original rejects, saturates or panics at 128 bits is
an explicit branch (`Err(Overflow)`, `Err(Panic)`, `SatAdd`). A raw decimal is its numerator over 10^18. A canonical
address is the number it spells, the zeroed address being 0. `isqrt`, `full_mul`, `multiply_ratio`, `rotate_left` and
`ilog2` are given by their integer meaning. Messages are atomic steps, and a failing one leaves no trace.

Parameters from outside: block time (never running backwards), the chain's lookup of an EVM address, the pool's
fallback balances in rate queries.

## What the code does not keep, and exactly when it does

Each of these is something the code's comments, its documentation or its design lead one to expect.

* The squared supply can exceed the product of the balances: a swap too small to leave one unit of LP fee can lower
  the product, because the payout is rounded up (`PoolRuns.TinySwapBreaksBacking`). A swap keeps the bound exactly when
  the product it leaves, which the pool and the attached coin determine, still covers the squared supply; no other
  message can break it (`PoolRuns.StepKeepsBacked`, `PoolRuns.BackedExactly`).
* A swap can lower the product by as much as its new input balance or more, exactly when it leaves a negative LP fee; that
  takes a maker fee above the total fee (`PoolLaws.FeesInOrder`), which the unchecked configuration update lets through
  (`PoolLaws.InvertedFeesDrainProduct`). What any executed swap leaves is in `PoolLaws.SwapProductLaw`, for every
  configuration.
* A deposit withdrawn at once can return more than was put in, exactly when it seeds a pool that has no shares but
  already holds coins (`PoolLaws.DepositThenWithdraw`, `PoolLaws.FirstDepositTakesLeftovers`).
* A deposit in the pool's own proportion fails exactly when the pool's price, one way or the other, does not fit a decimal
  (`CurveLaws.ProportionalDepositPasses`, `PoolLaws.SteepPoolTakesNoMore`).
* The rate encoding does not keep every ratio's place. Exactly 1:1 is stored as the greatest rate
  (`RatioOrder.OneToOneIsMisplaced`); so is a ratio so close to 1:1 that the rotation code, which is exact or one too large,
  overshoots to it (`RatioOrder.NearOneIsMisplaced`, `ExchangeRatios.EncodingCanOvershoot`); and of two ratios with the same
  31-bit floor the lower one may overshoot alone. `RatioOrder.EncodingMonotone` says for any two ratios of 128-bit amounts
  when they are stored in order, `ExchangeRatios.EncodingError` when the encoding is exact. Below 2^97 on the smaller side
  only the first can happen (`RatioOrder.ExactlyMonotone`).
* The average reported with a window's rates can lie outside the low and high reported beside it, because encodings below
  1:1 are rounded down and those above up (`ReportedRates.LowCanBeAboveAverage`, `ReportedRates.HighCanBeBelowAverage`).
  The low is at most the average if some trade was below 1:1, the high at least if some trade was not
  (`ReportedRates.LowIsBelowAverage`, `ReportedRates.HighIsAboveAverage`), and otherwise it is off by no more than one encoding
  (`ReportedRates.AverageWithinOneStep`).
* The windowed queries accept up to 255 hours or days but hold 25 and 31 buckets: beyond 24 hours or 30 days they answer for
  the trades from the oldest bucket still held (`VolumeSpec.RetainedSees`).
* The start reported by the daily queries is the day of the latest trade, not of the earliest one in the window as the
  field's documentation has it (`VolumeCounter.ReportedDayIsEarliest` says when the two agree,
  `VolumeCounter.ReportedDayCanBeLater` where they do not). The amounts, lows and highs are right.
* A bucket's normalized output does not accumulate: every trade after the first restarts it from the right-hand total
  (`RateBounds.NormalizedRestarts`).
* The swap query aborts, where an executed swap succeeds, exactly when the payout at the current price rounds to zero
  (`PoolLaws.SimulateSwapRefines`, `PoolLaws.QueryCanAbort`), or when a maker fee that nobody receives is configured so far
  above the total that it overflows (`PoolLaws.QueryCanOverflow`).
* The resolver's comments speak of lowest hops and exponential time. It finds a route whenever there is one, in linearly
  many calls (`RouteFinder.ResolveRoute`), but not always the shortest (`RouteFinder.NotAlwaysShortest`): it finds a
  shortest one exactly when some shortest chain is not cut by an earlier branch (`RouteLength.ShortestExactly`).
* `buildSwapIxs` attaches the offer under the name it was given; under an unwrapped name the first pool refuses it
  (`RouteSafety.OfferMustBeWrapped`).
* A stored intermediate tolerance equal to the largest decimal is read back as none (`Router.ToleranceRoundTrip`).

## Model

| member | source | states |
|---|---|---|
| PoolOutcomes.SwapGoesThrough | contracts/crownfi-pool-pair/src/contract.rs:333-371 | a swap of either coin goes through if and only if its tolerance (half a percent if none is given) is at most a half, the input side is not empty, the curve's payout is within the tolerance of the expectation (the payout at the current price if none is given), the fees can be computed, something is left after them, the pool holds the output and the sums fit |
| PoolOutcomes.SwapMovesExactly | contracts/crownfi-pool-pair/src/contract.rs:373-421 | it then takes the coin in and sends the receiver the curve's payout less the total fee and the fee receiver, if there is one, the maker fee, and nobody else anything |
| PoolOutcomes.SwapRefusals | contracts/crownfi-pool-pair/src/contract/pool.rs:93-113 | which of the tolerance, the empty pool and the slippage a refusal names |
| PoolOutcomes.SwapCoins | contracts/crownfi-pool-pair/src/contract.rs:349-369 | a swap of anything but one positive amount of one of the pool's coins never goes through, whatever is expected |
| PoolOutcomes.FirstMint | contracts/crownfi-pool-pair/src/contract/pool.rs:46-52 | a first deposit mints the integer square root of its product, if and only if that product is at least a million |
| PoolOutcomes.FirstDeposit | contracts/crownfi-pool-pair/src/contract.rs:175-228 | a deposit without shares outstanding goes through if and only if both coins are there, in order, their product is at least a million and the sums fit; its receiver, and nobody else, gets the root in shares |
| PoolOutcomes.LaterDeposit | contracts/crownfi-pool-pair/src/contract.rs:175-228 | a later one if and only if its price passes the check and the smaller proportional amount of shares is at least one; its receiver, and nobody else, gets that amount |
| PoolOutcomes.DepositRefusals | contracts/crownfi-pool-pair/src/contract.rs:175-200 | which of the tolerance, the coins, their order, a zero amount, the sums and the minimum a refused deposit names |
| PoolOutcomes.Instantiated | contracts/crownfi-pool-pair/src/contract.rs:42-79 | a pool comes to life if and only if it is given two coins with a product of at least a million; it has their denoms, the given configuration, and the root of the product in shares, all of it the receiver's |
| PoolOutcomes.InstantiateRefusals | contracts/crownfi-pool-pair/src/contract.rs:42-79 | which of the coins, a zero amount and the minimum a refused instantiation names |
| PoolOutcomes.WithdrawOutcome | contracts/crownfi-pool-pair/src/contract.rs:230-331 | a withdrawal goes through if and only if the sender has the shares, the supply covers them and they are worth a unit of each coin; it pays the floored proportions to their receivers |
| PoolOutcomes.WithdrawReceivers | contracts/crownfi-pool-pair/src/contract.rs:230-331 | a plain withdrawal pays both coins to its receiver, a split one each to its own, and to the sender where none is named |
| PoolOutcomes.WithdrawRefusals | contracts/crownfi-pool-pair/src/contract.rs:230-260 | which of the coins, a zero amount, the denom, the sender's shares and the empty refund a refused withdrawal names |
| PoolOutcomes.Configured | contracts/crownfi-pool-pair/src/contract.rs:136-173 | only the stored admin, sending no coins, changes the configuration, and only the fields given |
| PoolOutcomes.OnlyAdminConfigures | contracts/crownfi-pool-pair/src/contract.rs:136-173 | over any run in which its admin sends no update a pool's configuration stays |
| PoolRuns.ShareValueNeverFalls | contracts/crownfi-pool-pair/src/contract.rs:175-421 | over any run without re-seeding in which no executed swap lowers the product, the product of the balances per squared share never falls (cross-multiplied) |
| PoolRuns.BackedExactly | contracts/crownfi-pool-pair/src/contract.rs:175-421 | tracked supply squared is at most left balance times right balance in every state of a run, of messages, donations and outside burns, if and only if each executed swap leaves product enough for it, read off the pool and the attached coin |
| PoolRuns.StepKeepsBacked | contracts/crownfi-pool-pair/src/contract.rs:175-421 | the same for one message: only a swap can break the bound, and exactly when the product it leaves is below the squared supply |
| PoolRuns.SwapLeaves | contracts/crownfi-pool-pair/src/contract.rs:333-421 | that product is a function of the pool and the attached coin; a swap changes nothing but the balances |
| PoolRuns.SupplyStaysBacked | contracts/crownfi-pool-pair/src/contract.rs:175-421 | so the bound survives any run in which no executed swap lowers the product, emptying and re-seeding included |
| PoolRuns.FeeKeepsProduct | contracts/crownfi-pool-pair/src/contract/pool.rs:115-117 | a caller's check: with the maker fee within the total, a curve amount whose fee difference reaches a whole unit raises the product |
| PoolRuns.InstantiateIsBacked | contracts/crownfi-pool-pair/src/contract.rs:42-79 | a new pool starts with that bound and with its shares covered by the supply |
| PoolRuns.BackedPoolHasBothCoins | contracts/crownfi-pool-pair/src/contract/pool.rs:64-67 | so while shares are outstanding both balances are positive and a later deposit cannot divide by zero |
| PoolRuns.TinySwapBreaksBacking | contracts/crownfi-pool-pair/src/contract/pool.rs:101-119 | a concrete swap that leaves no LP fee and breaks the bound |
| PoolRuns.SwapsCannotTakeBoth | contracts/crownfi-pool-pair/src/contract.rs:333-421 | from any pool, no run of swaps that never lower the product and at least once raise it ends with both balances at or below their start |
| PoolRuns.ClaimsAreCovered | contracts/crownfi-pool-pair/src/workarounds.rs:6-31 | after any run with external LP burns and transfers, all holders' claims together are at most each balance |
| PoolRuns.HoldersStayCovered | contracts/crownfi-pool-pair/src/workarounds.rs:6-31 | holders' balances sum to at most the tracked supply in every reachable state |
| PoolRuns.GapIsBurned | contracts/crownfi-pool-pair/src/workarounds.rs:6-31 | over any run the tracked supply exceeds what is held by exactly what was burned outside the contract |
| PoolFlows.RunConserves | contracts/crownfi-pool-pair/src/contract.rs:175-421 | over any run, of each coin, what the pool holds plus what it sent out is what it held plus what executed messages brought |
| PoolFlows.SwapPays | contracts/crownfi-pool-pair/src/contract.rs:375-420 | of the output coin a swap sends the receiver the payout and the fee receiver the maker fee, nobody else anything; of the input coin nothing |
| PoolFlows.WithdrawPays | contracts/crownfi-pool-pair/src/contract.rs:241-331 | each receiver gets the redeemed shares' part of its coin and nobody else anything; exactly the sender's attached shares disappear |
| PoolFlows.ProvideCredits | contracts/crownfi-pool-pair/src/contract.rs:205-227 | a deposit credits its receiver, and nobody else, with every share it adds to the supply |
| PoolLaws.SwapProductLaw | contracts/crownfi-pool-pair/src/contract.rs:351-398 | for every fee configuration: an executed swap leaves the old product less the division's remainder plus the LP fee times the new input balance, so it rises exactly when a unit of LP fee stays and is kept otherwise exactly when none is missing and the division is exact; it loses less than the new input balance exactly when the LP fee is not negative |
| PoolLaws.InvertedFeesDrainProduct | contracts/crownfi-pool-pair/src/contract.rs:136-173 | with a maker fee above the total it can lose far more: a concrete executed swap |
| PoolLaws.FeesInOrder | contracts/crownfi-pool-pair/src/state.rs:90-92 | with the maker fee within the total the LP fee is never negative |
| PoolLaws.SwapMeetsExpectation | contracts/crownfi-pool-pair/src/contract/pool.rs:109-113 | an executed swap with expectation e and raw tolerance t has e*(10^18-t) <= actual*10^18 < e*(10^18+t+1) |
| PoolLaws.SwapAccounting | contracts/crownfi-pool-pair/src/contract/pool.rs:72-125 | payout, total fee and spread add up as documented: the first two to the curve's amount, all three to the payout at the current price (or the curve's, if rounded above it) |
| PoolLaws.ProvideKeepsBacking | contracts/crownfi-pool-pair/src/contract.rs:195-208 | a later deposit never lowers either coin's balance per share, and mints something |
| PoolLaws.RedeemKeepsBacking | contracts/crownfi-pool-pair/src/contract.rs:241-253 | nor does a withdrawal |
| PoolLaws.DepositThenWithdraw | contracts/crownfi-pool-pair/src/contract/pool.rs:27-69 | a deposit withdrawn at once returns at most what was put in of each coin, if and only if shares were outstanding or the pool was empty |
| PoolLaws.FirstDepositTakesLeftovers | contracts/crownfi-pool-pair/src/contract/pool.rs:46-52 | a concrete deposit into such a pool that returns more than was put in |
| PoolLaws.SteepPoolTakesNoMore | contracts/crownfi-pool-pair/src/contract/pool.rs:164-180 | a pool that can be seeded but refuses a second deposit in its own proportion |
| PoolLaws.SimulateProvideRefines | contracts/crownfi-pool-pair/src/contract.rs:458-479 | whenever a deposit succeeds, the query on the prior state returns the same shares and the value they have right after it |
| PoolOutcomes.DepositQueryOutcome | contracts/crownfi-pool-pair/src/contract.rs:458-479 | for which offers the deposit query answers, and with what: the root of the product worth everything there is, or the smaller proportional amount worth its part |
| PoolLaws.SimulateSwapRefines | contracts/crownfi-pool-pair/src/contract.rs:480-497 | whenever a swap succeeds, the query on the prior state answers if and only if the naive result is positive and the configured maker fee does not overflow (it cannot if somebody receives it or it is within the total fee), and then with the same payout, spread and total fee |
| PoolOutcomes.SwapQueryOutcome | contracts/crownfi-pool-pair/src/contract.rs:480-497 | for which coins, pools and fees the swap query answers at all, and its four figures |
| PoolLaws.QueryCanAbort | contracts/crownfi-pool-pair/src/contract.rs:480-497 | a concrete executed swap for which the query aborts |
| PoolLaws.QueryCanOverflow | contracts/crownfi-pool-pair/src/contract.rs:480-497 | another, over a maker fee that nobody receives |
| PoolOutcomes.NaiveOutcome | contracts/crownfi-pool-pair/src/contract/pool.rs:138-162 | the infinite-liquidity quote is given if and only if the input side is not empty and no fee overflows, and is the payout at the current price less the total fee, both fees taken of that payout |
| PoolLaws.NaiveQuoteBoundsSwap | contracts/crownfi-pool-pair/src/contract/pool.rs:138-162 | the infinite-liquidity quote is at most one unit below what a swap pays |
| CurveLaws.SwapProduct | contracts/crownfi-pool-pair/src/contract/pool.rs:101-107 | the product after a swap is the old one less the division's remainder plus the kept fee times the new input balance |
| CurveLaws.PayoutNearPrice | contracts/crownfi-pool-pair/src/contract/pool.rs:93-107 | rounding the payout up never beats the current price by more than one unit |
| CurveLaws.SplitSale | contracts/crownfi-pool-pair/src/contract/pool.rs:101-107 | an n-way split of a fee-free sale pays what the single sale pays, plus at most n-1 units |
| CurveLaws.SplitRedemption | contracts/crownfi-pool-pair/src/contract/pool.rs:27-38 | an n-way split of a withdrawal pays no more than the combined one and loses at most n-1 units |
| PoolSplits.WithdrawnInParts | contracts/crownfi-pool-pair/src/contract.rs:230-331 | a run of executed withdrawals, by anyone to anyone, pays of either coin exactly the successive redemptions those laws are about, and takes their shares off the supply |
| PoolSplits.SplitWithdrawal | contracts/crownfi-pool-pair/src/contract.rs:230-331 | n executed withdrawals leave at least what the combined one would of each coin, and at most n-1 units more |
| PoolSplits.SoldAsParts | contracts/crownfi-pool-pair/src/contract.rs:333-421 | a run of executed swaps of one coin without fees pays exactly what the curve pays for its parts |
| PoolSplits.SplitSwap | contracts/crownfi-pool-pair/src/contract.rs:333-421 | n executed swaps without fees leave at most what the single one would of the output coin, and at most n-1 units less |
| CurveLaws.MintBounds | contracts/crownfi-pool-pair/src/contract/pool.rs:59-67 | the shares minted are the largest number that dilutes neither coin |
| CurveLaws.AcceptedDepositIsBalanced | contracts/crownfi-pool-pair/src/contract/pool.rs:164-180 | an accepted deposit (x, y) into (A, B) with raw tolerance t has x*B*(10^18-t) < y*(A*10^18+2B), and the mirror image |
| CurveLaws.RejectedDepositIsImbalanced | contracts/crownfi-pool-pair/src/contract/pool.rs:164-180 | a deposit rejected as imbalanced has x*B*(10^18-t) > y*A*10^18, or the mirror image: with the row above, the check is exact up to two units of the raw price |
| CurveLaws.ProportionalDepositPasses | contracts/crownfi-pool-pair/src/contract/pool.rs:164-180 | an exactly proportional deposit passes the check, unless the pool's own price cannot be represented at all |
| FixedPoint.WithinTolerance | contracts/crownfi-pool-pair/src/contract/pool.rs:109-113 | a rounded ratio is within t of one exactly when the amounts satisfy the two-sided bound |
| PoolPairContract.PoolPair.Deploy | contracts/crownfi-pool-pair/src/contract.rs:42-79 | instantiation gives a fresh contract in the machine's state with an empty trade log, or the machine's error and no contract |
| PoolPairContract.PoolPair.constructor | contracts/crownfi-pool-pair/src/contract.rs:48-79 | what it stores once its checks have passed |
| PoolPairContract.PoolPair.MintWorkaround | contracts/crownfi-pool-pair/src/workarounds.rs:6-13 | adds to the tracked supply and the receiver's shares, or fails unchanged exactly on 128-bit overflow |
| PoolPairContract.PoolPair.BurnTokenWorkaround | contracts/crownfi-pool-pair/src/workarounds.rs:15-22 | takes off the tracked supply and the sender's shares, or fails unchanged exactly when the supply is short |
| PoolPairContract.PoolPair.ProcessUpdateConfig | contracts/crownfi-pool-pair/src/contract.rs:136-173 | the admin's given fields, the endorsement among them, replace the stored ones, unchecked; attached coins and anyone else are refused |
| PoolPairContract.PoolPair.ProcessProvideLiquidity | contracts/crownfi-pool-pair/src/contract.rs:175-228 | the new state and payments, or the error and no change, are the machine's deposit step |
| PoolPairContract.PoolPair.ProcessWithdrawLiquidity | contracts/crownfi-pool-pair/src/contract.rs:230-272 | likewise for a withdrawal to one receiver |
| PoolPairContract.PoolPair.ProcessWithdrawAndSplitLiquidity | contracts/crownfi-pool-pair/src/contract.rs:274-331 | likewise for a withdrawal to two receivers |
| PoolPairContract.PoolPair.ProcessSwap | contracts/crownfi-pool-pair/src/contract.rs:333-421 | likewise for a swap; an executed swap logs one trade of exactly what moved on each side, a failed one none |
| VolumeSpec.RetainedMatchesLog | contracts/crownfi-pool-pair/src/state.rs:282-348 | for chronological logs the bounded deque gives the full log's aggregate over every window of fewer units than it has buckets, despite merging and eviction |
| VolumeSpec.RetainedSees | contracts/crownfi-pool-pair/src/state.rs:282-348 | over any window whatever it gives the log's aggregate from its oldest bucket on |
| VolumeSpec.RetainedShape | contracts/crownfi-pool-pair/src/state.rs:292-314 | the deque is within its limit, its buckets strictly increase and the last one is the last trade's |
| VolumeSpec.RetainedIsSuffix | contracts/crownfi-pool-pair/src/state.rs:304-306 | popping one bucket per overflow keeps exactly the newest ones |
| VolumeSpec.BucketsMatchLog | contracts/crownfi-pool-pair/src/state.rs:292-303 | merging trades into buckets loses nothing any window can see |
| VolumeSpec.LogTotals | contracts/crownfi-pool-pair/src/state.rs:254-257 | step-by-step saturating sums are the true sums cut off at 128 bits |
| VolumeSpec.LogBounds | contracts/crownfi-pool-pair/src/state.rs:553-609 | a window's low, high and first time bound every logged trade in it |
| VolumeSpec.LogAttained | contracts/crownfi-pool-pair/src/state.rs:553-609 | and each is attained by such a trade: they are the minimum and the maximum |
| VolumeCounter.NewVolume | contracts/crownfi-pool-pair/src/state.rs:239-253 | a new bucket holds one trade |
| VolumeCounter.AddVolume | contracts/crownfi-pool-pair/src/state.rs:254-266 | the updated copy is the bucket with the trade merged in |
| VolumeCounter.WalkBack | contracts/crownfi-pool-pair/src/state.rs:571-601 | the backward loop with its early exit and its special first record computes the window's aggregate over the deque |
| VolumeCounter.VolumeStatisticsCounter.UpdateVolumes | contracts/crownfi-pool-pair/src/state.rs:282-348 | both deques and the all-time record stay what the extended log calls for |
| VolumeCounter.VolumeStatisticsCounter.GetVolumeAllTime | contracts/crownfi-pool-pair/src/state.rs:349-363 | the aggregate of the whole log, from its first trade |
| VolumeCounter.VolumeStatisticsCounter.GetExchangeRateAllTime | contracts/crownfi-pool-pair/src/state.rs:486-516 | extremes and average of the whole log, or the fallback |
| VolumeCounter.VolumeStatisticsCounter.GetVolumePerHours | contracts/crownfi-pool-pair/src/state.rs:378-423 | the log's saturating sums over [now-h, now), and the hour of the earliest trade there, as far back as buckets are held: completely for 1 to 24 hours |
| VolumeCounter.VolumeStatisticsCounter.GetVolumePerDays | contracts/crownfi-pool-pair/src/state.rs:439-485 | likewise for days, completely for 1 to 30, with the day that is reported as their start |
| VolumeCounter.VolumeStatisticsCounter.GetExchangeRatePerHours | contracts/crownfi-pool-pair/src/state.rs:553-609 | the least and greatest encoded rate over every logged trade of the window, as far back as buckets are held (completely for 1 to 24 hours), and the average of their totals |
| VolumeCounter.VolumeStatisticsCounter.GetExchangeRatePerDays | contracts/crownfi-pool-pair/src/state.rs:646-703 | likewise for days, completely for 1 to 30 |
| VolumeCounter.ReportedDayIsEarliest | contracts/crownfi-pool-pair/src/state.rs:471-484 | over any window the reported start day is the earliest if and only if all its trades lie in the last trade's day |
| VolumeCounter.ReportedDayCanBeLater | contracts/crownfi-pool-pair/src/state.rs:471-484 | for any two trades on successive days, asked about the day after, it is the later day |
| ReportedRates.RatesAnswered | contracts/crownfi-pool-pair/src/state.rs:602-606 | a rate response for a window with trades has as low the least and as high the greatest decimal of any trade's rate, each some trade's, and as average the floored decimal of the window's totals |
| ReportedRates.FallbackAnswered | contracts/crownfi-pool-pair/src/state.rs:568-578 | with no trade on record all three are the floored decimal of the right balance over the left |
| ReportedRates.DecimalValue | contracts/crownfi-pool-pair/src/state.rs:211-225 | the decimal of an encoding is the floor of its value, or of its inverse's, over 2^31, and the largest one for the reserved encoding |
| ReportedRates.LowIsBelowAverage | contracts/crownfi-pool-pair/src/state.rs:553-609 | over any window whose trades are encoded exactly and whose sums do not saturate, the reported low is at most the reported average if some trade was below 1:1 |
| ReportedRates.HighIsAboveAverage | contracts/crownfi-pool-pair/src/state.rs:553-609 | and the reported high at least the average if some trade was at or above 1:1 |
| ReportedRates.AverageWithinOneStep | contracts/crownfi-pool-pair/src/state.rs:553-609 | in any case, with no trade exactly 1:1, the average lies within one encoding of the reported range |
| ReportedRates.LowCanBeAboveAverage | contracts/crownfi-pool-pair/src/state.rs:604-606 | a single trade whose reported low exceeds its reported average |
| ReportedRates.HighCanBeBelowAverage | contracts/crownfi-pool-pair/src/state.rs:604-606 | and one whose reported high falls short of it |
| RateBounds.AverageWithinBounds | contracts/crownfi-pool-pair/src/state.rs:142-204 | the encoding of a window's totals, if these do not saturate and the smaller is below 2^97, lies between the window's low (no trade exactly 1:1) and its high (totals not exactly 1:1) |
| RateBounds.BucketAverageWithinBounds | contracts/crownfi-pool-pair/src/state.rs:239-266 | the same for any bucket built by any run of trades that does not saturate, smaller total below 2^97 |
| RateBounds.BucketIsWindow | contracts/crownfi-pool-pair/src/state.rs:239-266 | a bucket is the aggregate of its trades |
| RateBounds.NormalizedRestarts | contracts/crownfi-pool-pair/src/state.rs:239-266 | a bucket's normalized output is not the sum of its trades': from the second on it is the right-hand total and what the last trade adds |
| ExchangeRatios.FromRatio | contracts/crownfi-pool-pair/src/state.rs:142-164 | the rotate/ilog2/shift code computes the shifted quotient, for all 128-bit inputs, and its 32-bit cast drops nothing |
| ExchangeRatios.Rotations | contracts/crownfi-pool-pair/src/state.rs:143-152 | the carried-out bits are the quotient by 2^97, and rotating back undoes them without loss |
| ExchangeRatios.EncodingWithinOne | contracts/crownfi-pool-pair/src/state.rs:142-164 | the encoding of min:max is floor(min*2^31/max) or one more |
| ExchangeRatios.EncodingError | contracts/crownfi-pool-pair/src/state.rs:147-158 | and exactly when it is the floor |
| ExchangeRatios.EncodingExact | contracts/crownfi-pool-pair/src/state.rs:142-158 | it is the floor whenever the smaller operand is below 2^97 |
| ExchangeRatios.EncodingCanOvershoot | contracts/crownfi-pool-pair/src/state.rs:142-158 | two different amounts that encode as the reserved value |
| RatioOrder.CmpIsTotalOrder | contracts/crownfi-pool-pair/src/state.rs:168-204 | the custom comparison is a total order with the declared MIN and MAX, and set_if_less and set_if_greater are its minimum and maximum |
| RatioOrder.EncodingMonotone | contracts/crownfi-pool-pair/src/state.rs:142-204 | for any two ratios of 128-bit amounts in order, the encodings are in order if and only if the upper is stored at the top; or the lower is not, and they lie on different sides of 1:1, or on one side with different 31-bit floors, or without an overshoot that only the wrong one of them has |
| RatioOrder.ExactlyMonotone | contracts/crownfi-pool-pair/src/state.rs:142-204 | below 2^97 on the smaller side that is: the lower is not exactly 1:1, or the upper is too, or the upper is beyond 2^31:1 |
| RatioOrder.NearOneIsMisplaced | contracts/crownfi-pool-pair/src/state.rs:147-158 | the greatest 128-bit ratio below 1:1 is ordered after 2:1 |
| RatioOrder.OneToOneIsMisplaced | contracts/crownfi-pool-pair/src/state.rs:154-158 | 1:1 is ordered after 2:1 |
| RatioOrder.DecimalPreservesOrder | contracts/crownfi-pool-pair/src/state.rs:211-225 | the conversion to decimals never panics and compares exactly as the encodings do |
| Router.AlwaysOnTrack | contracts/crownfi-swap-router/src/contract.rs:72-203 | whatever calls arrive in whatever order, the pools called and those still stacked are the accepted route in order with nothing paid out, or the router is idle with an empty stack after one payout |
| Router.ReplyMeansComplete | contracts/crownfi-swap-router/src/contract.rs:207-222 | the completion check passes if and only if the last accepted route was called through in order and paid out once |
| Router.CallbacksLeft | contracts/crownfi-swap-router/src/contract.rs:141-203 | an idle router refuses callbacks; one in progress takes exactly one more than it has swappers stacked, then is idle |
| Router.StartOutcomes | contracts/crownfi-swap-router/src/contract.rs:81-138 | a route is accepted if and only if none is in progress, nothing is not expected, the receiver is known and the route is not empty, with the errors in that order; the first pool is called and the others stacked in reverse |
| Router.CallbackOutcomes | contracts/crownfi-swap-router/src/contract.rs:141-176 | a callback without a route fails; one with pools stacked calls the last of them with what it brings; the ending one takes exactly one coin; the reply passes on an idle router alone |
| Router.TermsAreKept | contracts/crownfi-swap-router/src/contract.rs:88-121 | what an accepted call stores makes the last callback pass exactly when the amount is within the expectation's tolerance, and pay the receiver asked for, through the unwrapper asked for |
| Router.ToleranceRoundTrip | contracts/crownfi-swap-router/src/contract.rs:103-105 | the stored tolerance is read back unchanged unless it is the largest decimal |
| Router.SwapRouter.ProcessExecuteSwaps | contracts/crownfi-swap-router/src/contract.rs:72-139 | the loop leaves the rest of the route reversed on the stack and calls the first pool, with the source's error cases in order |
| Router.SwapRouter.ProcessExecuteNextStep | contracts/crownfi-swap-router/src/contract.rs:141-203 | pops and calls the next pool with the received funds, or checks the expectation, clears the state and pays out |
| Router.SwapRouter.ProcessReply | contracts/crownfi-swap-router/src/contract.rs:207-222 | fails exactly while a state or a stacked swapper is left |
| Router.SwapRouter.Execute | contracts/crownfi-swap-router/src/contract.rs:46-70 | a failing call leaves the storage as it was |
| Chain.DispatchConserves | contracts/crownfi-swap-router/src/contract.rs:124-138 | any messages dispatched depth first conserve every denom's total over all accounts |
| RoutedSwap.TransactIsFold | contracts/crownfi-swap-router/src/contract.rs:116-202 | a transaction, with its callbacks and reply, is the swaps folded over the listed pools in order followed by one delivery |
| RouteHops.HopIsSwapStep | contracts/crownfi-pool-pair/src/contract.rs:333-421 | for whatever contract is deployed at the pool with the ledger's balances: a hop goes through if and only if that contract's own swap of the coin does, or fails with its error; the router gets what the swap pays it, and the contract is left in the swap's state |
| RouteHops.HopPaysAsSwapStep | contracts/crownfi-pool-pair/src/contract.rs:393-420 | and every other account gets what that swap pays it, the fee receiver its fee |
| RouteHops.RouteOutcome | contracts/crownfi-swap-router/src/contract.rs:141-163 | running a route on the ledger is running the pools' own swaps in order: the same coin or error, never a mismatch, every pool left in its own state, every fee receiver with its hops' fees |
| RouteHops.PricedAtOutset | contracts/crownfi-swap-router/src/contract.rs:141-163 | over distinct pools each hop is priced as its pool was at the outset |
| RouteSafety.RoutedOutcome | packages/npm/sei-swaps-sdk/src/swap_market.ts:1029-1055 | a routed transaction succeeds if and only if the user can pay, something is expected if anything and the receiver is known, every pool's own swap goes through and the result is within the expectation's tolerance; it never fails by a denom mismatch |
| RouteSafety.RoutedDelivery | packages/npm/sei-swaps-sdk/src/swap_market.ts:1029-1055 | on success the coin has the asked denom, the router is idle, every denom is conserved, and of all accounts that are no pools (the router among them) the user has the offer less, the receiver asked for, or its unwrapper, the coin more, each fee receiver the maker fees of its hops, and nobody else any more or less; every pool is in the state its own swaps left it in |
| RouteSafety.ResolvedRouteRuns | packages/npm/sei-swaps-sdk/src/swap_market.ts:1029-1055 | whatever the resolver returns between connected denoms has that outcome and that delivery |
| RoutedExample.TwoHops | contracts/crownfi-swap-router/src/contract.rs:72-203 | a two-pool route with its numbers, so the settings above are met: 1000 units arrive as exactly the 995 that were asked for, and the fee receiver gets its one unit |
| RouteSafety.OfferMustBeWrapped | packages/npm/sei-swaps-sdk/src/swap_market.ts:1050-1055 | an offer attached under an unwrapped name always fails |
| RouteFinder.ResolveIsCorrect | packages/npm/sei-swaps-sdk/src/swap_market.ts:948-983 | for from != to the search returns null exactly when no chain of pools connects them, and otherwise a chain passing no denom twice, although branches share the visited set |
| RouteFinder.ResolveRoute | packages/npm/sei-swaps-sdk/src/swap_market.ts:948-983 | the recursive loop computes the search function, terminates, adds no denom twice and makes at most one call more than the lists it walks have entries |
| RouteFinder.DirectIsOneHop | packages/npm/sei-swaps-sdk/src/swap_market.ts:967-972 | a direct pair always gives the one-hop route |
| RouteFinder.RoutabilityIsSymmetric | packages/npm/sei-swaps-sdk/src/swap_market.ts:948-983 | routes exist both ways or neither |
| RouteLength.FindsShortestClear | packages/npm/sei-swaps-sdk/src/swap_market.ts:948-983 | the route found is a shortest one among the simple chains no earlier branch cuts (at each denom, no neighbour listed before the next one reaches the rest of the chain past the denoms behind), and of several the one that goes by the earlier listed neighbours |
| RouteLength.ShortestExactly | packages/npm/sei-swaps-sdk/src/swap_market.ts:957-978 | so it has fewest hops of all chains if and only if some chain with fewest hops is not cut |
| RouteLength.OnlyChainIsFound | packages/npm/sei-swaps-sdk/src/swap_market.ts:948-983 | where one simple chain connects the denoms, as in a market without cycles, it is that one |
| RouteLength.ShorterChainIsCut | packages/npm/sei-swaps-sdk/src/swap_market.ts:957-978 | in the market of the next row the shorter chain is a shortest one, and is cut |
| RouteFinder.NotAlwaysShortest | packages/npm/sei-swaps-sdk/src/swap_market.ts:957-978 | a four-denom market where the route found is longer than another chain |
| Market.EdgesArePairs | packages/npm/sei-swaps-sdk/src/swap_market.ts:902-917 | two denoms are adjacent in the trade map exactly when some pair joins them |
| Market.TradeMapIsSymmetric | packages/npm/sei-swaps-sdk/src/swap_market.ts:902-917 | the trade map is symmetric |
| Market.NeighboursInOrder | packages/npm/sei-swaps-sdk/src/swap_market.ts:902-917 | it lists a denom's neighbours once for each of its pairs, in the order of the pairs |
| Market.HopHasPair | packages/npm/sei-swaps-sdk/src/swap_market.ts:884-890 | every hop along the trade map is found by the pair lookup, whichever way round it is stored |
| Market.TradedNames | packages/npm/sei-swaps-sdk/src/swap_market.ts:884-886 | names with a wrapped form are looked up under it, others as they are, and no denom in the trade map has a different one |
| Market.SwapMarket.GetDirectTradeMap | packages/npm/sei-swaps-sdk/src/swap_market.ts:902-917 | the loop builds the trade map |
| Market.SwapMarket.ResolveMultiSwapRoute | packages/npm/sei-swaps-sdk/src/swap_market.ts:996-1003 | empty for equal assets, null exactly without a chain, otherwise a simple chain, and the direct pair when there is one |
| Market.SwapMarket.FollowRoute | packages/npm/sei-swaps-sdk/src/swap_market.ts:1237-1242 | the loop converts every hop from its own first denom to its own second, whichever way round its pair is stored, and its current denom ends at the asked one |
| MarketQuotes.PairConverts | packages/npm/sei-swaps-sdk/src/swap_market.ts:335-344 | a pair converts a value, less the fee rounded down, to the floor of its product with the deposit that comes out over the one that goes in, and fails if and only if the latter is empty |
| MarketQuotes.QuoteMeans | packages/npm/sei-swaps-sdk/src/swap_market.ts:1237-1242 | a quote along a route is the end of a series of values each of which so converts to the next by a pair joining its hop's denoms |
| MarketQuotes.NoQuote | packages/npm/sei-swaps-sdk/src/swap_market.ts:1237-1242 | and it fails if and only if some hop's pair holds nothing of what goes in |
| MarketQuotes.QuoteAtMostContract | contracts/crownfi-pool-pair/src/contract/pool.rs:138-162 | at the balances a pool holds the client's quote without fees is the contract's payout at the current price, and with fees at most the contract's infinite-liquidity quote |
| Market.SwapMarket.ExchangeValue | packages/npm/sei-swaps-sdk/src/swap_market.ts:1227-1243 | the quote along the resolver's route, nothing exactly when there is no route, an error for an empty deposit |

## Left out

- JSON, attributes, storage bytes, address conversion and the storage containers: modelled as plain fields, sequences and maps.
- Callbacks a payout's payload makes into the same pool between the messages of one response: pool messages are atomic steps. The router's own callbacks are modelled, in `Chain`.
- RouteSafety.RoutedOutcome: is stated for an idle router and for fee receivers that are neither pools nor the router; a fee paid to a pool further along would change its price midway.
- A one-hop route is sent by the client straight to its pool, with the user's slippage tolerance; the router theorems cover routes of any length, one included.
- The client's `refresh`: `ValidMarket` states what it leaves (one pair per key, distinct addresses, wrapped names standing for themselves).
- The configuration's `inverse` flag, which only turns displayed pairs round.
- The check on instantiation that the two coins are in canonical order, which the bank guarantees.
- The statistics update during routed swaps: `Chain` prices swaps with the machine's calculation and leaves the log to `PoolPair.ProcessSwap`.
- What an unwrapper contract does with the coin: the delivery to it is modelled, as a transfer.
- `get_volume_since_hour_start`, `get_volume_since_day_start` and their rate counterparts: they read one record.
- `estimate_apy`, the only reader of `amount_output_normalized`.
- The factory, the token wrappers, the web application and the generated SDK bindings.
- `SwapMarket.exchangeRate`, `SwapMarket.simulateSwap` and the normalized volume queries (floats, promises, network queries), and the router's `SimulateSwaps` query.
- RateBounds.AverageWithinBounds: is stated for totals below 2^97 on the smaller side, and the `ReportedRates` rows for trades so encoded; above that an encoding may overshoot by one (`ExchangeRatios.EncodingError`).
- PoolMachine.SwapStep: a payment the pool makes to its own account is booked as leaving; in the bank it stays, which is the same as a donation of it in the next step.
