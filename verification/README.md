# Verification of the vault, liquidity, lending, flash loan and oracle logic

This project models, in Dafny, the arithmetic and the protocols that decide what a position owes, which accounts a
liquidation touches, what a flash loan may do, how interest and rewards accrue and how an oracle's rate comes about,
and proves properties of those models for all inputs, all runs and all reachable states. `dafny verify dfyconfig.toml`
checks all of it.

- `Common.dfy` holds results of computations that may throw, powers, and facts about division.
- `BigNumber.dfy` models the float format of debt and connection factors: a 35-bit coefficient above a 15-bit exponent,
  truncated at every step. Each operation is related to exact products and quotients, with the exact condition under
  which it throws, and the rounding is composed over runs of any length.
- `BranchWalk.dfy` follows chains of merged branches to what is left of a liquidated position. `LiquidationBranches.dfy`
  collects the branches such a walk can need.
- `TickMath.dfy`, `TickAccuracy.dfy` and `TickSearch.dfy` convert between ticks and 2^48-scaled ratios. The two constant
  tables are related to the powers 1.0015^(2^i), and through them both conversions to the ideal ratio 2^48 * 1.0015^tick
  and to each other. `PerfectRatio.dfy` is the on-chain search with the ratio it returns beside the tick, and
  `FinalPosition.dfy` uses the conversions to place a position after an operation.
- `TickBitmap.dfy` is the three-level bitmap of ticks with debt and its downward search, `TickScan.dfy` the scan tick by
  tick that it refines, and `LiquidationTicks.dfy` the collection of ticks and bitmap arrays for a liquidation.
- `Flashloan.dfy` is the flash loan program as an object whose instructions run inside atomic transactions;
  `FlashloanSafety.dfy` proves what holds at the end of every transaction and over every history.
- `ExchangePrices.dfy` accrues interest and revenue as the resolver does, and `ReserveAccrual.dfy` as the program does, over
  runs of updates and operations. `InterestConservation.dfy` settles for which totals the resolver's formula conserves
  interest and `ChainConservation.dfy` for which the program's does; `FormulaAgreement.dfy` settles on which reserves the two
  agree.
- `WithdrawalLimit.dfy` lowers a withdrawal limit over time, `SharePool.dfy` converts between shares and assets, and
  `Rewards.dfy` adds rewards to the share price as the programs do, paid over the periods of `RewardPeriods.dfy`.
  `RewardRuns.dfy` follows a market's rewards over its life, and `ResolverRewards.dfy` is the test resolver's reading of the
  share price.
- `OracleSources.dfy` accepts and loads grouped price sources, and `OracleRates.dfy` folds their hops into a rate.
- `WideWords.dfy` is the 256-bit product and the shifts, word by word, under the on-chain arithmetic, and `WideDivision.dfy`
  its long division.

A thrown error or a panic is a value `Err` of the results. Integers are unbounded where the source's are (BN), and bounds
are checked where the source checks them. A method is proved against a specification function, and the lemmas speak
about that function.

## What the proofs show about the code

- `getRatioAtTick` and `getTickAtRatio` do not invert each other: a round trip gives the tick or the one below it
  (`TickSearch.TickRoundTrip`), and exactly which is decided by one threshold for each tick (`TickSearch.RoundTripExact`).
  A unit test of the on-chain library asserts it for -462, one of the ticks that do come back.
  `getTickAtRatio(6093)` is -16384, below `MIN_TICK`. The search accepts the smallest ratio but places no position there.
- `MAX_RATIOX48` is documented as the largest ratio, and a unit test of the on-chain library asserts it, but
  `getRatioAtTick(16383)` is 13002088162051014298412982, above it. Every other tick's ratio is accepted.
- `mulDivNormal` is documented for inputs up to the 128-bit maximum, while it throws on results above 64 bits.
- The constant named `TWO_POWER_64` in `bigNumberMinified.ts` is 2^64 - 1; the code divides by shifting, so by 2^64.
- A payback worth less than one raw unit raises a position's computed debt by one.
- The resolver's formula, with supply that all bears interest: every accrual of every sound market conserves interest if and
  only if the borrowing is of one kind, mostly free of interest, of a ratio that four decimals hold, or of ratio 1, at which
  the resolver credits nothing (`InterestConservation.BorrowTotalsExact`). The program's formula has no exit at ratio 1 and
  conserves interest if and only if one of the first three holds (`ChainConservation.ChainTotalsExact`). In other borrowing
  suppliers get at most 2 in 9998 more than borrowers are charged by the resolver's formula.
- Either formula, with borrowing that all bears interest: if and only if the supply's ratio vanishes in basis points
  (`InterestConservation.SupplyTotalsExact`, `ChainConservation.ChainSupplyTotalsExact`). With mostly interest-free supply
  suppliers can get almost twice what borrowers are charged.
- Either formula, whatever the totals: if and only if the credited yield times what bears interest is within 1e4 times what is
  borrowed with interest (`ChainConservation.AnyTotalsExact`), and what an accrual credits beyond its charge is known to within
  one unit of price for each raw unit (`ChainConservation.ExcessBounds`).
- The resolver documents its formula as the same logic as the program's. Their yields are never more than one basis point
  apart, and the same unless mostly free supply meets borrowing mostly with interest and the exact yield is a whole number
  (`FormulaAgreement.YieldsAgree`). Their prices differ as well where nobody borrows with interest, at borrow ratio 1 and where
  nothing is supplied: `FormulaAgreement.FormulasAgree` states on which reserves they agree at all rates and times.
- Over a market's whole life, rewards paid are within the tokens set aside for them (`RewardRuns.RewardsWithinPromise`). Queued
  rewards whose yearly value does not fit 64 bits can be neither moved on to nor cancelled once the current ones have ended
  (`RewardRuns.NextExactly`).
- The programs cut a reward's rate at 50%, exactly from a yearly reward of half the assets on (`Rewards.CutFromHalf`). The
  lending test resolver compares rates of eighteen decimals with the programs' limit for fourteen, and pays nothing beyond it:
  a positive reward is paid nothing at all if and only if its yearly rate is above 50e12
  (`ResolverRewards.RewardUnpaidExactly`), which it is from a tenth of a percent on and is not up to one part in twenty
  thousand (`ResolverRewards.MaximumInShares`).
- In the long division, dividing by one or two words, as all callers do, always succeeds, and the branch that adds the
  divisor back is never taken. By three or four words it panics on four-word dividends whose first digit is estimated too
  large, and on no others (`WideDivision.TwoWordsExact`, `WideDivision.Div`, `WideDivision.PanicExample`).
- The loader of oracle sources asks less than the check that accepts them: `OracleSources.AcceptedExactly` states by how
  much.

## Model

| member | source | states |
|---|---|---|
| BigNumber.MostSignificantBit | ts-sdk/bigNumberMinified.ts:275-282 | one-based position of the highest set bit: 2^(m-1) <= n < 2^m, and 0 for 0 |
| BigNumber.MulDivNormalExact | ts-sdk/bigNumberMinified.ts:39-83 | for every normal below 2^128 the result is the exact floor of normal * b1 / b2, the shortcut to 0 at an exponent gap of 129 included; it throws exactly on wrongly ordered exponents or a floor above 64 bits |
| BigNumber.ValueOrdersExponents | ts-sdk/bigNumberMinified.ts:27-38 | the documented order of factors by value gives the order of exponents the code checks |
| BigNumber.MulDivNormalReduces | ts-sdk/bigNumberMinified.ts:27-83 | when b1 is at most b2 nothing throws on 64-bit input and the result never exceeds the input |
| BigNumber.NumeratorLengthIsBitLength | ts-sdk/bigNumberMinified.ts:108-120 | the two shortcuts and the search split at bit 64 find the true bit length of every product below 2^99 |
| BigNumber.MulDivBigNumberStep | ts-sdk/bigNumberMinified.ts:96-149 | one debt-factor update throws exactly when the exact product is below the smallest number of exponent 1; otherwise it is that product cut to 35 bits, normal, with an exponent that does not grow |
| BigNumber.ZeroMultiplierEmptiesCoefficient | ts-sdk/bigNumberMinified.ts:96-149 | multiplier 0 does not throw but leaves the format: its coefficient is empty |
| BigNumber.InitialFactorIsNormal | programs/vaults/src/constants.rs:23-25 | the initial branch factor is a full coefficient with exponent 16384 |
| BigNumber.DebtFactorRunAccuracy | ts-sdk/bigNumberMinified.ts:96-149 | any run of n updates that does not throw keeps the format and an exponent in 1..16384, never increases the value, and ends between (1 - 2^-34)^n times the exact product and that product |
| BigNumber.MulBigNumberStep | ts-sdk/bigNumberMinified.ts:161-199 | throws, saturates or returns the product over 2^16384 cut to 35 bits, each exactly by the exponent of the product |
| BigNumber.DivBigNumberStep | ts-sdk/bigNumberMinified.ts:211-269 | on debt factors throws exactly when the exact quotient is too small; otherwise quotient times divisor is the dividend cut to 35 bits |
| BigNumber.DivideThenMultiply | ts-sdk/bigNumberMinified.ts:161-269 | multiplying a quotient back by its divisor never throws or saturates, never ends above the dividend and loses at most a factor (1 - 2^-34)^2 |
| BranchWalk.ProcessLiquidatedPosition | ts-sdk/vault/context/state.ts:838-935 | the loop over merged branches with its early break, the cut and the collateral, against the recursive walk; it terminates on every well-founded chain |
| BranchWalk.WalkAccuracy | ts-sdk/vault/context/state.ts:864-886 | whatever closed or fresh branches there are beside the chain, on its k merged branches a walk that neither throws nor saturates has a factor between (1 - 2^-34)^k times the exact product and that product |
| BranchWalk.DebtAccuracy | ts-sdk/vault/context/state.ts:864-900 | the debt before the final cut is at least the floor of the exact quotient and at most that quotient divided by (1 - 2^-34)^k, for an end branch with a full factor or none |
| BranchWalk.SaturationPersists | ts-sdk/bigNumberMinified.ts:192-195 | a saturated factor stays saturated under a normal factor if and only if that factor is at least 1.0 |
| BranchWalk.SaturatedDebtIsZero | ts-sdk/bigNumberMinified.ts:79-82 | every debt against the saturated factor is 0 for branch factors of exponent at most 16384 |
| BranchWalk.SaturatedWalk | ts-sdk/vault/context/state.ts:864-886 | walking on from a saturated factor through factors of at least 1.0 ends saturated |
| BranchWalk.EarlyExitSound | ts-sdk/vault/context/state.ts:872-894 | breaking off at saturation settles the position exactly as walking to the end of the chain does |
| BranchWalk.EarlyExitExact | ts-sdk/vault/context/state.ts:872-908 | breaking off gives every 64-bit debt the position of the whole chain if and only if walking on ends at a closed branch, saturated, or with a connection factor of at least a hundred times the branch's |
| BranchWalk.PartialRatioInterpolates | ts-sdk/vault/context/state.ts:912-923 | the ratio at partials is ratio * (10000 + 15 * partials / X30) / 10015, rounded down by less than two units |
| BranchWalk.PartialRatioBounds | ts-sdk/vault/context/state.ts:912-923 | it lies between the ratio of the tick below and that of the tick |
| BranchWalk.SettlesExactly | ts-sdk/vault/context/state.ts:888-926 | a position settles unless its factors do not divide or, where something is left, its tick has no ratio; the ratio at partials is never 0 |
| BranchWalk.SettledPosition | ts-sdk/vault/context/state.ts:888-928 | empty exactly on a closed branch, at saturation, or with no more than a hundredth of the debt or one unit left; else 99.99% of the computed debt rounded down, at the minima tick, with the collateral that debt over the interpolated ratio gives, two-sided |
| LiquidationBranches.LoadRelevantBranchesForLiquidate | ts-sdk/vault/context/context.ts:942-986 | given accounts for what the current branch leads to, returns the chain of connections from it, each branch once, up to one that leads back into it, then branch 0 if it was not met |
| LiquidationBranches.ChainIsReachable | ts-sdk/vault/context/context.ts:963-981 | every branch that any number of connections lead to is in the loaded chain |
| LiquidationBranches.LoadedBranchesSuffice | ts-sdk/vault/context/state.ts:849-886 | settling a position on any loaded branch from the loaded branches alone gives what all branches give |
| TickMath.GetRatioAtTick | ts-sdk/vault/context/state.ts:632-690 | the bit by bit product with its final reciprocal, against its recursive definition |
| TickMath.GetTickAtRatio | ts-sdk/vault/context/state.ts:704-788 | the bit by bit search with sign split and complement, against its recursive definition, with its bounds check |
| TickMath.GreedyTickMonotone | ts-sdk/vault/context/state.ts:725-785 | a greedy search with truncation at every step is monotone in its start |
| TickMath.TickAtRatioMonotone | ts-sdk/vault/context/state.ts:704-788 | the found tick is non-decreasing over all ratios, across the sign split |
| TickMath.RatioReciprocal | ts-sdk/vault/context/state.ts:632-690 | the ratios of a tick and its negation multiply to 2^96 up to their sum plus one |
| TickMath.RustRatioAgrees | crates/library/src/math/tick.rs:62-128 | taking the reciprocal from tick 0 up, as on chain, or from tick 1 up, as the SDK does, gives the same ratio for every tick |
| TickAccuracy.FactorTable | ts-sdk/vault/context/state.ts:641-656 | each factor constant is 2^64 / 1.0015^(2^i) to one part in 10^14, against the power itself |
| TickAccuracy.ThresholdTable | ts-sdk/vault/context/state.ts:725-785 | each threshold constant is 1e13 * 1.0015^(2^i) to four parts in 10^14, against the power itself |
| TickAccuracy.FactorAccuracy | ts-sdk/vault/context/state.ts:658-675 | the product of truncated factors is within explicit bounds of 2^64 / 1.0015^n for every n up to 16383 |
| TickAccuracy.RatioAccuracy | ts-sdk/vault/context/state.ts:631-690 | every tick in range has a ratio within one unit and one part in ten million of 2^48 * 1.0015^tick |
| TickAccuracy.RatioSide | ts-sdk/vault/context/state.ts:677-690 | positive ticks are not rounded down and others not up, to one part in 10^12 |
| TickAccuracy.RatioStrictlyIncreasing | ts-sdk/vault/context/state.ts:632-690 | each tick's ratio is above the one before by at least one part in a thousand |
| TickSearch.SearchAccuracy | ts-sdk/vault/context/state.ts:725-785 | at every bit the power found so far times the residual is the start, up to an accumulated explicit error |
| TickSearch.TickBracketsRatio | ts-sdk/vault/context/state.ts:704-788 | every accepted ratio lies between the ideal ratios of the found tick and the next to one part in 10^11 |
| TickSearch.TickBracket | ts-sdk/vault/context/state.ts:632-788 | every accepted ratio lies between the computed ratios of the found tick and the next, up to one unit and two parts in ten million |
| TickSearch.TickRoundTrip | ts-sdk/vault/context/state.ts:632-788 | ratio and back gives the tick or the one below |
| TickSearch.GreedyReaches | ts-sdk/vault/context/state.ts:725-785 | the search with all its truncations comes to n or more if and only if it starts from the backward threshold of n |
| TickSearch.TickOfStart | ts-sdk/vault/context/state.ts:704-788 | the accepted ratios found at a tick are those whose starts lie in one interval, given exactly |
| TickSearch.RoundTripExact | ts-sdk/vault/context/state.ts:632-788 | for every tick but the highest, ratio and back gives the tick if and only if the ratio's start is on the right side of the tick's threshold, and the tick below otherwise |
| TickSearch.TestedTickComesBack | crates/library/src/math/tick.rs:276-282 | the tick of the library's test, -462, is one that comes back |
| PerfectRatio.GetTickAtRatioX48 | crates/library/src/math/tick.rs:140-247 | the library's search gives the tick of the SDK's and the perfect ratio for every accepted ratio; its last check never fails |
| PerfectRatio.ResidualInRange | crates/library/src/math/tick.rs:159-229 | for every accepted ratio what all fourteen bits leave over is at least 1 and below 1.0015 |
| PerfectRatio.PerfectAtMost | crates/library/src/math/tick.rs:231-244 | the perfect ratio never exceeds the ratio, and the ratio is below 1.0015 times the next number |
| PerfectRatio.PerfectIsIdeal | crates/library/src/math/tick.rs:231-239 | the perfect ratio is the ideal ratio of the tick found, to one part in 10^11 and one unit |
| TickSearch.TickInRange | ts-sdk/vault/context/state.ts:704-788 | the found tick is below MAX_TICK, and within range if and only if the ratio is not the smallest accepted one |
| TickSearch.RatioOrder | ts-sdk/vault/context/state.ts:632-690 | ratios are ordered as ticks are, strictly |
| TickSearch.RatioAccepted | ts-sdk/vault/context/state.ts:704-711 | a tick's ratio is accepted by the search if and only if the tick is not MAX_TICK |
| TickSearch.LargestRatio | crates/library/src/math/tick.rs:285-293 | the ratio of MAX_TICK, which exceeds the documented maximum |
| TickSearch.LargestSearch | ts-sdk/vault/context/state.ts:704-788 | the largest accepted ratio is found one tick below MAX_TICK |
| TickSearch.RoundTripMissesLowestTick | ts-sdk/vault/context/state.ts:704-788 | the lowest tick comes back as MIN_TICK - 1 |
| FinalPosition.CalculateFinalPosition | ts-sdk/vault/context/state.ts:458-629 | collateral, debt and tick after an operation, with every error, against their definitions |
| FinalPosition.SupplyThenWithdraw | ts-sdk/vault/context/state.ts:508-540 | withdrawing what was supplied takes at least the raw collateral it gave and at most one unit more |
| FinalPosition.DebtAfterIs | ts-sdk/vault/context/state.ts:540-578 | when the new debt comes out and what it is in every case; a borrow adds amount and fee, over the price, within two roundings, and a payback takes its worth less one to two units |
| FinalPosition.CollateralAfterIs | ts-sdk/vault/context/state.ts:509-538 | when the new collateral comes out and what it is in every case; a supply counts rounded down and a withdrawal up |
| FinalPosition.FinalPositionIs | ts-sdk/vault/context/state.ts:504-628 | the whole calculation: exactly when it fails, the collateral and debt after the amounts, and the tick whose ratio and the next lower one enclose that of the debt beyond the dust |
| FinalPosition.PositionRatioIs | ts-sdk/vault/context/state.ts:594-601 | two-sided: debt over collateral at the scale of ratios, one part in a billion and less than a unit of debt up, rounded down |
| FinalPosition.BorrowThenPayback | ts-sdk/vault/context/state.ts:540-570 | paying back what was just borrowed leaves the fee and at least a unit, and less than four units and one more unit's fee, two-sided |
| FinalPosition.PaybackMoves | ts-sdk/vault/context/state.ts:557-568 | a payback lowers the debt if and only if it is worth two raw units, and raises it if and only if it is worth less than one |
| FinalPosition.FinalTickDefined | ts-sdk/vault/context/state.ts:590-619 | a position with debt and collateral gets a tick if and only if its ratio is above the smallest and up to the largest accepted one; the tick needs no clamping |
| FinalPosition.FinalTickBrackets | ts-sdk/vault/context/state.ts:594-619 | the position's ratio lies between those of the tick below and of its tick, up to the slack between the tables |
| FinalPosition.RatioCoversDebt | ts-sdk/vault/context/state.ts:594-601 | the ratio used never understates debt over collateral by a unit or more |
| FinalPosition.FinalTickMonotone | ts-sdk/vault/context/state.ts:590-619 | more debt or less collateral never gives a lower tick |
| TickBitmap.GetTickIndices | ts-sdk/vault/context/context.ts:1407-1446 | array, map, byte and bit of a tick, each in range, add up to the tick |
| TickBitmap.GetMostSignificantBit | ts-sdk/vault/context/context.ts:1245-1258 | leading zeros of a byte: the bit they leave is set and none above it, and 8 for zero |
| TickBitmap.TickHasDebtArray.ClearBitsInBitmap | ts-sdk/vault/context/context.ts:1147-1174 | clears within one map exactly the bits at and above a position |
| TickBitmap.TickHasDebtArray.GetNextTickFromMap | ts-sdk/vault/context/context.ts:1208-1243 | the highest set bit of a map as a tick, or none |
| TickBitmap.TickHasDebtArray.FetchNextTopTickFromBitmap | ts-sdk/vault/context/context.ts:1176-1200 | the highest set bit of an array up to a map as a tick, or none |
| TickBitmap.FindNextTickWithDebt | ts-sdk/vault/context/context.ts:1087-1145 | terminates with the highest set tick strictly below the start that no missing array cuts off, MIN_TICK if there is none, and reads only arrays between the two |
| TickBitmap.NextIsUnique | ts-sdk/vault/context/context.ts:1087-1145 | that answer is determined |
| TickBitmap.MissingStops | ts-sdk/vault/context/context.ts:1100-1142 | a missing array ends what a search can reach |
| TickScan.ScanNextTickWithDebt | ts-sdk/vault/context/contextProd.ts:955-1033 | the scan returns the highest debt tick below the start in existing arrays, or MIN_TICK |
| TickScan.SearchRefinesScan | ts-sdk/vault/context/contextProd.ts:955-1033 | with all arrays present and bits set exactly for ticks with debt, search and scan return the same tick |
| LiquidationTicks.LoadRelevantTicksForLiquidate | ts-sdk/vault/context/context.ts:988-1035 | terminates with the top tick, if above the liquidation tick, and then exactly the debt ticks between the two in strictly descending order |
| LiquidationTicks.LoadRelevantTicksHasDebtArraysLiquidate | ts-sdk/vault/context/context.ts:1037-1061 | loads every array from the top tick's down to the last found tick's, in order |
| LiquidationTicks.LoadForLiquidation | ts-sdk/vault/context/context.ts:798-835 | every bitmap array the searches read is among the arrays loaded afterwards |
| Flashloan.EncodedCalls | programs/flashloan/src/validate.rs:106-137 | the data a client builds for a borrow or a payback decodes as that call with that amount, little-endian, whatever follows |
| Flashloan.IsFlashloanPaybackInstruction | programs/flashloan/src/validate.rs:101-142 | true if and only if the data is 16 bytes of the payback's discriminator and the amount, on the same accounts in order |
| Flashloan.ValidatePaybackInstructionExists | programs/flashloan/src/validate.rs:37-89 | the reverse scan with its early errors, against the recursive scan |
| Flashloan.PaybackCheckMeaning | programs/flashloan/src/validate.rs:37-89 | the scan succeeds if and only if exactly one later instruction is of the program and it is the matching payback |
| Flashloan.FlashloanProgram.Init | programs/flashloan/src/state/state.rs:24-52 | activates the program with the fee, or changes nothing when the fee is above its maximum or a key is not as it must be |
| Flashloan.FlashloanProgram.FlashloanBorrow | programs/flashloan/src/lib.rs:106-133 | a borrow's checks in order, and its effect on the loan, the debt and the vault |
| Flashloan.FlashloanProgram.FlashloanPayback | programs/flashloan/src/lib.rs:135-189 | a payback's checks in order, and its effect |
| Flashloan.FlashloanProgram.RunTransaction | programs/flashloan/src/lib.rs:75-189 | a transaction takes effect as a whole or not at all |
| FlashloanSafety.CallKeepsLoan | programs/flashloan/src/validate.rs:26-29 | neither a borrow nor a payback gets through from inside another program, and no other call touches the loan |
| FlashloanSafety.BorrowExactly | programs/flashloan/src/lib.rs:106-133 | a borrow gets through if and only if the accounts, the amount, the payback that follows, the pause, the loan open and Liquidity let it |
| FlashloanSafety.PaybackExactly | programs/flashloan/src/lib.rs:135-189 | a payback gets through if and only if the amount is the open loan's, the program runs, amount and fee fit 64 bits and Liquidity lets it |
| FlashloanSafety.BorrowStep | programs/flashloan/src/lib.rs:106-133 | what a borrow that gets through has established |
| FlashloanSafety.PaybackStep | programs/flashloan/src/lib.rs:135-189 | a payback that gets through closes the loan, pays off its debt and brings the vault the amount and g more, with fee * amount <= 10000 * g < fee * amount + 10000 |
| FlashloanSafety.IdlePaybackFails | programs/flashloan/src/validate.rs:144-151 | without a loan no payback gets through |
| FlashloanSafety.RepaidRun | programs/flashloan/src/lib.rs:135-189 | with a loan open and only its payback left, a run that reaches its end has closed the loan and repaid it |
| FlashloanSafety.CommittedTransactionSafe | programs/flashloan/src/lib.rs:106-189 | every run that gets to its end from idle ends idle with the debt as it was; it made no loan, or exactly one, and then the vault is ahead by the rounded-up fee in force at the payback |
| FlashloanSafety.LoanCostsCurrentFee | programs/flashloan/src/state/state.rs:106-121 | where nothing in the transaction sets the fee, the loan costs the fee the transaction started with |
| FlashloanSafety.PausedLendsNothing | programs/flashloan/src/lib.rs:106-144 | while paused and not activated, no run makes a loan or moves a token |
| FlashloanSafety.AuthorityCalls | programs/flashloan/src/state/state.rs:54-83 | exactly when pausing, activating and setting the fee get through, and what each changes |
| FlashloanSafety.HistorySplits | programs/flashloan/src/lib.rs:75-189 | a history is its transactions one after the other, each committed or rolled back |
| FlashloanSafety.HistorySafe | programs/flashloan/src/lib.rs:75-189 | over any history of transactions: idle at every boundary, debt unchanged, no vault ever short |
| FlashloanSafety.SafeFromInit | programs/flashloan/src/state/state.rs:24-52 | from any successful init on, over any history: no loan open at any boundary, no debt, no vault short and the fee within its maximum |
| FlashloanSafety.WellFormedLoanCommits | programs/flashloan/src/lib.rs:106-189 | a borrow and its payback among foreign instructions do commit from an idle, active program |
| ExchangePrices.GetRatio | ts-sdk/liquidity/resolver/resolver.ts:602-658 | the smaller total in basis points of the larger, rounded down, at most 1e4 |
| ExchangePrices.InterestOnlyYield | ts-sdk/liquidity/resolver/resolver.ts:971-1016 | in a market of interest alone the yield comes out as the stored utilization, with nothing lost to its three divisions |
| ExchangePrices.InterestOnlyPrices | ts-sdk/liquidity/resolver/resolver.ts:906-1033 | there, the borrow price grows by price * rate * time rounded up, the supply price by price * rate * utilization * (1 - fee) * time rounded down once |
| ExchangePrices.AccrualConserves | ts-sdk/liquidity/resolver/resolver.ts:906-1033 | without interest-free supply an accrual credits suppliers at most what borrowers are charged, exactly or within 10000/9998 by the kind of borrowing, and neither price falls |
| InterestConservation.BorrowTotalsExact | ts-sdk/liquidity/resolver/resolver.ts:906-1033 | with interest supply, by the resolver's formula every sound market of given totals of borrowing conserves interest in every accrual if and only if one is zero or the free total the larger, or four decimals hold their ratio, or it is 1 |
| InterestConservation.BorrowStatedConserves | ts-sdk/liquidity/resolver/resolver.ts:957-1016 | the sufficient half, market by market |
| InterestConservation.LostDigitsOverCredit | ts-sdk/liquidity/resolver/resolver.ts:992-1016 | the failing half: for all other totals a sound market, given outright, that credits more than it charges |
| InterestConservation.SupplyTotalsExact | ts-sdk/liquidity/resolver/resolver.ts:965-990 | with interest borrowing, by the resolver's formula every sound market of given totals of supply conserves interest if and only if their ratio is 0 in basis points |
| InterestConservation.FreeSupplyOverCredits | ts-sdk/liquidity/resolver/resolver.ts:971-990 | a market of mostly interest-free supply that is credited more than 1.9 times what is charged |
| InterestConservation.MixedBorrowOverCredits | ts-sdk/liquidity/resolver/resolver.ts:992-1016 | a market of mixed borrowing that is credited more than what is charged |
| ExchangePrices.RevenueNeverOverstated | ts-sdk/liquidity/resolver/types.ts:109-146 | revenue is never above the balance less net liquidity, and short of it by less than two units |
| ReserveAccrual.Reserve.UpdatePrice | programs/liquidity/src/state/token_reserve.rs:114-130 | stores the prices of the program's own formula, or changes nothing |
| ReserveAccrual.Reserve.UpdatePricesAndRates | programs/liquidity/src/state/token_reserve.rs:323-361 | stores prices, the utilization they make and its rate, or changes nothing |
| ReserveAccrual.Reserve.OperateOn | programs/liquidity/src/module/user.rs:96-168 | prices by the totals before an operation, utilization by those after it, or nothing |
| ReserveAccrual.ChainAccrues | programs/liquidity/src/state/token_reserve.rs:363-534 | an accrual by the program's formula credits at most what it charges and lets neither price fall, in every market whose ratios lose nothing |
| ChainConservation.ChainTotalsExact | programs/liquidity/src/state/token_reserve.rs:363-534 | with interest supply, by the program's formula every sound market of given totals of borrowing conserves interest in every accrual if and only if one is zero or the free total the larger, or four decimals hold their ratio |
| ChainConservation.ChainLostDigitsOverCredit | programs/liquidity/src/state/token_reserve.rs:468-509 | the failing half: for all other totals a sound market, given outright, that the program credits more than it charges |
| ChainConservation.ChainSupplyTotalsExact | programs/liquidity/src/state/token_reserve.rs:413-466 | with interest borrowing, by the program's formula every sound market of given totals of supply conserves interest if and only if their ratio is 0 in basis points |
| ChainConservation.LentOutOverCredit | programs/liquidity/src/state/token_reserve.rs:413-466 | the failing half: for all other totals a sound market lent out in full that the program credits more than it charges |
| ChainConservation.GrownBy | programs/liquidity/src/state/token_reserve.rs:363-534 | by either formula an update that succeeds adds to the prices what the credited yield and the rate make of them; the resolver's always succeeds, the program's exactly when they fit 64 bits |
| ChainConservation.UpdateFails | programs/liquidity/src/state/token_reserve.rs:356-376 | no prices come out where one is zero, or on chain before the last update or with a fee above 100% |
| ChainConservation.AnyTotalsExact | programs/liquidity/src/state/token_reserve.rs:363-534 | for any totals and either formula, in prices of any size, interest is conserved at every rate, fee and time if and only if the yield on interest supply is within interest borrowing |
| ChainConservation.ExcessBounds | programs/liquidity/src/state/token_reserve.rs:511-534 | for any totals and either formula, two-sided: what an accrual credits beyond its charge is what the yield promises over the time, less at most one unit of price for each raw unit |
| FormulaAgreement.YieldsAgree | ts-sdk/liquidity/resolver/resolver.ts:957-1016 | at eighteen and at seventeen decimals the yield is the exact one rounded down, or one less where that is a whole number; the two differ by at most one, and exactly when they are the same |
| FormulaAgreement.FormulasAgree | ts-sdk/liquidity/resolver/resolver.ts:906-1033 | the resolver and the program give a reserve the same prices at all rates and times if and only if someone borrows with interest and the fee takes everything or the credited yields agree, case by case |
| FormulaAgreement.CreditsAgree | programs/liquidity/src/state/token_reserve.rs:413-509 | exactly when both credit the same yield, with the exits each has and the other has not |
| FormulaAgreement.TenMore | programs/liquidity/src/state/token_reserve.rs:484-499 | a ratio's denominator that divides at eighteen decimals divides at seventeen |
| FormulaAgreement.FormulasDiffer | ts-sdk/liquidity/resolver/resolver.ts:911-914 | a sound market for which the resolver's yield is above the program's and one for which it is below |
| ReserveAccrual.RenewedIs | programs/liquidity/src/state/token_reserve.rs:586-635 | an update of the rates stores the given rate and the utilization of the market rounded down, and fails exactly when that does not fit |
| ReserveAccrual.UpdateSafe | programs/liquidity/src/state/token_reserve.rs:323-361 | by either formula, an update or an operation credits at most what it charges and leaves a market in which the next one does |
| ReserveAccrual.RunConserves | programs/liquidity/src/module/user.rs:96-168 | over any run of updates, deposits, withdrawals, borrowing and payback the interest credited sums to at most the interest charged |
| ReserveAccrual.RevenueKept | ts-sdk/liquidity/resolver/types.ts:109-146 | against a fixed balance the revenue drops by at most one unit over a whole run of updates, by either formula |
| WithdrawalLimit.LimitFormula | ts-sdk/liquidity/resolver/resolver.ts:1138-1185 | an active limit is the last one less what the time released, but not below the minimum |
| WithdrawalLimit.MinimumIs | ts-sdk/liquidity/resolver/resolver.ts:1152-1175 | what must stay supplied is the rest of the percentage, rounded up |
| WithdrawalLimit.LimitIs | ts-sdk/liquidity/resolver/resolver.ts:1152-1182 | an active limit from supply, percentage, elapsed time and duration, two-sided, at the minimum and above it |
| WithdrawalLimit.LimitBounds | ts-sdk/liquidity/resolver/resolver.ts:1138-1185 | an inactive limit is 0; an active one lies between the minimum and the larger of the last limit and the minimum |
| WithdrawalLimit.LimitFalls | ts-sdk/liquidity/resolver/resolver.ts:1156-1182 | the limit never rises with time |
| WithdrawalLimit.LimitReachesMinimum | ts-sdk/liquidity/resolver/resolver.ts:1156-1182 | after the full duration a limit within the supply is at the minimum; when the duration ends it is there if and only if it was within the supply |
| WithdrawalLimit.ReevaluationDrift | ts-sdk/liquidity/resolver/resolver.ts:1138-1185 | storing the limit anew n times on the way never lowers the result, and raises it by at most n units |
| SharePool.DepositMintAdjoint | test-utils/typescript/lending/resolver.ts:927-940 | a deposit gets at least some shares if and only if it is at least what minting them costs |
| SharePool.RedeemWithdrawAdjoint | test-utils/typescript/lending/resolver.ts:942-953 | redeeming gives at least some assets if and only if it burns at least what withdrawing them takes |
| SharePool.RoundTripsFavourPool | test-utils/typescript/lending/resolver.ts:927-953 | every round trip through two previews favours the pool |
| SharePool.MinDepositIsLeast | test-utils/typescript/lending/resolver.ts:783-786 | a deposit gets a share if and only if it is at least the minimum deposit |
| SharePool.StepKeepsSurplus | test-utils/typescript/lending/resolver.ts:796-844 | an operation never lowers assets * 1e12 - shares * price, and raises it by less than one unit of the dearer side |
| SharePool.OperateExactly | test-utils/typescript/lending/resolver.ts:796-844 | when an operation goes through, a withdrawal exactly when there are shares worth it, and what it moves |
| SharePool.RunKeepsSurplus | test-utils/typescript/lending/resolver.ts:796-953 | the same over any run of operations, with the bound multiplied |
| SharePool.RunSolvent | test-utils/typescript/lending/resolver.ts:796-953 | a pool that starts with shares * price <= assets * 1e12 keeps it over any run, and its assets cover all shares |
| RewardPeriods.AccrueRewards | programs/lending/src/utils/helpers.rs:124-194 | the two periods in turn give floor(rate * shared seconds / year) each |
| RewardPeriods.PeriodsDisjoint | programs/lendingRewardRateModel/src/state/state.rs:85-88 | two periods that meet share with any stretch of time what their union shares with it |
| RewardPeriods.PaidOnce | programs/lending/src/utils/helpers.rs:124-194 | no second since the last update pays for two periods in sequence |
| RewardPeriods.OverlapCounts | programs/lending/src/utils/helpers.rs:135-190 | the seconds a period shares with the time since the last update, counted one by one |
| RewardPeriods.RewardsReturnIs | programs/lending/src/utils/helpers.rs:124-194 | two-sided: rate times seconds counted, over a year, of the two periods, each rounded down once |
| RewardPeriods.UpdateOnTheWay | programs/lending/src/utils/helpers.rs:124-194 | updating on the way never pays more, and at most two units less |
| Rewards.CalculateNewTokenExchangePrice | programs/lending/src/utils/helpers.rs:94-216 | the price with all its errors, against its definition |
| Rewards.RatesInSequence | programs/lendingRewardRateModel/src/state/state.rs:55-117 | the rate model's periods follow each other and its rates stay within the payer's limit, which therefore never applies |
| Rewards.NeverCountedTwice | programs/lendingRewardRateModel/src/state/state.rs:55-117 | with the periods of any rate model no second since the last update pays for both, and none more than the maximum |
| Rewards.CutFromHalf | programs/lendingRewardRateModel/src/state/state.rs:70-81 | a rate is cut exactly from a yearly reward of half the assets on, and rounded down below |
| Rewards.RatesExactly | programs/lendingRewardRateModel/src/state/state.rs:55-117 | a started model gives rates if and only if no division by zero or width stops it |
| Rewards.AssetsAre | programs/lending/src/utils/helpers.rs:107-111 | the assets are what the shares are worth at the old price, rounded down |
| Rewards.NothingBeforeStart | programs/lendingRewardRateModel/src/state/state.rs:60-63 | the early return before the start loses nothing, whatever the rates would be |
| Rewards.TokenPriceExactly | programs/lending/src/utils/helpers.rs:94-216 | the price comes out exactly under five stated conditions, no intermediate width failing before the price's own, and never falls |
| Rewards.TokenPriceIs | programs/lending/src/utils/helpers.rs:196-213 | two-sided: the share price grows by the rewards and by Liquidity's rise over its old price, within two roundings |
| Rewards.RatesAre | programs/lendingRewardRateModel/src/state/state.rs:55-117 | the two rates and periods from rewards, times and assets, two-sided, none below the least assets and the maximum exactly from half the assets on |
| Rewards.NoRewardsNoExcess | programs/lending/src/utils/helpers.rs:196-213 | without rewards the share price grows no faster than Liquidity's, and slower only by two roundings |
| RewardRuns.RewardsMarket.SyncLending | programs/lending/src/utils/helpers.rs:218-240 | stores the new prices and time, or changes nothing |
| RewardRuns.RewardsMarket.StartAt | programs/lendingRewardRateModel/src/state/context.rs:100-171 | the checks in order, the update of the old rewards and the new ones |
| RewardRuns.RewardsMarket.StopNow | programs/lendingRewardRateModel/src/state/context.rs:173-208 | the checks in order, the update, and an end before now |
| RewardRuns.RewardsMarket.CancelNext | programs/lendingRewardRateModel/src/state/context.rs:210-236 | empties the queue, or changes nothing |
| RewardRuns.RewardsMarket.QueueNext | programs/lendingRewardRateModel/src/state/context.rs:238-278 | queues, or starts at once when the current rewards are over |
| RewardRuns.RewardsMarket.TransitionToNext | programs/lendingRewardRateModel/src/state/context.rs:307-355 | the checks in order, the update, and the queued rewards made the current ones |
| RewardRuns.UpdatePays | programs/lending/src/utils/helpers.rs:94-216 | an update pays no more than it takes off what is left of the two periods |
| RewardRuns.UpdatePaysAll | programs/lending/src/utils/helpers.rs:94-216 | and no less, up to a unit of assets a second and two a year, where neither rate is cut and there are assets enough |
| RewardRuns.CallLeaves | programs/lendingRewardRateModel/src/state/context.rs:100-355 | what each call leaves to be paid and when: starting and queueing the whole amount up to one rounding, stopping nothing, the others what was left or not queued |
| RewardRuns.NothingOverwritten | programs/lendingRewardRateModel/src/state/context.rs:100-355 | new rewards start when all old ones are over and paid, and only rewards not yet begun are cancelled |
| RewardRuns.CallWithinPromise | programs/lendingRewardRateModel/src/state/context.rs:100-355 | what any call pays and leaves is within what was left and what it promises anew |
| RewardRuns.PaidShows | programs/lending/src/utils/helpers.rs:196-240 | what a call is said to pay is what the share price gains by it beside Liquidity's rise |
| RewardRuns.RunWithinPromise | programs/lendingRewardRateModel/src/state/context.rs:100-355 | the same over any run of updates, starts, stops, queueing, cancelling and transitions at any times, prices and supplies |
| RewardRuns.RunSplits | programs/lendingRewardRateModel/src/state/context.rs:100-355 | a run pays and promises what its parts do |
| RewardRuns.RewardsWithinPromise | programs/lendingRewardRateModel/src/state/context.rs:100-355 | from a fresh rate model on, all rewards ever paid are within all tokens ever set aside |
| RewardRuns.NextSeamless | programs/lendingRewardRateModel/src/state/context.rs:307-355 | a transition changes no rate and no second of what any later update pays |
| RewardRuns.StopEnds | programs/lendingRewardRateModel/src/state/context.rs:173-208 | once stopped, no later update pays anything |
| RewardRuns.NextExactly | programs/lendingRewardRateModel/src/state/context.rs:307-355 | queued rewards can be moved on to if and only if their yearly value and end fit 64 bits; by then nothing else takes them out of the queue |
| ResolverRewards.CalculateNewTokenExchangePrice | test-utils/typescript/lending/resolver.ts:1354-1496 | on fields that are numbers, the resolver's price with its errors and what it swallows, against its definition |
| ResolverRewards.NeverCountedTwice | test-utils/typescript/lending/resolver.ts:1501-1564 | on fields that are numbers, no second since the last update pays for both periods |
| ResolverRewards.AssetsAre | test-utils/typescript/lending/resolver.ts:1374-1376 | the assets are what the shares are worth at the old price, rounded down |
| ResolverRewards.RatesAre | test-utils/typescript/lending/resolver.ts:1501-1564 | the two rates and periods from rewards, times and assets, two-sided, and exactly when asking for them throws |
| ResolverRewards.EndedExactly | test-utils/typescript/lending/resolver.ts:1467-1474 | rewards have ended exactly when both periods lie in the past, and nothing is paid from then on |
| ResolverRewards.TokenPriceNeverFalls | test-utils/typescript/lending/resolver.ts:1354-1496 | on fields that are numbers, the price comes out if and only if Liquidity's price was positive and has not fallen, and is never below the old one |
| ResolverRewards.TokenPriceIs | test-utils/typescript/lending/resolver.ts:1476-1495 | two-sided: the share price grows by the rewards and by Liquidity's rise over its old price, within two roundings |
| ResolverRewards.NoRewardsNoExcess | test-utils/typescript/lending/resolver.ts:1476-1495 | without rewards the share price grows no faster than Liquidity's, and slower only by two roundings |
| ResolverRewards.RewardUnpaidExactly | test-utils/typescript/lending/resolver.ts:1406-1413 | a positive reward is paid nothing for any stretch of time if and only if its rate is above the maximum |
| ResolverRewards.MaximumInShares | test-utils/typescript/lending/resolver.ts:1525-1534 | when a rate is above the maximum, in terms of reward and assets |
| ResolverRewards.ThousandOnAMillionUnpaid | test-utils/typescript/lending/resolver.ts:1399-1465 | a thousand tokens a year on a million are paid not at all |
| OracleSources.ValidateSinglePoolSources | programs/oracle/src/modules/single_pool.rs:43-82 | accepts exactly three valid single-pool entries of which the last is the stake program |
| OracleSources.ValidateJupLendSources | programs/oracle/src/modules/jup_lend.rs:20-35 | accepts exactly four valid entries of the type |
| OracleSources.Oracle.InitOracleConfig | programs/oracle/src/lib.rs:125-174 | stores a list if and only if it is short enough and falls into complete groups, and otherwise changes nothing |
| OracleSources.LoadSourcesFromRemainingAccounts | programs/oracle/src/helper.rs:74-136 | loads the groups of a list if and only if their accounts match; it runs out of range only on a list that is not accepted |
| OracleSources.LoaderAgrees | programs/oracle/src/helper.rs:74-136 | an accepted list of any length loads with its own accounts, cut where it was cut when accepted |
| OracleSources.LoadedCutsAreBoundaries | programs/oracle/src/helper.rs:84-133 | whatever is loaded is cut at those boundaries |
| OracleSources.BoundariesTile | programs/oracle/src/lib.rs:136-167 | the groups of an accepted list leave no entry out and none in two |
| OracleSources.AcceptedExactly | programs/oracle/src/lib.rs:136-167 | a list of any length is accepted if and only if it loads with its own accounts, has nothing but valid entries, is plain where required, and every single pool has a third entry that is the stake program as one of the type |
| OracleRates.GetHopsExchangeRate | programs/oracle/src/helper.rs:138-162 | the loop is the left fold over the list's groups, stopping at the first error or zero: whatever the accounts, a list that loads has that one rate, and an accepted list with its own accounts does load |
| OracleRates.PriceAtFifteenDecimals | programs/oracle/src/helper.rs:206-214 | multiplier and divisor rescale a price of any decimals to fifteen with one rounding |
| OracleRates.HopFactorIs | programs/oracle/src/state/structs.rs:64-73 | exactly when a source has a rate of its own, and that rate from the price and its decimals, inverted or not |
| OracleRates.HopRateIs | programs/oracle/src/helper.rs:55-72 | exactly when a hop succeeds, and the rate it makes of the one so far, from the price and its decimals |
| OracleRates.RateFromPrices | programs/oracle/src/helper.rs:138-162 | the rate of an accepted list from the readers' prices and decimals alone, within the roundings of the exact product |
| OracleRates.InvertedHop | programs/oracle/src/helper.rs:63-67 | an inverted hop satisfies rate * inverse <= 1e30 < rate * (inverse + 1) |
| OracleRates.HopLoss | programs/oracle/src/helper.rs:69-71 | one multiply-down loses less than one unit |
| OracleRates.FoldAccuracy | programs/oracle/src/helper.rs:138-162 | the rate is never above the exact product of the hops, and short of it by no more than one unit a hop carried through the hops after it |
| OracleRates.AcceptedListRates | programs/oracle/src/helper.rs:138-162 | the rate of an accepted list lies within the roundings of the exact product of the hops of the groups it was accepted with |
| WideWords.MulU256 | crates/library/src/math/u256.rs:472-504 | the product of two 128-bit numbers is exact in 256 bits, and no sum of partial products overflows 128 |
| WideWords.ShiftLeft | crates/library/src/math/u256.rs:97-122 | shifting left by any amount multiplies by the power of two, modulo 2^256 |
| WideWords.ShiftRight | crates/library/src/math/u256.rs:136-161 | shifting right by any amount is the floor of dividing by the power of two |
| WideDivision.QuotientDigit | crates/library/src/math/u256.rs:582-606 | guess and correction end with the largest word whose product with the divisor's top two words fits the dividend's top three; nothing wraps |
| WideDivision.EstimateNear | crates/library/src/math/u256.rs:582-606 | that word is the true digit or one more, for divisors of any length |
| WideDivision.SubtractWord | crates/library/src/math/u256.rs:612-618 | one word of the wrapping subtraction of a digit's multiple, with its carry |
| WideDivision.MultiplySubtract | crates/library/src/math/u256.rs:608-618 | the loop takes the digit's multiple of the whole divisor off, up to what the word above owes |
| WideDivision.AddBack | crates/library/src/math/u256.rs:632-642 | the loop adds the whole divisor back, up to a carry |
| WideDivision.DivLoop | crates/library/src/math/u256.rs:571-664 | one turn finds the digit, adding back where needed, and leaves less than the divisor; it fails if and only if it starts from the extra word with an estimate too large |
| WideDivision.DivByWord | crates/library/src/math/u256.rs:364-380 | division by one word, digit by digit |
| WideDivision.DivNormalised | crates/library/src/math/u256.rs:394-404 | the turns together divide a dividend of any length by a normalised divisor of two words or more |
| WideDivision.DivLong | crates/library/src/math/u256.rs:382-412 | normalising, dividing and shifting the remainder back gives quotient and remainder of the numbers themselves |
| WideDivision.Div | crates/library/src/math/u256.rs:326-413 | exact quotient, and remainder if asked for, of any two 256-bit numbers; no result if and only if the divisor is zero or the first digit is estimated too large |
| WideDivision.TwoWordsExact | crates/library/src/math/u256.rs:582-632 | by two words the estimate is never too large, so nothing is ever added back |
| WideDivision.NoPanicByDouble | crates/library/src/math/u256.rs:571-664 | by divisors of at most 128 bits the division always has a result |
| WideDivision.PanicExample | crates/library/src/math/u256.rs:644-658 | 2^255 by 2^191 + 1 has none |
| WideDivision.MulShift64 | crates/library/src/math/tick.rs:249-251 | the exact product over 2^64, with an error if and only if it does not fit 128 bits |
| WideDivision.SafeMultiplyDivideResult | crates/library/src/math/u256.rs:547-557 | the exact floor of a * b / c and its remainder, with an error if and only if c is zero or the floor does not fit 128 bits |
| WideDivision.SafeMultiplyDivide | crates/library/src/math/u256.rs:566-569 | the same floor alone |
| WideDivision.SafeMultiplyDivideUp | crates/library/src/math/u256.rs:560-563 | the exact ceiling of a * b / c |
| OracleRates.GetExchangeRateForHop | programs/oracle/src/helper.rs:55-72 | a hop computed through the 256-bit product is the hop's definition, and fits 128 bits |

## Left out

- RPC calls, account fetching and decoding, address derivation, lookup tables, transaction building, command line and logs: accounts are given as maps or sequences.
- Price readers, stake pool and lending accounts read by the oracle, and clocks: prices and timestamps are inputs. The price of a group is what its reader is said to answer.
- Calls to Liquidity and the token program: each either succeeds, with its effect on a debt and a vault, or fails the instruction. Whether a signer is the admin authority is an input as well.
- Authority lists, timestamps kept for information, and configuration setters that touch nothing the properties speak of. The discriminators of the flash loan program's other instructions follow from their names.
- `getTickIndicesForArray` in `ts-sdk/vault/context/context.ts`: it numbers maps from the lowest tick of all arrays and is not used by the searches.
- The factor constant for bit 15 of a tick: no tick in range has that bit.
- The chains of `if` statements over the bits of a tick are written as loops over the constant tables.
- BranchWalk.ProcessLiquidatedPosition: merged branches that connect in a circle are not modelled, because the walk over them never ends; a rank on connected branches is required.
- LiquidationBranches.LoadRelevantBranchesForLiquidate: every branch that connections lead to from the current one must have an account, because the loop retries a missing one forever. The failed read of an existing account is not modelled.
- LiquidationTicks.LoadRelevantTicksForLiquidate: every set bit must have a tick account and every array up to the top tick's must exist, because the loop retries a missing tick forever.
- ExchangePrices.AccrualConserves: the borrow price is required to be at least 1e12, where it starts and below which it never falls.
- ChainConservation.AnyTotalsExact: with supply and borrowing both mixed the condition is about a reserve with its prices; which totals alone ensure it is not stated.
- ChainConservation.Exceeds: prices of any size, because a rate and a time at which nothing is rounded can take a price beyond 64 bits, where the program fails instead.
- FormulaAgreement.FormulasAgree: prices of any size as well; beyond 64 bits, and at times before the last update, the program fails and the resolver does not.
- ReserveAccrual.ChainAccrues: overflow of 128-bit products inside the formula, which takes prices and times far beyond those in use, is not modelled.
- ReserveAccrual.RunConserves: an operation's new totals are inputs, so that user positions, limits and transfers are left out; and a stored utilization above 100% must be renewed by the next update, as interest need not keep the market's above it.
- SharePool.RunSolvent: the exchange price is fixed over a run.
- ResolverRewards.NeverCountedTwice: the reading of the resolver that its comments intend, on fields that are numbers. Its parameter is of type `any`, and a model it fetches has BN fields, on which its `+` joins decimal strings, so that a period ends elsewhere; what the programs compute is in `Rewards` and `RewardRuns`.
- ResolverRewards.CalculateNewTokenExchangePrice: timestamps are integers a `number` holds exactly.
- RewardRuns.RewardsWithinPromise: a reward is counted as its return on the assets, in whole units, that the rate was worked out on. The transfer of reward tokens, who may call, and exchanging one rate model for another are left out.
- FinalPosition.CalculateFinalPosition: reading the vault's configuration and exchange prices; the prices are inputs.
- Comparison, addition, subtraction and printing of 256-bit numbers.
- `ts-sdk/lending/resolver/index.ts` and `test-utils/typescript/bn.ts`: the first rounds to nearest in floating point and the second is not the format the vaults use.
