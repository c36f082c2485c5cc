# TrustLend: verified models

Dafny models of the state machines and the exact arithmetic of TrustLend's off-chain code, with
proofs of what they keep over whole runs. `dafny verify dfyconfig.toml` checks everything.

| files | what they model |
|---|---|
| `FixedWindow.dfy`, `LocalStore.dfy`, `RateLimiter.dfy` | the in-memory rate limiter: a plain counter for one caller, runs of the bounded and pruned store, the object that is updated in place |
| `PoolLedger.dfy`, `PoolRuns.dfy`, `AdminPools.dfy` | the admin pool actions: single steps and the auto-match pass, whole runs, the object over the two tables |
| `PriceAggregation.dfy`, `OracleCycles.dfy`, `OracleKeeper.dfy`, `OutageAlerts.dfy` | the price oracle: aggregation of quotes, cycles and runs, the keeper object, the loop and its alerts |
| `CsvExport.dfy` | the CSV text of the export button and a reader for it |
| `CliArgs.dfy` | the argument parser of the deployment script |
| `StroopsFormat.dfy` | printing and reading of XLM amounts |
| `Rounding.dfy`, `RepaymentSplit.dfy` | rounding loss over sums, the fee split and the split of a repayment among lenders |
| `LiquidationKeeper.dfy` | the liquidation decision and runs of the keeper |
| `AnalyticsCache.dfy` | the cache behind Redis |
| `Common.dfy` | shared helpers |

Where the code works in place, a class holds its state and each method is tied to a function or
relation on values; the theorems are about runs of those.

## What the proofs show beyond the documentation

- Bursts: an interval as long as the window holds at most `2 * limit - 1` admissions, and that many are reached; in a run of the bounded store, another `limit` for each eviction of the caller's bucket.
- In a store full of live buckets, a new caller is itself evicted, exactly if all of them reset strictly later than its own would. As long as the store stays like that its calls are admitted without limit, in any number at one instant. Without evictions pruning is invisible.
- Auto-match tests a borrow cap loan by loan against the total read before the loop. With `least` and `most` the bounds of a loan (`MIN_BORROW_AMOUNT` and the credit limit), `headroom` what the cap leaves and `largest` the smaller of `most` and `headroom`, every pass keeps a pool within its cap if and only if `available <= headroom`, or `largest < least`, or `available < (headroom / largest + 1) * least`, dividing without remainder. A loan can be passed over because of the first fitting pool's cap although the next pool could take it.
- The header comment of the oracle keeper promises live, then cached, then TWAP. One unusable quote for a symbol keeps the TWAP from being read, and nothing is published if no other quote is usable and the cache is stale. A cached price is stamped with the time of its cycle, so the quotes behind a published price may be twice `maxStalenessMs` old. Both need an injected `PriceSource` that returns unusable or older quotes; the adapters in `lib/oracle/sources.ts` stamp theirs after the cycle's `now` and drop prices that are not positive.
- A repayment among lenders adds up to the last stroop, as its comment says, exactly when the rounded shares of all but the largest contributor fit; three stroops among five equal lenders do not: each 0.6 rounds up, and four are paid. From `(n - 1) * (n / 2 - 1)` stroops on, `n / 2` rounded down, it always does, and with a stroop less `n` equal lenders are overpaid by one (for even `n` this rests on a tie that rounds up).
- A loan is liquidated from half a basis point below its threshold on, because the LTV is rounded first. The decision is monotone. The LTV number itself falls when a position loses its last collateral at an LTV that already rounds above `Number.MAX_SAFE_INTEGER`, and only then.
- Header names are written to the CSV unescaped; the text reads back exactly when there is a column and no header contains a comma, a quote or a line feed.
- An amount of stroops prints and reads back exactly when it is nonnegative or a whole number of XLM.
- Redis gives the latest value exactly when the write that landed last is its own. If two setter calls overlap and the older one lands last, or the newer one never does, reads that Redis answers give the older value, within its own lifetime.

## Assumptions

Clocks do not go backwards. One identifier has one policy, with a limit and a window of at least
one. Actions on the pools are serial, and the two updates of an approval succeed or fail together.
Principals are positive or bounded where a lemma says so. Numbers are exact: amounts are integers in the
smallest unit, prices are reals; `Math.round` is floor(x + 1/2) and `toFixed(7)` of a nonnegative
amount rounds halves up. What a database query, a price source, the chain or Redis returns, and
which of those calls fail, is an input. Redis and the process share one clock; Redis counts a
lifetime from the instant the write lands, the process from its own clock reading. A
`mark_defaulted` whose submitting call gives up takes effect before the next check or not at all.

## Model

| member | source | states |
|---|---|---|
| FixedWindow.WindowLengths | lib/rate-limit.ts:91-103 | a second has 1,000 milliseconds, a minute 60 seconds and an hour 60 minutes |
| FixedWindow.WindowAdmits | lib/rate-limit.ts:130-152 | since a window opened at most min(count, limit) calls were admitted, one fewer if the opening call is left out |
| FixedWindow.WindowsAreDisjoint | lib/rate-limit.ts:130-132 | when a window is over, every call it counted is strictly in the past |
| FixedWindow.BurstBound | lib/rate-limit.ts:124-153 | for all call times, any interval of the window's length holds at most 2 * limit - 1 admissions |
| FixedWindow.BurstIsAttained | lib/rate-limit.ts:124-153 | for every policy some call times reach that bound |
| LocalStore.CapacityAndEviction | lib/rate-limit.ts:105-145 | in every run the store has at most 10,000 buckets, all live; a call evicts at most one, only over the cap, and none that stays resets earlier |
| LocalStore.NewcomerInAFullStore | lib/rate-limit.ts:112-133 | a new caller in a store full of live buckets is admitted, and evicted without a trace exactly if all the others reset strictly later |
| LocalStore.CrowdedOutIsUnlimited | lib/rate-limit.ts:112-133 | in every run, as long as the store is full of later resets whenever it calls, a caller is admitted on every call as if it were its first |
| LocalStore.NoLimitInAFullStore | lib/rate-limit.ts:105-153 | for every limit and number n, others with a longer window allow a run with n admissions of one caller at one instant |
| LocalStore.CallersAreIsolated | lib/rate-limit.ts:124-153 | until its bucket is evicted a caller gets the answers of a counter that sees its own calls alone |
| LocalStore.NothingIsEvicted | lib/rate-limit.ts:112-121 | with never more than 10,000 open windows no live bucket is evicted |
| LocalStore.PruningIsInvisible | lib/rate-limit.ts:105-153 | such a run gives every call exactly the result of an unbounded, never pruned counter |
| LocalStore.BurstBoundOfRuns | lib/rate-limit.ts:105-153 | in every run, an interval of the window's length holds at most 2 * limit - 1 admissions of a caller and limit more for each eviction of its bucket in it |
| LocalStore.BurstBoundWithoutEvictions | lib/rate-limit.ts:124-153 | a run in which the caller's bucket is never evicted keeps the bound of the plain counter |
| LocalStore.BucketHistory | lib/rate-limit.ts:130-145 | every bucket was opened by an admitted call since which exactly min(count, limit) calls were admitted |
| LocalStore.RefusalsAreJustified | lib/rate-limit.ts:143-152 | evictions or not, a refusal comes less than a window after an opening call with exactly limit admissions since |
| LocalStore.RemainingCountsDown | lib/rate-limit.ts:130-152 | remaining is the limit less the admissions since the window opened, and reset the end of that window |
| LocalStore.RetryAfterIsLeast | lib/rate-limit.ts:278 | Retry-After is the fewest whole seconds, at least one, that reach the reset |
| LocalStore.RetryAfterIsSufficient | lib/rate-limit.ts:278 | a refused caller that stays quiet and comes back after Retry-After is admitted, whatever others do |
| LocalStore.RefusedUntilTheReset | lib/rate-limit.ts:130-152 | before the reset it is refused again, unless its bucket is evicted |
| RateLimiter.LocalRateLimiter.DropExpired | lib/rate-limit.ts:106-110 | exactly the expired buckets go, and the order of insertion is kept |
| RateLimiter.LocalRateLimiter.KeysByReset | lib/rate-limit.ts:116 | all keys by reset, and the one inserted last behind those with the same reset |
| RateLimiter.LocalRateLimiter.EvictOverflow | lib/rate-limit.ts:116-121 | the earliest resets go until 10,000 buckets are left, the newest only if all that stay reset strictly later; the others are unchanged |
| RateLimiter.LocalRateLimiter.PruneLocalWindowStore | lib/rate-limit.ts:105-122 | both loops together keep the live buckets with the latest resets, up to the cap |
| RateLimiter.LocalRateLimiter.CountCall | lib/rate-limit.ts:130-152 | opens a window or counts in place, and answers from the bucket that was found |
| RateLimiter.LocalRateLimiter.GetLocalRateLimit | lib/rate-limit.ts:124-153 | every call extends the object's history by one legal step with this verdict |
| RateLimiter.LocalRateLimiter.EnforcePolicy | lib/rate-limit.ts:268-290 | refuses exactly on failure, with the limit, nothing remaining, the reset and Retry-After |
| PoolLedger.ApprovalIsExact | app/actions/admin-pools.ts:88-148 | an existing loan is approved if and only if it is requested, the pool is active and has its principal available, and the principal fits under the cap if there is one; then exactly the two rows change as stated, otherwise nothing |
| PoolLedger.RefusalsAreExact | app/actions/admin-pools.ts:94-130 | what each refusal says about the rows, and that none changes them |
| PoolLedger.ToggleIsExact | app/actions/admin-pools.ts:74-85 | one status of an existing pool and nothing else |
| PoolLedger.SetCapIsExact | app/actions/admin-pools.ts:250-270 | a positive cap or none is stored in an existing pool, any other leaves the old one |
| PoolLedger.CreateIsExact | app/actions/admin-pools.ts:26-71 | which new pools are refused and why, and that the others are appended active, empty and with the requested cap |
| PoolLedger.FirstFitIsFirst | app/actions/admin-pools.ts:197-203 | the chosen pool is the first in order that can pay |
| PoolLedger.OldestGoesFirst | app/actions/admin-pools.ts:160-204 | the oldest request, naming no pool, goes to a pool with the most liquidity exactly if that covers it |
| PoolLedger.CommitConserves | app/actions/admin-pools.ts:133-140 | an approval moves principal from available to approved and changes no other pool's backing |
| PoolLedger.PassKeepsTheLedger | app/actions/admin-pools.ts:180-235 | after each loan the in-memory liquidity is the database's for every active pool, which only went down and never below zero; matched + skipped is the number of loans reached |
| PoolLedger.PassConserves | app/actions/admin-pools.ts:189-235 | a pass keeps available plus approved principal of every pool |
| PoolLedger.MatchedAreApproved | app/actions/admin-pools.ts:185-237 | at every point of a pass matched counts exactly the loans that were approved, skipped the others |
| PoolLedger.AutoMatchIsThePass | app/actions/admin-pools.ts:171-178 | the early returns give what the loop would |
| PoolLedger.PassIsComplete | app/actions/admin-pools.ts:189-235 | every loan is approved on an active pool that had enough and whose own cap test it passed, or pending because its update failed, the cap of a pool that had enough stood in the way, or no active pool had enough, all at the moment it was reached |
| PoolLedger.TurnIsExact | app/actions/admin-pools.ts:189-235 | a turn sends the loan to a pool if and only if that is the assigned one and has enough left, or, failing that, the first active one that has, and its cap has room and the update succeeds; otherwise nothing changes |
| PoolLedger.AssignedPoolComesFirst | app/actions/admin-pools.ts:193-195 | a loan whose assigned pool is active, has enough left when it is reached and room under its cap ends the pass approved on that pool |
| PoolLedger.NothingCoverableIsLeft | app/actions/admin-pools.ts:150-237 | with no caps and no failures no pending loan fits any active pool afterwards |
| PoolLedger.SecondPassMatchesNothing | app/actions/admin-pools.ts:150-237 | with no caps and no failures an immediate second pass changes nothing |
| PoolRuns.RunsConserve | app/actions/admin-pools.ts:26-270 | over every run of all actions: backing of each pool is constant, liquidity never goes negative, a loan that has left the requested state never changes, so none is approved twice |
| PoolRuns.ApprovalsKeepTheRules | app/actions/admin-pools.ts:88-246 | in every run, whichever action approves a loan, it was requested, its pool active with the principal available, and the principal within the cap |
| PoolRuns.ApproveStepIsExact | app/actions/admin-pools.ts:88-148 | in every run an explicit approval takes effect exactly when those rules allow it |
| PoolRuns.CapsStayPositive | app/actions/admin-pools.ts:26-270 | no run stores a cap that is not positive |
| PoolRuns.CapBindsExactly | app/actions/admin-pools.ts:211-216 | no pass over loans within the bounds draws more from an active pool than its cap leaves, if and only if it has no more available than that, or no loan passes the cap test, or it cannot pay for as many of the smallest loans as it takes largest ones to overrun the cap |
| PoolRuns.CapBindsForLargeLoans | app/actions/admin-pools.ts:211-216 | where a loan may be as large as the headroom, the last case is that it cannot pay for two of the smallest loans |
| PoolRuns.CapBindsWithinHeadroom | app/actions/admin-pools.ts:211-216 | in those cases every pass over any tables with such loans, in any order, keeps within the cap |
| PoolRuns.LoansOverrunTheCap | app/actions/admin-pools.ts:211-216 | otherwise a queue of loans within the bounds, equal up to one unit, draws a stated total over the cap |
| PoolRuns.OnlyTheTargetsCapCounts | app/actions/admin-pools.ts:192-216 | a loan that some pool could cover within its cap is passed over exactly when the first-fit target fails its own cap test |
| PoolRuns.CapHidesTheNextPool | app/actions/admin-pools.ts:197-216 | for every amount, a loan that is skipped although the next pool could cover it within its cap |
| AdminPools.PoolDatabase.CreateLendingPool | app/actions/admin-pools.ts:26-71 | the checks in order, and an empty active pool added |
| AdminPools.PoolDatabase.TogglePoolStatus | app/actions/admin-pools.ts:74-85 | the status of one existing row changes; a missing row still succeeds |
| AdminPools.PoolDatabase.SetPoolBorrowCap | app/actions/admin-pools.ts:250-270 | a positive cap or none is stored, anything else refused |
| AdminPools.PoolDatabase.ApproveLoan | app/actions/admin-pools.ts:88-148 | the error of the first failed check and an unchanged database, or the paired updates |
| AdminPools.PoolDatabase.MatchLoan | app/actions/admin-pools.ts:189-234 | one turn of the loop |
| AdminPools.PoolDatabase.RunAutoMatch | app/actions/admin-pools.ts:151-246 | the database and the counters are those of the pass the theorems are about |
| PriceAggregation.SortIsAscending | lib/oracle/prices.ts:114 | sorting orders the values and keeps how many lie in any band |
| PriceAggregation.MedianFollowsTheMajority | lib/oracle/prices.ts:109-119 | if more than half of the values lie in a band so does the median |
| PriceAggregation.MedianOfAnyOrder | lib/oracle/prices.ts:109-119 | from any ascending arrangement of any values, the median is the middle one or the mean of the two middle ones |
| PriceAggregation.MedianByRank | lib/oracle/prices.ts:116-118 | if half of the values are at most x and the other half at least y, the median is their mean |
| PriceAggregation.PartitionOutliers | lib/oracle/prices.ts:128-151 | the loop keeps and rejects what the tolerance says, never everything |
| PriceAggregation.OutliersAreExact | lib/oracle/prices.ts:128-151 | among three or more quotes exactly those beyond the tolerance of the median are rejected, unless that would be all |
| PriceAggregation.UsableIsExact | lib/oracle/prices.ts:182-184 | every quote of the symbol with a positive price that is not stale counts as often as it came, and no other |
| PriceAggregation.LivePriceIsTheMedian | lib/oracle/prices.ts:187-190 | the live price from any ascending arrangement of the prices that are kept |
| PriceAggregation.TwoQuotesAreAveraged | lib/oracle/prices.ts:116-134 | two usable quotes give their mean |
| PriceAggregation.ResultsSayWhereTheyCameFrom | lib/oracle/prices.ts:187-248 | price, origin, sources and age of a live, cached, TWAP and missing result, and when each is given |
| PriceAggregation.LivePriceFollowsTheMajority | lib/oracle/prices.ts:169-204 | a minority of bad sources cannot move the live price out of the majority's band widened by the tolerance, nor out of the band itself if it is narrow |
| PriceAggregation.ReadLive | lib/oracle/prices.ts:186-204 | there is a live reading exactly when a quote is usable, and it is positive |
| PriceAggregation.ChainPriceIsNearest | lib/oracle/prices.ts:261-271 | the chain integer is the nearest one, converts back to itself, and is zero exactly below 5e-8 |
| OracleCycles.ReadingIsLive | lib/oracle/prices.ts:182-204 | a live reading is the outlier-free median of quotes for the symbol that are not stale |
| OracleCycles.SymbolsAreIsolated | scripts/price-oracle-keeper.ts:230-294 | what a cycle does for a symbol depends on that symbol's quotes, TWAP, publish and state only |
| OracleCycles.FallbackChain | scripts/price-oracle-keeper.ts:17-20 | exactly when the code follows the documented fallback chain, and that it refuses otherwise |
| OracleCycles.ResultIsAggregatePrice | lib/oracle/prices.ts:173-248 | what a cycle decides for a symbol is the aggregation of all its inputs, with the TWAP if it is read |
| OracleCycles.TwapSkippedForAStaleQuote | scripts/price-oracle-keeper.ts:234-241 | a stale quote from an injected source keeps a readable TWAP from being used |
| OracleCycles.OutcomesAreExact | scripts/price-oracle-keeper.ts:250-290 | exactly when a symbol is published, skipped, failed or without a price, what is remembered, and the integer that is written |
| OracleCycles.CycleBySymbol | scripts/price-oracle-keeper.ts:230-294 | a whole cycle treats every symbol as if it were alone |
| OracleCycles.LastGoodIsTheLatestLive | scripts/price-oracle-keeper.ts:262-266 | in every run lastGood is the price and time of the latest live cycle |
| OracleCycles.PublishedPricesWereLive | scripts/price-oracle-keeper.ts:243-284 | every published price that is not a TWAP was live at most maxStalenessMs before, however many cached cycles intervene |
| OracleCycles.PublishedQuotesAreFresh | scripts/price-oracle-keeper.ts:243-284 | the quotes behind it are at most twice maxStalenessMs old |
| OracleCycles.QuotesMayBeTwiceAsOld | scripts/price-oracle-keeper.ts:264-266 | an injected source reaches that age for every maxStalenessMs |
| OracleCycles.ChainIsMirrored | scripts/price-oracle-keeper.ts:276-284 | in every run lastPublished is the last price written on chain, for every symbol |
| OracleCycles.WritesAreWorthTheirFee | lib/oracle/prices.ts:280-300 | in every run, two writes of a symbol with none between them are a minute apart or differ by at least 0.25% of the first |
| OracleCycles.ChainTracksThePrice | lib/oracle/prices.ts:280-300 | in every run, after a cycle that can publish, the integer on chain is that of this cycle's price or of one less than a minute before and within 0.25% of it |
| OracleKeeper.Keeper.PollSymbol | scripts/price-oracle-keeper.ts:231-293 | one turn of the loop, in place |
| OracleKeeper.Keeper.RunOracleCycle | scripts/price-oracle-keeper.ts:205-297 | the new state is that of the cycle, the counters tally its outcomes and add up to the symbols |
| OutageAlerts.AlertsCountStretches | scripts/price-oracle-keeper.ts:323-345 | over any trace, sustained alerts equal the outage stretches of at least 12 cycles and recovery alerts the stretches that ended, thrown cycles ignored |
| OracleLoop.OutageMeansNoPrice | scripts/price-oracle-keeper.ts:323-327 | a cycle is an outage exactly when XLM or BTC has no price after it |
| OracleLoop.PollOnce | scripts/price-oracle-keeper.ts:318-345 | one turn of the loop and its alert |
| OracleLoop.RunOracleKeeper | scripts/price-oracle-keeper.ts:305-353 | the alerts of the loop are those of its trace, and the exit code of a single run |
| CsvExport.BuildCsv | components/dashboard/ExportCsvButton.tsx:10-29 | the text is the header row and one quoted row per object, nothing for no data |
| CsvExport.RowsReadBack | components/dashboard/ExportCsvButton.tsx:19-27 | rows of arbitrary strings read back exactly by the quoting rules of section 2 of RFC 4180 |
| CsvExport.CsvRoundTrip | components/dashboard/ExportCsvButton.tsx:13-29 | the whole text reads back exactly if and only if there is a column and every header is plain |
| CsvExport.ValuesStandUnderTheirHeaders | components/dashboard/ExportCsvButton.tsx:13-29 | with plain headers, row i + 1 of the text read back has under each header the value of object i for it, or nothing |
| CliArgs.ParseArgs | scripts/deploy-testnet.ts:123-192 | the loop that splices ends for every argv and gives the meaning of the grammar |
| CliArgs.AttachedMeansSeparate | scripts/deploy-testnet.ts:179-186 | at option position --flag=value means --flag value |
| CliArgs.SplitUsesAnEqualsSign | scripts/deploy-testnet.ts:181-184 | each split uses up one equals sign, which is why the loop ends |
| CliArgs.MeaningComposes | scripts/deploy-testnet.ts:135-189 | arguments that parse can be followed by others, which start from their options |
| CliArgs.OptionsReadBack | scripts/deploy-testnet.ts:123-192 | every set of options can be written as arguments, in either spelling, that parse to it |
| CliArgs.EmptyMeansDefaults | scripts/deploy-testnet.ts:123-133 | the options of an empty command line |
| CliArgs.HelpStops | scripts/deploy-testnet.ts:172-176 | after any arguments that parse, -h or --help shows the help, whatever follows |
| CliArgs.MissingValueIsReported | scripts/deploy-testnet.ts:137-141 | a flag at the end without its value is reported by name |
| CliArgs.UnknownOptionIsReported | scripts/deploy-testnet.ts:177-187 | an argument that is no option is reported, without its attached value if it starts with two dashes, in full otherwise |
| CliArgs.EnvFileHasTwoNames | scripts/deploy-testnet.ts:150-155 | both names of the environment file set it |
| StroopsFormat.PrintingReadsBack | types/contracts.ts:258-271 | reading a printed amount and converting it gives the stroops back if and only if the amount is nonnegative or a whole number of XLM |
| StroopsFormat.PrintingIsInjective | types/contracts.ts:261-266 | different nonnegative amounts print differently |
| StroopsFormat.PrintedShape | types/contracts.ts:261-266 | digits, then if needed a point and at most seven digits with no trailing zero, then the unit |
| Rounding.CalculateBorrowingPower | types/contracts.ts:158-166 | the loop sums the floors of the weighted amounts |
| Rounding.BorrowingPowerLoss | types/contracts.ts:147-174 | at most n - 1 below a single floor, and at most 95% of the collateral |
| Rounding.InterestOfAYear | types/contracts.ts:316-327 | a year of 365 days costs the rate in basis points, and any number of days its share, rounded down |
| Rounding.SlicedInterestLoss | types/contracts.ts:321-327 | interest on n slices is at most the interest on the whole and less than n stroops short |
| RepaymentSplit.FeeSplitIsExact | components/dashboard/BorrowerRepayWidget.tsx:344-352 | both cuts are nonnegative and add up to the repayment |
| RepaymentSplit.FeeIsNearest | components/dashboard/BorrowerRepayWidget.tsx:344-352 | the platform's part is within half a stroop of the fee's share, and nothing without a wallet, a fee or anything due |
| RepaymentSplit.InstallmentsCollectTheFee | components/dashboard/BorrowerRepayWidget.tsx:347-352 | n installments that pay off the loan collect its fee within n / 2 stroops |
| RepaymentSplit.PayoutsAddUp | lib/loans/funding.ts:161-200 | the payouts come to the lenders' part or to the rounded shares of all but the largest contributor, whichever is more, so they are exact if and only if those fit |
| RepaymentSplit.EnoughToSplitExactly | lib/loans/funding.ts:150-160 | from (n - 1) * (n / 2 - 1) stroops on, n / 2 rounded down, the payouts add up exactly for any n lenders |
| RepaymentSplit.EnoughIsSharp | lib/loans/funding.ts:177-200 | for every n from 4 on, with one stroop less n equal lenders are overpaid by one, for even n on a rounding tie |
| RepaymentSplit.EqualLendersExactly | lib/loans/funding.ts:177-200 | n equal lenders are paid exactly if and only if the n-th rounds down or its quotient and remainder add up to at least n - 1 |
| RepaymentSplit.DustIsOverpaid | lib/loans/funding.ts:161-200 | three stroops among five equal lenders, off any rounding tie, pay out four |
| RepaymentSplit.PayoutsAreFair | lib/loans/funding.ts:177-199 | what each lender is paid, in order, dropped ones nothing, is within half a stroop of the exact share, and for the largest of n within (n - 1) / 2 |
| RepaymentSplit.SplitCuts | components/dashboard/BorrowerRepayWidget.tsx:343-352 | the two cuts after the reassignments |
| RepaymentSplit.BuildPayments | components/dashboard/BorrowerRepayWidget.tsx:339-377 | the payment operations, lenders first, or the error when nobody can be paid |
| RepaymentSplit.PaymentsGoWhereTheyShould | components/dashboard/BorrowerRepayWidget.tsx:339-377 | every payment goes to a contributing lender, no lender twice and in order, then the fee to the platform wallet; it is refused exactly if there is nothing for lenders or nobody to pay |
| RepaymentSplit.RepaymentIsSpent | components/dashboard/BorrowerRepayWidget.tsx:339-377 | all operations are positive and spend at least the repayment, exactly it when the lenders' part is large enough |
| LiquidationDecision.DecisionIsExact | scripts/liquidation-keeper.ts:226-245 | with collateral, liquidation exactly from half a basis point below the threshold on |
| LiquidationDecision.DecisionIsMonotone | scripts/liquidation-keeper.ts:226-245 | monotone in debt, antitone in collateral and its price, down to none |
| LiquidationDecision.LtvNumberIsMonotone | scripts/liquidation-keeper.ts:226-241 | the number is monotone like the decision if and only if collateral is left, there was none, or it was below the number for no collateral |
| LiquidationDecision.LtvNumberCanFall | scripts/liquidation-keeper.ts:238-239 | an input where the number falls as the last collateral goes |
| LiquidationDecision.NativeCollateralIgnoresThePrice | scripts/liquidation-keeper.ts:208-240 | with native collateral a positive XLM price cancels out |
| LiquidationKeeper.ChecksAreExact | scripts/liquidation-keeper.ts:455-527 | tally and effect of a check in terms of the configuration, the live price and the loan: debt at the XLM price against collateral at its own price and decimals; a dry run counts what it would mark |
| LiquidationKeeper.EveryMarkIsJustified | scripts/liquidation-keeper.ts:400-528 | every mark in any history of runs was made by a check of a run that was not dry, which just before found the loan active and past its grace period, and what is owed at the XLM price, live if positive, over the threshold for what is held at the price of its asset, with all earlier marks made |
| LiquidationKeeper.NoLoanIsMarkedTwice | scripts/liquidation-keeper.ts:454-528 | over any history of runs, duplicates included, no loan is marked twice |
| LiquidationKeeper.Keeper.CheckCandidate | scripts/liquidation-keeper.ts:455-527 | one turn of the loop, in place; a submission that lands although the call gave up marks the loan and counts as failed |
| LiquidationKeeper.Keeper.RunLiquidationKeeper | scripts/liquidation-keeper.ts:400-531 | each counter is the number of checks with its tally, they add up to the candidates, the new marks are at least liquidated and at most liquidated plus failed, exactly liquidated if no submission lands unseen, and a dry run changes nothing |
| AnalyticsCache.Cache.GetCachedPlatformAnalytics | lib/analytics-cache.ts:33-49 | at any moment, Redis writes in flight or not, the read extends the trace and gives the trace's answer |
| AnalyticsCache.Cache.SetCachedPlatformAnalytics | lib/analytics-cache.ts:51-60 | the part before the wait: memory has the new value, the trace the call, and a command is sent if Redis is configured |
| AnalyticsCache.Cache.CommandLands | lib/analytics-cache.ts:62-63 | the command of any earlier call reaches Redis after any other calls, or again, and replaces what is there |
| AnalyticsCache.MemoryKeepsTheLatest | lib/analytics-cache.ts:42-48 | reads in between never clear a value that has not expired |
| AnalyticsCache.AnswersAreFresh | lib/analytics-cache.ts:33-67 | for every interleaving of reads, setter calls and landings and every pattern of faults, memory gives the latest call, made less than its lifetime before, and Redis the call whose command landed last, less than its lifetime before |
| AnalyticsCache.OverlapHidesTheNewerValue | lib/analytics-cache.ts:55-63 | if calls overlap and the older one lands last, Redis answers with the older value |
| AnalyticsCache.RedisHidesTheNewerValue | lib/analytics-cache.ts:34-38 | after a write that never lands Redis answers with the older value |
| AnalyticsCache.RedisGivesTheLatest | lib/analytics-cache.ts:33-67 | in every trace, while the latest value lasts, memory gives it, and Redis gives it if and only if the command that landed last is its own |

## Left out

- PoolRuns.CapBindsExactly: says nothing of the cap across several passes, because no action ever updates the borrowed total the test reads.
- The order in which older buckets with equal resets are evicted: any of them may go, and every theorem holds for each choice. That the newest goes last is modelled.
- The policy tables, Upstash Redis, request headers and the bypasses of the rate limiter.
- Database driver, SQL, transactions, e-mails and on-chain registration; a failed query that ends an action as a whole.
- Rows a price source may return that are not numbers: NaN and infinities are treated alike, as unusable.
- The text of log lines, alerts and reasons; delivery of alerts; the alert for each symbol without a price.
- Floating-point error: money and prices are exact.
- Parsing of form fields and of the cached JSON.
- The list `argv` after `parseArgs` has spliced it, which its caller does not read.
- Discovery of liquidation candidates, and the contract behind `mark_defaulted`: only that it moves an active loan out of that state.
- Rendering, wallets, transaction signing, KYC, lookup tables, progress bars and other dashboard arithmetic: they would only add one-line facts.
