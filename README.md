# straddles-hedge in Dafny

A model of the hedging bot for an Atlantic-straddle vault. The bot buys ETH
puts on the exchange to cover the straddles sold from a writer's deposits.
The model has four parts.

- **The expiry symbol** (`getExpirySymbol`). The chosen strike is the
  reference price net of premium, rounded down to the $25 ladder. The symbol
  is `ETH-{day}{MON}{YY}-{strike}-P`, and its date is computed from the Unix
  expiry with the UTC calendar algorithms of ECMA-262, section 21.4.1.
  `calendar.dfy`, `expiry_symbol.dfy` and `text.dfy` hold this part; the last
  covers decimal formatting, `split`, `slice(-2)` and upper-casing.
- **The order-fill walk** (`fillPuts`, `marketBuyPuts`).
  - The walk takes the ask side of a book in order. At each level it buys
    min(remaining, level size), as long as the level's price is within the
    break-even ceiling.
  - The exchange's reply to each market order is a parameter.
  - A rejected order throws, and the buys already made stand.
  - `order_fill.dfy` holds this part.
- **The hedge ledger** (`run()` in src/index.js).
  - The ledger is a `class` whose `map` field is the `hedges` object, plus
    the object's key insertion order.
  - The replay creates a bucket on the first purchase for its symbol. It
    samples the exchange's positions for that symbol at that moment, then
    accumulates puts owed and premium collected.
  - The deficit pass goes through the buckets in key order and fills every
    bucket holding fewer puts than it owes, until an order is rejected.
    The first rejection throws, which ends the pass and `run()`. In the
    source, a short bucket whose ask side runs out with puts still owed also
    throws (a TypeError, see the src/index.js:81 row under "## Findings") and
    ends the pass the same way; the model's corrected walk stops with the
    remainder unfilled and the pass goes on.
  - The positions listing and the books are parameters. `hedge_ledger.dfy`
    holds this part.
- **Deposits and pool share**. This is the write-position filter by epoch,
  with its two fatal errors. It is followed by the exact sum of deposits and
  `floor(writer * 1e8 / epochTotal) / 1e6`, the writer's share in percent.
  `deposits.dfy` holds this part. It is shared by `run()` and by the
  simulation script `index.js`; `simulator.dfy` models that script's own
  closest-strike rounding, market filter and ceiling-less walk. Nothing in
  the script calls its `fillPuts`: the only call is commented out
  (index.js:166), so the index.js:64 finding below is a latent bug.

Amounts the source keeps as JavaScript numbers are exact `real`s here.
Chain integers (costs, strikes, deposits) are `nat`. The exchange's replies
are parameters:
- `respond(symbol, n)` is the reply to the n-th order of a walk.
- `listing(s)` is the position listing returned when bucket `s` is created.
- `books(s)` is the order book returned for `s`.

`run()` never reassigns or clears `hedges` (src/index.js:30,
src/index.js:212-313), so `HedgeLedger.Run` replays into the buckets it is
given. The code has no +25 strike fallback for an empty book, so none is
modelled.

## Model

| member | source | states |
|---|---|---|
| ExpirySymbol.FloorTo25 | utils/index.js:17 | the strike is a multiple of 25 with strike <= x < strike + 25 for x = lastPrice - premium |
| ExpirySymbol.Strike | utils/index.js:17 | the strike for a reference price and a premium; no contract of its own: FloorTo25 (multiple of 25, floor bracket of lastPrice - premium), FloorTo25Monotone and StrikeFieldRoundTrip state it |
| ExpirySymbol.Symbol | utils/index.js:7-19 | getExpirySymbol; no contract of its own: SymbolTemplate, SymbolFields, StrikeFieldRoundTrip and NegativeStrikeFields state its layout and round trip |
| ExpirySymbol.DateCode | utils/index.js:8-14 | the date field; no contract of its own: DateCodeLayout, InvalidDateCodeRendering and DateCodeHasNoDash state it |
| ExpirySymbol.FloorTo25Monotone | utils/index.js:17 | the strike never decreases as lastPrice - premium grows |
| ExpirySymbol.MonthCode | utils/index.js:9 | the month field is three upper-case letters |
| ExpirySymbol.InvalidDateCodeRendering | utils/index.js:8-14 | for an expiry beyond the valid time range the date field is "NaN" + upper("Invalid Date") + "NaN".slice(-2) |
| ExpirySymbol.SymbolTemplate | utils/index.js:18 | the symbol is "ETH-" + date field + "-" + decimal strike + "-P" |
| ExpirySymbol.DateCodeLayout | utils/index.js:10-14 | the date field is the unpadded UTC day of month (1..31), the month code, then the year mod 100 as two digits |
| ExpirySymbol.DateCodeHasNoDash | utils/index.js:18 | the date field never contains '-' |
| ExpirySymbol.SymbolFields | utils/index.js:18 | with a non-negative strike the symbol splits on '-' into exactly ["ETH", date field, decimal strike, "P"] |
| ExpirySymbol.StrikeFieldRoundTrip | utils/index.js:17-18 | field 2 of the split symbol is all digits and parses back to the strike |
| ExpirySymbol.NegativeStrikeFields | utils/index.js:17-18 | a negative strike makes the symbol split into five fields with an empty third field |
| Text.ParseNatOfNatToString | utils/index.js:17 | parsing the decimal rendering of n gives n back |
| Text.Last2OfNatToString | utils/index.js:11-14 | slice(-2) of a number of two or more digits is its value mod 100, zero padded |
| Text.SplitJoin | index.js:45-47 | splitting separator-free pieces joined by the separator returns the pieces |
| Calendar.DayFromYearStep | utils/index.js:8-14 | year y occupies exactly DaysInYear(y) day numbers (365, or 366 in a Gregorian leap year) |
| Calendar.DayFromYear | utils/index.js:8-14 | ECMA-262 DayFromYear; no contract of its own: DayFromYearStep and DayFromYearMonotone state it |
| Calendar.MonthFromDay | utils/index.js:9 | ECMA-262 MonthFromTime on day numbers: a month 0..11; MonthDateDecompose ties it to the month table |
| Calendar.DateFromDay | utils/index.js:10 | ECMA-262 DateFromTime on day numbers; no contract of its own: MonthDateDecompose states it |
| Calendar.DayFromYearMonotone | utils/index.js:8-14 | years start on strictly increasing day numbers |
| Calendar.YearSearch | utils/index.js:11-12 | the year found contains the day: DayFromYear(y) <= d < DayFromYear(y + 1) |
| Calendar.YearUnique | utils/index.js:11-12 | at most one year contains a day, so the year of a day is determined |
| Calendar.YearFromDay | utils/index.js:11-12 | YearFromTime: a year from 1970 on whose days include d |
| Calendar.DayWithinYear | utils/index.js:10 | the ordinal of a day within its year is below the year's length |
| Calendar.MonthDateDecompose | utils/index.js:9-10 | MonthFromTime and DateFromTime split a day of the year into a month start plus a date between 1 and the month's length |
| Calendar.UtcDateOf | utils/index.js:8-12 | the UTC date of a time value has a year from 1970, a month 0..11 and a date within that month's length, and its day number is the year's first day plus the month's start plus the date minus one, which fixes the date |
| OrderFill.AsksAreTheSells | src/index.js:73 | the ask levels are exactly the book's sell entries, in both directions |
| OrderFill.AsksAppend | src/index.js:73 | filtering a concatenated book is the concatenation of the filtered parts, so the asks keep book order and multiplicity |
| OrderFill.AsksOfOne | src/index.js:73 | a one-entry book yields one level for a sell entry and none for a buy entry |
| OrderFill.Asks | src/index.js:73 | the ask side of the book; AsksAreTheSells, AsksAppend and AsksOfOne state it (index.js:55 applies the same filter) |
| OrderFill.Admits | src/index.js:83 | the ceiling test `orderbook[i].price <= premiumPerStraddle`; AdmitsBelow, WalkSound and CeilingExamples state it |
| OrderFill.AdmitsBelow | src/index.js:83 | a ceiling admitting a price admits every lower price; +Infinity admits every price and NaN none |
| OrderFill.Walk | src/index.js:78-106 | the walk with the loop guard i < length; no contract of its own: WalkSound, WalkStep and FillPuts state it |
| OrderFill.WalkAsWritten | src/index.js:81 | the walk with the guard as written (i <= length); no contract of its own: AsWrittenFromAgrees and ReadPastEndWitness state it |
| OrderFill.MarketBuyPuts | src/index.js:48-50 | an order fails exactly when retCode is not 0, with "Bybit: submitting order: " + retMsg |
| OrderFill.WalkStep | src/index.js:83-98 | an accepted order within the ceiling buys min(remaining, size) and the walk goes on at the next level |
| OrderFill.WalkFromState | src/index.js:81-105 | from any state consistent with the orders placed so far the walk keeps every promise of WalkSound |
| OrderFill.WalkSound | src/index.js:78-106 | orders are placed level by level in book order, each within the ceiling, accepted and of size min(remaining, size); bought plus remaining equals toFill; remaining stays non-negative; the walk ends filled exactly when nothing remains, exhausted only after the last level, priced out only at a level above the ceiling, or rejected with that order's error |
| OrderFill.RemainingNeverGrows | src/index.js:86-95 | with non-negative level sizes the amount left never exceeds toFill |
| OrderFill.EmptyBookBuysNothing | src/index.js:78 | an empty ask side places no order and leaves toFill unfilled |
| OrderFill.FillPuts | src/index.js:62-107 | the source's loop returns exactly the walk over the book's asks (guard corrected to i < length) |
| OrderFill.AsWrittenFromAgrees | src/index.js:81 | the as-written walk equals the corrected one except that running out of levels reads past the end |
| OrderFill.AsWrittenDiffersOnlyWhenBookRunsOut | src/index.js:78-81 | the two walks differ only on a non-empty book used up with something still to fill |
| OrderFill.ReadPastEndWitness | src/index.js:81-85 | one ask of 3 at 10, 5 wanted, ceiling 11: the as-written walk throws after buying 3, the corrected one stops with 2 left |
| OrderFill.CeilingExamples | src/index.js:81-104 | asks (10, 3), (12, 4), ceiling 11: 5 wanted buys 3 and stops priced out with 2 left; 3 wanted buys 3 and stops filled |
| Deposits.ForEpochMembers | src/index.js:229-233 | the epoch filter keeps exactly the positions of the current epoch |
| Deposits.ForEpoch | src/index.js:229-233 | writePositionsForEpoch, never longer than the positions; ForEpochMembers and TotalOfEpochPositions state it |
| Deposits.TotalOfEpochPositions | src/index.js:240-245 | the sum over the filtered positions equals every deposit of the epoch counted once, and no more than all deposits |
| Deposits.TotalDeposits | src/index.js:240-245 | the BN sum of the epoch's deposits (also index.js:144-149); no contract of its own: TotalOfEpochPositions and WriterDeposits state it |
| Deposits.WriterDeposits | src/index.js:224-245 | fails with "No write positions to hedge" on no positions and with "No write positions for this epoch to hedge" on none of the epoch; otherwise succeeds with the exact epoch sum |
| Deposits.PoolShare | src/index.js:246-250 | fails (bn.js assertion) exactly on zero epoch deposits; otherwise v is a whole number of millionths with v * total <= 100 * writer < (v + 1e-6) * total, which fixes v = floor(writer * 1e8 / total) / 1e6, and v <= 100 when writer <= total |
| Deposits.PoolShareExample | src/index.js:246-250 | deposits of 2,000,000 out of 10,000,000 give a share of 20 |
| HedgeLedger.PreviousPurchases | src/index.js:128-130 | keeps exactly the purchase events of the current epoch |
| HedgeLedger.PreviousPurchasesAppend | src/index.js:128-130 | the epoch filter of concatenated events is the concatenation of the filtered parts, so the kept events stay in event order, each once |
| HedgeLedger.PreviousPurchasesOfOne | src/index.js:128-130 | a single event is kept exactly when its epoch is the current one |
| HedgeLedger.PositionsFor | src/index.js:110-118 | keeps exactly the positions listed under the given symbol |
| HedgeLedger.PositionsForAppend | src/index.js:115-117 | the symbol filter of a concatenated listing is the concatenation of the filtered parts, in listing order, each once |
| HedgeLedger.PositionsForOfOne | src/index.js:115-117 | a single position is kept exactly when it is listed under the symbol |
| HedgeLedger.SizeOfFiltered | src/index.js:284-286 | summing the filtered sizes counts every position of the symbol once and no other, against an independent conditional sum |
| HedgeLedger.OpeningHedges | src/index.js:283-286 | the holdings of a new bucket; no contract of its own: OpeningHedgesAreTheSymbolsSizes states it |
| HedgeLedger.OpeningHedgesAreTheSymbolsSizes | src/index.js:283-286 | a new bucket's holdings are the sum of the sizes of exactly the positions listed under its symbol |
| HedgeLedger.PremiumPerStraddle | src/index.js:261 | cost / (underlyingPurchased * 2) / 1e8; no contract of its own: it enters through SymbolOf into the credit, which CreditsInOrder states |
| HedgeLedger.AmountToHedge | src/index.js:276 | underlyingPurchased / 1e18 * 2 * poolShare / 100; no contract of its own: CreditOf states it is non-negative for a non-negative share |
| HedgeLedger.PremiumShare | src/index.js:288 | cost * poolShare / 1e28; no contract of its own: CreditOf states it is non-negative for a non-negative share |
| HedgeLedger.SymbolOf | src/index.js:262-266 | the hedge symbol of a purchase, getExpirySymbol of the epoch expiry, apStrike / 1e8 and the premium per straddle; no contract of its own: SymbolFields and StrikeFieldRoundTrip state its layout, CreditsInOrder its place in the credits |
| HedgeLedger.CreditOf | src/index.js:261-289 | with a non-negative pool share a purchase adds non-negative puts owed and premium |
| HedgeLedger.CreditsInOrder | src/index.js:258-276 | the k-th credit is the k-th purchase's symbol, amount to hedge and premium share |
| HedgeLedger.Credits | src/index.js:258-276 | one credit per purchase, as many as purchases; CreditsInOrder states that the k-th is the k-th purchase's |
| HedgeLedger.ReplayedBucket | src/index.js:277-289 | after a replay a bucket exists exactly when it existed or some purchase maps to it; its holdings are the old ones or the ones sampled at creation; puts owed and premium grow by the sums over the purchases mapped to it |
| HedgeLedger.Credited | src/index.js:277-289 | one purchase's update of `hedges`; no contract of its own: ReplayedBucket, UncreditedSymbol and Ledger.Record state it |
| HedgeLedger.Base | src/index.js:277-287 | the bucket a symbol starts from: the existing one, or a new one with the sampled holdings and nothing owed; no contract of its own: ReplayedBucket states it |
| HedgeLedger.Enrolled | src/index.js:277-282 | the key order after assigning a key; no contract of its own: EnrollKeepsIndexed states it |
| HedgeLedger.Replayed | src/index.js:258-290 | the buckets after the replay loop; no contract of its own: ReplayedBucket and UncreditedSymbol state it |
| HedgeLedger.ReplayedOrder | src/index.js:258-290 | the key order Object.keys lists at src/index.js:294 after the replay; no contract of its own: ReplayedOrderKeys states it |
| HedgeLedger.ReplayedOrderKeys | src/index.js:277-294 | after the replay the old keys come first and in place, the keys are exactly the old ones and the credited symbols, and none is listed twice |
| HedgeLedger.UncreditedSymbol | src/index.js:288-289 | a symbol no purchase maps to receives nothing |
| HedgeLedger.WritesNonNegative | src/index.js:276-289 | with a non-negative pool share the puts owed and premium credited to any symbol are non-negative |
| HedgeLedger.EnrollKeepsIndexed | src/index.js:277-282 | assigning a key keeps the key order listing every bucket once |
| HedgeLedger.BreakEven | src/index.js:297-298 | the ceiling is premiumCollected / writes for non-zero writes; over zero writes it is +Infinity (every price) for positive premium and admits no price for zero or negative premium (NaN or -Infinity) |
| HedgeLedger.DeficitsAreTheShortBuckets | src/index.js:294-298 | the deficits are exactly the buckets holding fewer puts than they owe, each asking for the positive difference under its break-even ceiling, each bucket once |
| HedgeLedger.Deficits | src/index.js:294-298 | the short buckets in key order; no contract of its own: DeficitsAreTheShortBuckets states it |
| HedgeLedger.Short | src/index.js:295 | `hedges < writes` for an existing bucket; no contract of its own: DeficitsAreTheShortBuckets states it |
| HedgeLedger.DeficitOf | src/index.js:296-298 | toFill = writes - hedges and the break-even ceiling; no contract of its own: DeficitsAreTheShortBuckets and BreakEven state it |
| HedgeLedger.PassOver | src/index.js:294-306 | the fills of the deficit pass; no contract of its own: PassFollowsDeficits, PassGoesOnAfterAcceptance, PassEndsOnRejection and PassFrom state it |
| HedgeLedger.PassFollowsDeficits | src/index.js:294-306 | the pass fills the deficits in key order, one fill each against that symbol's book |
| HedgeLedger.PassGoesOnAfterAcceptance | src/index.js:304 | only the last fill of a pass can have been rejected |
| HedgeLedger.PassEndsOnRejection | src/index.js:304 | the pass covers every deficit unless an order is rejected, and stops right after that fill with its error |
| HedgeLedger.PassFrom | src/index.js:294-306 | the pass from key i on is bucket i's fill (when short) followed, unless rejected, by the pass from i + 1 |
| HedgeLedger.Ledger.constructor | src/index.js:30 | starts with no buckets |
| HedgeLedger.Ledger.Record | src/index.js:277-289 | one replay step: the ledger becomes Credited(old, credit) and the key order gains the symbol if new |
| HedgeLedger.Ledger.Replay | src/index.js:258-290 | the ledger becomes the replay of the purchases' credits over the old ledger, keeping one key per bucket |
| HedgeLedger.Ledger.DeficitPass | src/index.js:294-306 | returns exactly the pass over the ledger's deficits in key order |
| HedgeLedger.Run | src/index.js:212-306 | each of the three fatal load errors (no positions, none of the epoch, zero epoch deposits) is returned with its message and leaves the ledger unchanged; otherwise the buckets and the key order are the replay of the epoch's purchases under the computed share, and the result is the deficit pass over them in that key order; it succeeds whenever the epoch has positions and deposits |
| Simulator.Closest | index.js:37 | the closest strike is the decimal rendering of the floor to the $25 ladder (the strike for zero premium) |
| Simulator.TargetsMembers | index.js:43-48 | the market filter keeps exactly the symbols whose fields 1, 2, 3 are the next expiry, the closest strike and "P" |
| Simulator.Targets | index.js:43-48 | the filtered markets, in listing order; TargetsMembers and SelectsFirstMatch state it |
| Simulator.IsTarget | index.js:44-47 | the market filter's test; no contract of its own: TargetsMembers, SelectsFirstMatch and ExpirySymbolIsTarget state it |
| Simulator.SelectMarket | index.js:51 | markets[0].symbol of the filtered list, or the TypeError when it is empty |
| Simulator.SelectsFirstMatch | index.js:43-51 | the selection fails exactly when no market matches, and otherwise is the first match in listing order |
| Simulator.ExpirySymbolIsTarget | index.js:43-48 | for a non-negative strike, the symbol getExpirySymbol builds with no premium for the script's expiry passes the script's filter |
| Simulator.NextExpiryOfNovember23 | index.js:20 | the expiry 1669190400 renders as the script's "23NOV22" |
| Simulator.DateOfNovember23 | index.js:20 | 1669190400 s is UTC 2022-11-23 |
| Simulator.DayOfNovember23 | index.js:20 | day 19319 is day 326 of 2022 |
| Simulator.SimulateFill | index.js:62-85 | the script's loop returns exactly the walk with no ceiling and no order that can fail |
| Simulator.SimulatedWalkEnds | index.js:64-73 | the script's walk ends filled or with the book used up; bought plus left is toFill; left is never negative and never above toFill |
| Simulator.SimulatedReadPastEnd | index.js:64-65 | one ask of 3, 5 wanted: the as-written loop reads past the book, the corrected one stops with 2 left |
| Simulator.SimulatedFillPuts | index.js:35-86 | the script's fillPuts fails exactly as the market selection does and otherwise walks the selected market's asks |
| Simulator.LoadPoolShare | index.js:128-158 | the two fatal errors, then the pool share of the exact epoch sum of the writer's deposits |

## Findings

| source | as written | input that shows it | evidently intended | confidence | as-written member | corrected member |
|---|---|---|---|---|---|---|
| src/index.js:81 | the loop guard is `i <= orderbook.length`, so a book used up with something still to fill reads `orderbook[length]`, which is undefined, and throws a TypeError | asks [(10, 3)], toFill 5, ceiling 11 | stop after the last level with the remainder unfilled (`i < orderbook.length`) | high; not executed | OrderFill.ReadPastEndWitness | OrderFill.FillPuts |
| index.js:64 | the same guard `i <= orderbook.length` in the simulated walk | asks [(10, 3)], toFill 5 | stop after the last level (`i < orderbook.length`) | high; not executed | Simulator.SimulatedReadPastEnd | Simulator.SimulateFill |

## Left out

- Chain and exchange I/O. The contract reads, `getPastEvents`, the exchange clients, `getLastPrice`, the `fs.writeFile` snapshots and the logging are not modelled. Their results are parameters.
- The live purchase handlers and the bootstrap re-run (src/index.js:154-210, index.js:89-106). They are asynchronous subscriptions. The live handler calls `fillPuts` without touching the ledger.
- `getContractInfo` and its filter inside `fillPuts` (src/index.js:63-67). The result is never used.
- Floating point. Amounts are exact reals. Not modelled: IEEE rounding, `parseFloat`, the `toFixed(1)` order quantity (src/index.js:43), `toNumber`'s 53-bit limit, and JavaScript's exponent notation for numbers of 1e21 and more.
- Locale and time zone. `toLocaleString("default", { month: "short" })` and `getFullYear()` depend on the host. The model uses English month names and the UTC year.
- Negative time values. Expiries are unsigned chain integers, so the calendar covers only non-negative times.
- HedgeLedger.Run: requires every purchase of the epoch to have a non-zero underlying amount. With zero, the source divides by zero and builds a symbol from Infinity or NaN, which the model does not render.
- The order link id (`Date.now()`) and the order parameters other than the symbol. The reply oracle decides whether an order succeeds.
- The values `index.js` only logs: `availableUsdDeposits`, `totalSellableStraddles` and the premium (index.js:113-120, index.js:151-153).
- Reordering purchases of different symbols. ReplayedBucket shows each bucket depends only on the purchases mapped to it, but a permutation lemma is not stated.
