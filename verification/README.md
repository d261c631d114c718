# gamesquares.live — a Dafny model of the squares-pool engine

gamesquares.live runs "football squares" pools for the Super Bowl. A pool
is a 10×10 board of 100 squares. Players join under a display name and
claim squares up to a per-player quota. The admin can deal the remaining
squares out round-robin, and then draws a random permutation of the
digits 0..9 for the row header and one for the column header. After each
quarter, the last digit of each team's cumulative score picks a row and a
column, and the owner of that square wins the quarter.

Scores reach the system in two ways. A feed action polls a scoreboard and
appends a row to an append-only game log whenever something changed. An
admin form posts scores by hand. A Next.js client shows the board, lets
players join and claim, and remembers which pools this browser has opened.

This project models that engine in Dafny, one module per source file:

- **Backend (Convex)**:
  - `Schema`, `Squares`, `Pools`: the board, claims, releases, the deal, the quota change, the number draw, pool creation under the global rate limit and the limits record.
  - `Games`, `NflScores`: the game log and the score feed.
  - `Participants`, `AdminLoginTokens`, `Sponsor`: joining, one-time admin links and sponsor capacity.
- **Client data**:
  - `ConvexToPool`, `PoolStore`: the projection of Convex rows onto the client grid, and the grid helpers.
  - `HomePage`: the local claim reducer.
  - `DemoData`: the fixed demo pools.
  - `PoolHistory`: the pool history kept in browser storage.
- **Client decisions**:
  - `SquaresGrid`, `PlayerBoard`, `AdminBoard`: the rules of the board components.
  - `GraphicIcon`, `QrSignDialog`: the icon ids and the QR dialog's string helpers.
  - `ScoresPage`, `AdminPage`, `ScoresRoute`: the two manual score forms and the route they post to.
- **Shared helpers**:
  - `Text`, `Js`: JavaScript string and number built-ins.
  - `Sorting`: the stable sort.
  - `Shuffle`: Fisher–Yates.
  - `Json`: parsed JSON values.
  - `Wrappers`: Option and Result.

The form follows the source:

- Code that updates tables or local variables step by step is a Dafny `class` or `method`. This covers the pool with its 100 owner slots, the token, payment and game tables, the history slot, and the loops of the claim, the deal, the shuffles, the projection and the score sync. Each method's `ensures` ties its result or new state to a specification function.
- Expression-style code is a set of functions.
- Properties that relate several operations are lemmas.

Randomness and the clock are modelled as follows:

- The random index of each shuffle is an arbitrary choice in [0, i], so the permutation facts hold for every outcome.
- Random slug draws are a parameter.
- The current time is a parameter.

`distributeSquares` deals round-robin without consulting
`maxSquaresPerPerson`, so the deal can leave a player above the quota.
The model follows the code. `Squares.DistributeSquares` and
`Squares.ShareBounds` state how many squares each player gets.

## Model

| member | source | states |
|---|---|---|
| Text.Trim | lib/pool-store.ts:89 | `trim()` leaves no white space at either end; the result is empty exactly when the input is all white space, and already-trimmed input is returned unchanged |
| Text.TrimStartSuffix | lib/pool-store.ts:89 | trimming the start keeps a suffix that does not begin with white space, and everything it drops is white space |
| Text.TrimEndRemovesSpace | lib/pool-store.ts:89 | trimming the end keeps a prefix, and everything it drops is white space |
| Text.SplitFirst | lib/pool-store.ts:89 | `split(/\s+/)` of a string without white space is that string alone, and its first piece runs up to the first white space |
| Text.SplitTrimmed | lib/pool-store.ts:89-93 | on trimmed text every piece is non-empty, and there are two or more pieces exactly when the text holds white space |
| Text.Upper | lib/pool-store.ts:91-93 | `toUpperCase()` keeps the length, maps each character on its own and leaves no lower-case ASCII letter |
| Text.Find | components/admin-board.tsx:40 | the first position where the pattern occurs, or -1 exactly when it does not occur |
| Text.ReplaceFirst | components/admin-board.tsx:40 | `replace` with a literal pattern leaves a string without the pattern unchanged, and otherwise rewrites only its first occurrence |
| Js.IndexOf | components/squares-grid.tsx:62-82 | `indexOf` gives the first position holding the element, and -1 exactly when it is absent |
| Js.IndexOfDistinct | components/squares-grid.tsx:62-63 | in a sequence without repeats, the element at a position is found at that position |
| Js.Rem | lib/convex-to-pool.ts:95 | JavaScript's `%` agrees with the mathematical remainder on non-negative operands, and for a negative dividend lies in (-b, 0] |
| Js.FloorDiv | lib/convex-to-pool.ts:94 | `Math.floor(a / b)` is the largest q with q·b ≤ a |
| Sorting.SortDesc | lib/pool-history.ts:34 | the stable sort by a key, newest first, returns a reordering of its input that is sorted descending |
| Sorting.PrefixOfSorted | lib/pool-history.ts:70-72 | a prefix of a descending list is descending, drawn from the list, and no newer than what it leaves out |
| Sorting.SortSortedIsIdentity | lib/pool-history.ts:34 | sorting an already-sorted list changes nothing, since the sort is stable |
| Shuffle.ShuffleInPlace | convex/pools.ts:322-329 | Fisher–Yates leaves the array a permutation of what it held, whatever the random draws |
| Shuffle.ShuffleDigits | convex/pools.ts:331-333 | shuffling the digits gives ten numbers that are 0..9 in some order |
| Shuffle.DigitPermutationFacts | convex/pools.ts:331-333 | a permutation of the digits holds each of 0..9 exactly once and nothing else |
| Games.Latest | convex/games.ts:45-51 | the current game is absent exactly when the table is empty; otherwise it is a stored row with the largest `updatedAt`, and every row inserted after it is strictly older, so it is the last inserted among the newest |
| Games.LatestAmong | convex/games.ts:45-49 | the newest of the first n rows is one of them, no row among them is newer, and every later one among them is strictly older |
| Games.AppendedIsLatest | convex/games.ts:103-110 | a row inserted with a time no earlier than every stored row becomes the current game |
| Games.QuarterError | convex/games.ts:90-101 | a quarter gets an error exactly when its row or column score lies outside 0..99 |
| Games.FirstScoreError | convex/games.ts:89-102 | no error iff every quarter's scores lie in 0..99; otherwise the error is that of the first quarter out of range |
| Games.GameLog.constructor | convex/games.ts:104 | the `games` table starts empty |
| Games.GameLog.GetLatestGame | convex/games.ts:119-127 | `getLatestGame`/`getCurrentGame`: not found iff no row; otherwise a stored row that no row is newer than |
| Games.GameLog.SetScoresManual | convex/games.ts:75-113 | a missing or wrong secret is "Unauthorized"; a score out of range gives the first quarter's error; a refusal leaves the table unchanged; success appends exactly one "manual" row with the given name, quarters and completion |
| Games.GameLog.SetScoresFromScrape | convex/games.ts:133-157 | appends exactly one "scrape" row carrying every argument and the current time, with no range check |
| Schema.Ids | convex/schema.ts:26-30 | the id list lines up index by index with the participant rows |
| Schema.FreshId | convex/schema.ts:26-30 | a newly inserted participant gets an id no listed participant has, larger than all of them |
| Schema.CountOwned | convex/pools.ts:275-283 | a participant's square count never exceeds the board size |
| Schema.CountClaimed | convex/pools.ts:141 | the number of owned squares never exceeds the board size |
| Schema.CountOwnedUpdate | convex/squares.ts:68 | patching one square changes a participant's count by the owner that left and the owner that arrived, and nobody else's |
| Schema.CountClaimedUpdate | convex/squares.ts:161 | patching one square changes the claimed count by one exactly when it goes from free to owned or back |
| Schema.CountClaimedFull | convex/pools.ts:141 | every square is claimed iff the claimed count equals the board size |
| Schema.Pool.constructor | convex/pools.ts:72-86 | a new pool is open, has the given fields, no numbers, no participants and 100 free squares |
| Pools.GenerateSlug | convex/pools.ts:9-15 | a slug is eight characters, each from the 36 lower-case letters and digits |
| Pools.NormalizeEmail | convex/pools.ts:29-35 | the stored email is trimmed and has no upper-case letter; it is empty exactly when the input is all whitespace |
| Pools.NormalizeEmailIdempotent | convex/pools.ts:29 | normalising a normalised email changes nothing |
| Pools.AdmittedIsCap | convex/pools.ts:54-60 | of n creations in a row exactly min(n, 100 + bonus - created) are admitted, none once the cap is reached |
| Pools.CountCreation | convex/pools.ts:88-90 | a creation adds one to `createdCount` and leaves the window and bonus alone |
| Pools.PickFreshSlug | convex/pools.ts:62-70 | the do-while ends on a drawn slug that no pool uses |
| Pools.Deployment.constructor | convex/pools.ts:37-38 | before any pool there is no limits row and no slug in use |
| Pools.Deployment.CreatePool | convex/pools.ts:17-94 | a blank email is INVALID_INPUT; a full window is RATE_LIMIT; a failure leaves limits and slugs untouched; success counts the creation and returns a fresh open pool with an unused slug, trimmed title, normalised email and 100 free squares |
| Pools.Deployment.AddSponsorCapacity | convex/pools.ts:345-367 | a non-positive amount changes nothing; otherwise the bonus grows by the amount, on a new limits row when none existed |
| Pools.Deployment.ResetGlobalLimits | convex/pools.ts:373-385 | an existing limits row gets a zero count and a new window start; a missing one stays missing |
| Pools.SponsorRaisesCap | convex/pools.ts:362-364 | sponsored capacity admits exactly `amount` more creations |
| Pools.Summarize | convex/pools.ts:141-150 | a summary's `claimedCount` is the number of owned squares of that pool |
| Pools.MapSummaries | convex/pools.ts:131-152 | one summary per kept pool, in the same order |
| Pools.NewestFirst | convex/pools.ts:127-129 | at most 100 pools are kept, newest first, all taken from the input; a dropped pool is no newer than any kept one |
| Pools.ListPools | convex/pools.ts:123-155 | the list has min(count, 100) summaries in descending creation time |
| Pools.ListPoolsFromInput | convex/pools.ts:131-150 | every listed summary is the summary of an input pool |
| Pools.ListPoolsDropsOldest | convex/pools.ts:128-129 | a pool missing from the list is no newer than any listed pool |
| Pools.Clamp | convex/pools.ts:266 | the new limit lies in 1..100 and equals the request when the request does |
| Pools.Appearance | convex/pools.ts:275-283 | the counting map's keys, without repeats, are exactly the participants owning at least one square |
| Pools.FirstOver | convex/pools.ts:285-292 | no count is reported iff every key's count is within the limit; a reported count exceeds it and belongs to a key |
| Pools.FirstOverIffSomeoneOver | convex/pools.ts:268-292 | the scan reports an offender exactly when some participant holds more squares than the new limit |
| Pools.CountByParticipant | convex/pools.ts:275-283 | the map holds, for exactly the owners in first-appearance order, their number of squares |
| Pools.UpdateMaxSquares | convex/pools.ts:254-298 | a missing pool is "Pool not found"; a decrease below some participant's count is refused with that count and changes nothing; any other request stores the clamped limit |
| Pools.AssignNumbers | convex/pools.ts:305-339 | a missing pool is "Pool not found"; otherwise row and column numbers are each a permutation of 0..9, stored and returned, and nothing else changes |
| Squares.ClaimPlan | convex/squares.ts:59-70 | the claim loop patches at most `canClaim` squares, never more than were requested, each one existing and free when the board was read |
| Squares.MarkSnoc | convex/squares.ts:68 | patching one more index is one more update of the board |
| Squares.MarkCountBound | convex/squares.ts:61-70 | patching a list of squares adds at most its length to the participant's count |
| Squares.ClaimRespectsQuota | convex/squares.ts:44-70 | a participant below the quota ends at most at the quota, and squares owned when the board was read keep their owner |
| Squares.ClaimRepeatedIndex | convex/squares.ts:61-70 | a free square requested twice is reported twice but counted once, since each check reads the board as it was before the loop |
| Squares.PatchPlan | convex/squares.ts:59-70 | the loop returns the claim plan and the board holds the participant on exactly those squares |
| Squares.ClaimSquares | convex/squares.ts:8-74 | a missing pool or participant is NOT_FOUND, a locked pool POOL_LOCKED and a full quota LIMIT_REACHED, each leaving the board unchanged; success patches exactly the claim plan |
| Squares.Release | convex/squares.ts:150-164 | releasing keeps the board's size |
| Squares.ReleaseBoard | convex/squares.ts:152-164 | after a release every requested square is free and every other square is as before |
| Squares.ReleasedExactly | convex/squares.ts:160-163 | the released list holds, once each, exactly the requested indexes that had an owner |
| Squares.ReleaseEach | convex/squares.ts:152-164 | the loop returns the released list and leaves the board that `Release` describes |
| Squares.ReleaseSquares | convex/squares.ts:136-168 | a missing pool throws NOT_FOUND; otherwise the released list and the new board are those of `Release` |
| Squares.Unowned | convex/squares.ts:109 | the free squares, each listed once; their number is the board size minus the claimed count |
| Squares.Deal | convex/squares.ts:122-127 | dealing keeps the board size, leaves undealt squares alone and gives every dealt square a listed participant |
| Squares.ShareStep | convex/squares.ts:124 | deal n goes to position n mod p |
| Squares.DivModUnique | convex/squares.ts:124 | quotient and remainder are determined by a = q*p + m with 0 <= m < p |
| Squares.MulBound | convex/squares.ts:124 | a non-zero multiple of p lies at least p from zero |
| Squares.ShareBounds | convex/squares.ts:121-127 | round robin is fair: every participant gets floor(n/p) or that plus one of n squares, exactly n/p when p divides n |
| Squares.DealCount | convex/squares.ts:121-127 | dealing distinct free squares adds to the k-th participant exactly its round-robin share |
| Squares.PermutationKeepsDistinct | convex/squares.ts:115-119 | a shuffle of a list without repeats has none and the same members |
| Squares.DealFillsBoard | convex/squares.ts:109-127 | dealing a shuffle of all free squares fills the board, keeps owned squares and gives each participant its share |
| Squares.DealRoundRobin | convex/squares.ts:121-127 | the loop deals `shuffled[i]` to participant i mod p and counts every square |
| Squares.CopyToArray | convex/squares.ts:115 | the copy holds the free squares in order |
| Squares.ShuffleAndDeal | convex/squares.ts:114-127 | every square ends owned; squares already owned keep their owner; free ones go to listed participants in round-robin shares |
| Squares.DistributeSquares | convex/squares.ts:80-131 | "Pool not found", "No players have joined yet" and "All squares are already claimed" leave the board unchanged; otherwise every free square is dealt and the count is returned |
| Participants.FindByName | convex/participants.ts:33-37 | the first participant whose display name is exactly the name, and none exactly when no participant has it |
| Participants.Join | convex/participants.ts:32-55 | the answer carries the requested (trimmed) name |
| Participants.JoinFacts | convex/participants.ts:32-55 | the answered id is held by a row with that name; at most one row is added, exactly when the name was new; rows with other names are untouched |
| Participants.JoinIdempotent | convex/participants.ts:33-45 | joining again with the same name returns the same participant and adds no row, whatever graphic and time it gives |
| Participants.JoinCaseSensitive | convex/participants.ts:36 | names are compared exactly: "Al" and "al" become two participants |
| Participants.JoinKeepsUnique | convex/participants.ts:32-53 | a join keeps ids and display names unique and keeps every existing id |
| Participants.JoinPool | convex/participants.ts:8-57 | a missing pool is NOT_FOUND and a blank name INVALID_INPUT, neither changing the list; otherwise the list and answer are those of a join with the trimmed name |
| Participants.FindById | convex/participants.ts:69 | the row holding the id, and none exactly when no row has it |
| Participants.UpdateGraphic | convex/participants.ts:62-79 | an unknown participant is NOT_FOUND and changes nothing; otherwise only that participant's graphic changes |
| AdminLoginTokens.FindToken | convex/adminLoginTokens.ts:38-41 | the first row with the hash, and none exactly when no row has it |
| AdminLoginTokens.Validate | convex/adminLoginTokens.ts:37-65 | an unknown hash is "Invalid or expired link" and changes nothing; success only for an unused, unexpired token whose pool exists, answering that pool's slug and id; the only change ever made is marking the found token used at `now` |
| AdminLoginTokens.SecondValidationFails | convex/adminLoginTokens.ts:47-56 | a link that got past the used and expiry checks fails every later validation as "This link has already been used" |
| AdminLoginTokens.CreatedTokenValidates | convex/adminLoginTokens.ts:4-64 | a new link logs in to its pool up to and including 15 minutes after creation ("Pool not found" if the pool is gone) and is expired after that |
| AdminLoginTokens.TokenTable.constructor | convex/adminLoginTokens.ts:16 | the token table starts empty |
| AdminLoginTokens.TokenTable.CreateAdminLoginToken | convex/adminLoginTokens.ts:6-23 | appends one unused row expiring 15 minutes after `now` and returns that expiry |
| AdminLoginTokens.TokenTable.ValidateAndConsumeToken | convex/adminLoginTokens.ts:29-66 | the new table and the answer are those `Validate` gives |
| Sponsor.FirstPayment | convex/sponsor.ts:20-26 | a recorded payment under the key, and none exactly when no payment has that key |
| Sponsor.RecordThenLookup | convex/sponsor.ts:39-53 | after recording under a new key the lookup finds that payment; under a known key, or for another key, the lookup is unchanged |
| Sponsor.PaymentTable.constructor | convex/sponsor.ts:46 | the payments table starts empty |
| Sponsor.PaymentTable.GetPaymentByKey | convex/sponsor.ts:8-34 | null exactly when no payment has the key; otherwise a stored payment with that key |
| Sponsor.PaymentTable.RecordPayment | convex/sponsor.ts:39-53 | appends exactly one payment row |
| Sponsor.FulfillSponsorship | convex/sponsor.ts:60-101 | a wrong or unset secret is UNAUTHORIZED and a non-positive amount "Invalid amount"; a known key is "Already processed"; none of these changes anything; otherwise the payment is recorded, found by a later lookup, and the bonus grows by the amount; with the checks passed, the outcome is that of FulfilAtomic (one delivery running alone) |
| Sponsor.AddCapacity | convex/pools.ts:349-364 | the bonus of the existing or freshly created limits row grows by the amount; the creation count is kept |
| Sponsor.FulfilAtomic | convex/sponsor.ts:80-99 | the fulfilment as one transaction: "Already processed" exactly for a recorded key, with no change; otherwise the payment is appended and the bonus grows |
| Sponsor.RedeliveryGrantsNothing | convex/sponsor.ts:80-87 | as one transaction, a second delivery of a key is "Already processed" and changes nothing, whatever its amount |
| Sponsor.Step | convex/sponsor.ts:80-99 | each of the action's three transactions keeps the delivery's key and amount and appends at most its own payment |
| Sponsor.Interleave | convex/sponsor.ts:80-99 | two deliveries interleaved by a schedule only ever append to the payments table |
| Sponsor.AloneIsAtomic | convex/sponsor.ts:80-99 | a delivery whose three transactions run with nothing in between ends as FulfilAtomic does |
| Sponsor.RetryRaceGrantsTwice | convex/sponsor.ts:80-99 | two deliveries of one new key whose lookups both run before either record are both granted; the payment is recorded twice and the bonus grows by twice the amount |
| NflScores.FindFirst | convex/nflScores.ts:73-75 | `events.find(p)`: the first event satisfying the test, and none exactly when no event does |
| NflScores.FindSuperBowl | convex/nflScores.ts:71-99 | none only for no events; otherwise the first postseason week-5 event, else the first with a "super bowl" note, else the first matching by name, else the first event |
| NflScores.NumQuarters | convex/nflScores.ts:127 | between one and four quarters are emitted, as many as the period when it lies in 1..4 |
| NflScores.BothScored | convex/nflScores.ts:133-136 | the quarters with a line score on both sides are within both line-score lists |
| NflScores.Quarters | convex/nflScores.ts:111-162 | one quarter per emitted period |
| NflScores.QuartersShape | convex/nflScores.ts:123-156 | labels run Q1..Q4 in order; `complete` is never stored as false and is true exactly when the game is over or play has moved past the quarter |
| NflScores.QuartersAccumulate | convex/nflScores.ts:136-139 | while both sides have line scores, each quarter's score is the previous cumulative score plus that quarter's line score |
| NflScores.QuartersExample | convex/nflScores.ts:104-109 | in period 2 with line scores 7 and 3 and totals 7 and 10, Q1 is 7-3 and complete and Q2 is the running total 7-10 |
| NflScores.BuildQuarters | convex/nflScores.ts:111-162 | the accumulator loop yields `Quarters`, and the game is complete iff ESPN says completed or the state is "post" |
| NflScores.QuartersEqual | convex/nflScores.ts:167-183 | equal iff same length and every pair agrees on label, both scores and `complete ?? false` |
| NflScores.QuartersEqualProperties | convex/nflScores.ts:167-183 | the comparison is reflexive and symmetric, and an absent `complete` equals `complete: false` |
| NflScores.PossessionOf | convex/nflScores.ts:238-249 | "home" iff a non-empty possession id equals the home team's id; "away" iff it equals the away team's id and not the home's; otherwise "none" |
| NflScores.VersusName | convex/nflScores.ts:268-269 | the replacement keeps the length and changes nothing when the name has no " at " in any letter case |
| NflScores.FindSide | convex/nflScores.ts:214-215 | a competitor on the requested side from the list, and none exactly when no competitor is on it |
| NflScores.TickWritesOnlyStartedGames | convex/nflScores.ts:205-279 | a written row comes from a found event that is not pre-game, holds one to four quarters, and is a "scrape" row stamped `now` |
| NflScores.RepeatedTickSkips | convex/nflScores.ts:253-266 | once the written row is the latest, the same scoreboard at any later time is "scores unchanged" |
| NflScores.TickThenTickAgain | convex/nflScores.ts:253-266 | with the game log, a tick that wrote no earlier than every row makes the next identical tick skip |
| NflScores.FetchAndUpdateScores | convex/nflScores.ts:192-283 | the table grows by exactly the planned row when the tick writes and is unchanged otherwise, and the answer reports the quarter count or the reason |
| ConvexToPool.GraphicFor | lib/convex-to-pool.ts:49-51 | a participant's graphic is one of the twenty defaults |
| ConvexToPool.GraphicsRepeatEvery20 | lib/convex-to-pool.ts:36-51 | two positions get the same graphic exactly when they are congruent modulo 20 |
| ConvexToPool.IdentityOf | lib/convex-to-pool.ts:74-78 | the identity carries the display name, at most two initials and the positional graphic |
| ConvexToPool.LastAt | lib/convex-to-pool.ts:64-67 | the position of the last of the first n keys equal to the key, or -1 exactly when none is |
| ConvexToPool.LastAssignmentWins | lib/convex-to-pool.ts:64-81 | a map filled by `set` in order holds exactly the keys that were set, each with the value of its last assignment |
| ConvexToPool.NamesOf | lib/convex-to-pool.ts:80 | the display names, position by position |
| ConvexToPool.IdentityList | lib/convex-to-pool.ts:73-79 | one identity per participant |
| ConvexToPool.EntryList | lib/convex-to-pool.ts:80 | one initial `players` entry per participant |
| ConvexToPool.IdentitiesLastWins | lib/convex-to-pool.ts:73-80 | an id is known exactly when some participant carries it, and maps to the identity of the last participant with that id |
| ConvexToPool.RosterLastWins | lib/convex-to-pool.ts:70-80 | a display name is in `players` exactly when some participant has it, with the identity of the last participant of that name and a count of 0 |
| ConvexToPool.IdentityNamesInRoster | lib/convex-to-pool.ts:98-101 | every known identity's name is a key of `players`, so the count update never misses |
| ConvexToPool.LastClaimIsLastRow | lib/convex-to-pool.ts:93-104 | a cell is held exactly when some row claims it for a known participant, and then by the identity of the last such row |
| ConvexToPool.ClaimsBy | lib/convex-to-pool.ts:97-102 | a name's count is at most the number of rows and is zero exactly when no row is claimed by a known participant of that name |
| ConvexToPool.AssignedAmong | lib/convex-to-pool.ts:107 | the claimed-row count is at most the number of rows, and equals it exactly when every row carries a participant |
| ConvexToPool.NumbersOrBlank | lib/convex-to-pool.ts:122-123 | undrawn numbers become ten nulls; drawn numbers are kept in order |
| ConvexToPool.TransformToPool | lib/convex-to-pool.ts:56-126 | the client pool has the slug and quota; its status follows the lock and the claimed count; each cell shows the last known claimant of its square; each name counts the rows of known participants with that name |
| ConvexToPool.IdentifyParticipants | lib/convex-to-pool.ts:62-81 | the two `forEach` passes build exactly the identity map and the initial `players` record |
| ConvexToPool.IdentifyStep | lib/convex-to-pool.ts:79-80 | one more participant sets its id and its display name |
| ConvexToPool.PlaceSquares | lib/convex-to-pool.ts:83-104 | from the empty grid, each cell ends with the last known claimant of its square and each name with its claimed-row count |
| ConvexToPool.SkipStep | lib/convex-to-pool.ts:97-99 | a row without a known participant changes no cell |
| ConvexToPool.CountStep | lib/convex-to-pool.ts:101 | counting row i adds one to its claimant's name |
| ConvexToPool.ClaimStep | lib/convex-to-pool.ts:94-100 | writing row i's identity into cell (index / 10, index % 10) extends the cell-by-cell picture by one row |
| ConvexToPool.ClaimedRowShows | lib/convex-to-pool.ts:97-100 | with distinct square indexes, a row claimed by a known participant shows that participant's identity on its cell |
| ConvexToPool.FullMeansEveryRowAssigned | lib/convex-to-pool.ts:106-115 | with at most 100 rows, a pool shows as full exactly when it is open and all 100 rows carry a participant |
| PoolStore.NoNumbers | lib/pool-store.ts:21-22 | ten null slots |
| PoolStore.EmptyGrid | lib/pool-store.ts:5-13 | a 10x10 grid whose cell [r][c] sits at row r, column c, unclaimed |
| PoolStore.FlattenGrid | lib/pool-store.ts:28 | `flat()` of ten-wide rows lists cell [r][c] at position 10r + c |
| PoolStore.CountClaimed | lib/pool-store.ts:28 | the claimed count is at most the cell count; it equals it iff every cell is claimed and is zero iff none is |
| PoolStore.CountNamed | lib/pool-store.ts:32-33 | a player's count is at most the claimed count and is zero iff no cell is claimed under that name |
| PoolStore.CreatePool | lib/pool-store.ts:15-25 | a new client pool is open, with an empty 10x10 grid, no claimed square, no numbers and no players |
| PoolStore.ClaimedCount | lib/pool-store.ts:27-29 | `getClaimedCount` never exceeds 100 on a 10x10 grid |
| PoolStore.PlayerSquareCount | lib/pool-store.ts:31-34 | a player's square count never exceeds the claimed count |
| PoolStore.FullIffAllClaimed | lib/pool-store.ts:36-38 | on a 10x10 grid the board is full exactly when every square is claimed |
| PoolStore.SumCountsCons | lib/pool-store.ts:31-34 | summed per-name counts split over the first cell and the rest |
| PoolStore.HitsDistinct | lib/pool-store.ts:32 | with distinct names a claimed cell is counted for exactly one listed name, or none if its claimant is not listed |
| PoolStore.CountsAddUp | lib/pool-store.ts:27-34 | over distinct names covering every claimant, the per-name counts add up to the claimed count |
| PoolStore.SumCountsEmpty | lib/pool-store.ts:32-33 | no cells, no counts |
| PoolStore.PlayerCountsAddUp | lib/pool-store.ts:27-34 | `getPlayerSquareCount` summed over distinct names covering every claimant equals `getClaimedCount` |
| PoolStore.PlayerColor | lib/pool-store.ts:57-63 | a colour exists exactly for listed players; an unlisted one gets undefined, since -1 % 10 is -1 |
| PoolStore.PlayerColorCycles | lib/pool-store.ts:44-63 | in a list without repeats the k-th player gets colour k mod 10 |
| PoolStore.GetInitials | lib/pool-store.ts:88-94 | at most two characters, none a lower-case letter |
| PoolStore.InitialsOfTrimmed | lib/pool-store.ts:89-93 | on a trimmed name: at most two characters, none lower-case |
| PoolStore.InitialsOfParts | lib/pool-store.ts:90-93 | given the split words: at most two characters, none lower-case |
| PoolStore.PartsPair | lib/pool-store.ts:90-91 | with two or more words, the initials are the upper-cased first letters of the first and last words |
| PoolStore.InitialsOfWords | lib/pool-store.ts:89-91 | a trimmed name containing white space splits into two or more words and gives the first letters of the first and last word |
| PoolStore.InitialsOfOneWord | lib/pool-store.ts:93 | a trimmed name without white space gives its first two characters upper-cased |
| PoolStore.GetInitialsCases | lib/pool-store.ts:88-94 | both cases of `getInitials` stated on the trimmed name: first and last word's first letters, or the first two characters |
| SquaresGrid.CellOf | components/squares-grid.tsx:62-65 | a cell exists exactly when both digits appear among the headers, and then it is the first position of each |
| SquaresGrid.LabelsAtCount | components/squares-grid.tsx:61-76 | a cell's label list is empty iff no winning entry lands on it, and each label comes from an entry landing there |
| SquaresGrid.WinningByKey | components/squares-grid.tsx:60-76 | a cell is in the map exactly when some winning entry lands on it; its badge joins those entries' labels with spaces in input order, and its colour is that of the first |
| SquaresGrid.WinnerStep | components/squares-grid.tsx:66-74 | a turn that appends the label to an existing cell (keeping its quarter) or adds the cell with this label keeps every cell equal to the joined labels of the entries seen so far |
| SquaresGrid.TwoQuartersOneCell | components/squares-grid.tsx:66-71 | Q1 and Q2 landing on one cell give the badge "Q1 Q2" |
| SquaresGrid.CurrentScoreKey | components/squares-grid.tsx:78-86 | no live score, no highlighted cell; otherwise the cell of the live score's digits, if both appear |
| SquaresGrid.NoNumbersNoHighlights | components/squares-grid.tsx:60-86 | while the headers show no numbers, no winning entry and no live score highlights any cell |
| SquaresGrid.CanClickCases | components/squares-grid.tsx:152-157 | a cell is clickable iff the grid is interactive and the cell is free, or release is allowed and the current (non-empty) player holds it |
| SquaresGrid.UnknownQuarterIsQ1 | components/squares-grid.tsx:161-163 | a label other than Q2..Q4 takes Q1's colours, except one naming a property that every object inherits (such as "toString"), which finds that property and gets no colours |
| SquaresGrid.QuarterColorsDiffer | components/squares-grid.tsx:22-46 | each of Q1..Q4 has colours, and the four ring colours all differ |
| SquaresGrid.AriaLabel | components/squares-grid.tsx:203-206 | a claimed cell reads "Square claimed by" its claimant's name; a free cell starts "Empty square at row " |
| SquaresGrid.EmptyCellLabel | components/squares-grid.tsx:206 | a fresh cell is announced with its 1-based row and column |
| SquaresGrid.ClaimedLabelDiffers | components/squares-grid.tsx:203-206 | a claimed cell's label never equals a free cell's |
| DemoData.DemoNamesDistinct | components/demo/demo-data.ts:5-16 | the roster has ten players, no two with the same name |
| DemoData.SwapPermutes | components/demo/demo-data.ts:25 | a swap keeps the elements |
| DemoData.ShuffleFromPermutes | components/demo/demo-data.ts:22-26 | the seeded swaps keep the length and the elements |
| DemoData.ShuffledPermutes | components/demo/demo-data.ts:19-28 | `seededShuffle` returns a permutation of its input |
| DemoData.SeededShuffle | components/demo/demo-data.ts:19-28 | the in-place swap loop, with seed s := s * 16807 mod 2147483647 and j := s mod (i + 1), returns `Shuffled`, a permutation of the input |
| DemoData.Repeat | components/demo/demo-data.ts:34 | `Array(n).fill(x)` has n elements |
| DemoData.RepeatCount | components/demo/demo-data.ts:34 | it holds x n times and nothing else |
| DemoData.TenOfEach | components/demo/demo-data.ts:34 | the deck has ten cards per player |
| DemoData.TenOfEachCounts | components/demo/demo-data.ts:34 | each player occurs ten times as often as in the roster |
| DemoData.DealCounts | components/demo/demo-data.ts:31-36 | shuffling ten copies of differently named players gives each of them exactly ten cards and nobody else any |
| DemoData.DemoAssignments | components/demo/demo-data.ts:33-36 | the demo deck has 100 cards |
| DemoData.DemoAssignmentCounts | components/demo/demo-data.ts:32-36 | every demo player occurs exactly ten times in the deck |
| DemoData.ClaimedRow | components/demo/demo-data.ts:39-43 | a dealt row has ten cells |
| DemoData.ClaimedGrid | components/demo/demo-data.ts:38-44 | the dealt grid is 10x10 |
| DemoData.SnocPrefix | components/demo/demo-data.ts:42 | the `idx++` counter moves through the deck one card at a time |
| DemoData.BuildClaimedGrid | components/demo/demo-data.ts:31-45 | the grid deals the seed-42 deck in row-major order |
| DemoData.DealRowMajor | components/demo/demo-data.ts:37-44 | the nested builders with the running counter give cell [r][c] card 10r + c |
| DemoData.CountNamedDistinct | components/demo/demo-data.ts:42 | over cells claimed one-to-one by a list of differently named players, a name counts as often as its player occurs |
| DemoData.ClaimedGridCounts | components/demo/demo-data.ts:31-45 | dealt from a deck with ten of each player, the grid is full and each player holds ten cells |
| DemoData.ClaimedGridFacts | components/demo/demo-data.ts:31-45 | the demo grid is full, every cell in place and held by a demo player, each player holding exactly ten |
| DemoData.PartialRow | components/demo/demo-data.ts:68-74 | a cut-down row has ten cells |
| DemoData.PartialGrid | components/demo/demo-data.ts:64-76 | the cut-down grid is 10x10 |
| DemoData.BuildPartialGrid | components/demo/demo-data.ts:64-76 | the partial grid is the demo grid cut down to its first `claimedCount` cells |
| DemoData.KeepFirst | components/demo/demo-data.ts:66-75 | the `remaining` countdown keeps exactly the first `claimedCount` claims in row-major order |
| DemoData.PrefixClaimedCount | components/demo/demo-data.ts:69-73 | cells claimed exactly below position m count min(max(m, 0), length) |
| DemoData.PartialGridCounts | components/demo/demo-data.ts:64-76 | cut from a full grid, cell [r][c] stays claimed iff 10r + c < claimedCount, so the claimed count is claimedCount clamped to 0..100 |
| DemoData.PartialGridFacts | components/demo/demo-data.ts:64-76 | the demo's partial grid keeps the first claims in row-major order and counts claimedCount clamped to 0..100 |
| DemoData.RecordStep | components/demo/demo-data.ts:57-59 | assigning the next player extends the record by that player with count 10 |
| DemoData.BuildPlayersRecord | components/demo/demo-data.ts:52-61 | the record holds every demo player under its own name with count 10 |
| DemoData.RecordCountsAgree | components/demo/demo-data.ts:90-98 | a record of ten per player agrees with a grid giving each player ten squares |
| DemoData.DemoPoolFullConsistent | components/demo/demo-data.ts:90-98 | the full demo pool's board is full and every `players` count equals the squares held under that name |
| DemoData.DemoPoolEmptyIsFresh | components/demo/demo-data.ts:101-109 | the empty demo pool is the pool `createPool("DEMO01", 10)` makes |
| DemoData.GetWinningSquare | components/demo/demo-data.ts:128-138 | for non-negative scores, row and column are each score's last digit |
| DemoData.DemoWinningSquares | components/demo/demo-data.ts:140-142 | one winning square per demo quarter |
| DemoData.DemoNumbersAreDigits | components/demo/demo-data.ts:48-49 | the demo headers are the digits 0..9, each once |
| DemoData.DemoWinningDigits | components/demo/demo-data.ts:119-142 | the demo quarters win on digits 7-3, 4-0, 1-7 and 8-4 |
| DemoData.DemoWinningCells | components/demo/demo-data.ts:140-142 | with the demo headers, the four quarters win on four different cells |
| DemoData.GetWinnerName | components/demo/demo-data.ts:171-185 | the claimant of the cell at the first header positions (`indexOf`) of the two last digits is returned when that cell is claimed, and the dash when no such claimed cell exists; any other name is the claimant of a cell showing both digits |
| DemoData.WinnerOfCell | components/demo/demo-data.ts:171-185 | with repeat-free 10-slot headers, the winner is the claimant of the one cell showing both last digits, or the dash when that cell is free |
| DemoData.WinnerByLastDigit | components/demo/demo-data.ts:176-177 | for non-negative scores the winner depends on each score only through its last digit |
| DemoData.NoNumbersNoWinner | components/demo/demo-data.ts:178-184 | while the headers are blank nobody wins |
| DemoData.DemoNoNumbersNoWinner | components/demo/demo-data.ts:111-116 | the demo pool without numbers has no winner for any score |
| DemoData.Q1Winner | components/demo/demo-data.ts:171-185 | the first quarter (7-3) is won by the demo player holding cell [1][8] |
| HomePage.ClaimCell | app/page.tsx:30-37 | the mapped grid keeps the shape of the old one |
| HomePage.AddOne | app/page.tsx:39-46 | the record gains the claimant's name: a new entry with count 1, or the old entry with count + 1; other entries are unchanged |
| HomePage.ClaimSquare | app/page.tsx:20-58 | an owned cell or a claimant at the quota leaves the pool unchanged; id, quota and numbers never change |
| HomePage.HandleClaimSquare | app/page.tsx:16-21 | no pool, nothing to update; otherwise the update is `ClaimSquare` |
| HomePage.CountNamedUpdate | app/page.tsx:25-27 | changing one cell changes a name's count by what left and what arrived |
| HomePage.CountClaimedUpdate | app/page.tsx:54 | changing one cell changes the claimed count by what left and what arrived |
| HomePage.ClaimCellFlat | app/page.tsx:30-37 | on a grid whose cells record their own positions, the map changes exactly cell [row][col] |
| HomePage.CreatedConsistent | lib/pool-store.ts:15-25 | a freshly created pool has a well-placed grid, lists every claimant and has counts matching the grid |
| HomePage.UnlistedHoldsNothing | app/page.tsx:40-42 | a name without an entry holds no squares |
| HomePage.ClaimEffect | app/page.tsx:30-46 | a claim that goes through changes only the target cell, which takes the identity, and creates or bumps the claimant's entry |
| HomePage.FlatAfterClaim | app/page.tsx:25-37 | after a claim that goes through, the flattened grid is the old one with position 10 row + col claimed |
| HomePage.ClaimCounts | app/page.tsx:25-58 | a claim that goes through adds one to the claimed count and to the claimant's count, which stays within the quota; nobody else's count moves |
| HomePage.ClaimStatus | app/page.tsx:54-56 | after a claim that goes through, the status is "full" iff it was already or every cell is now claimed; with a free cell left it is unchanged |
| HomePage.ClaimKeepsConsistent | app/page.tsx:20-58 | every claim keeps the grid well placed, every claimant listed and every entry's count equal to the squares held under its name |
| HomePage.Values | app/page.tsx:80-81 | the header slots read back as their digits |
| HomePage.AsHeader | app/page.tsx:80-81 | shuffled digits fill the header slots in order |
| HomePage.HandleAssignNumbers | app/page.tsx:64-85 | no pool, nothing; otherwise both headers become permutations of 0..9, the status becomes "locked" and nothing else changes |
| HomePage.AssignedHeadersCoverEveryScore | app/page.tsx:67-81 | once both headers hold the digits, every pair of last digits names a cell |
| PlayerBoard.HandleJoin | components/player-board.tsx:25-36 | a name blank once trimmed changes nothing; otherwise the player joins under the non-empty trimmed name with the selected graphic |
| PlayerBoard.JoinInitials | components/player-board.tsx:30 | the stored initials are those of the name as typed: trimming first does not change them |
| PlayerBoard.JoinIdempotent | components/player-board.tsx:25-36 | joining again with the same name and graphic changes nothing |
| PlayerBoard.ForwardClick | components/player-board.tsx:352-356 | a click reaches `onClaimSquare` exactly when the player has joined, has quota left and the board is not full, and then with the player's identity and the cell |
| PlayerBoard.OpenCount | components/player-board.tsx:379-381 | the "open" figure lies in 0..100 on a 10x10 grid |
| PlayerBoard.OpenCountZeroIffFull | components/player-board.tsx:379-381 | no square is open exactly when the board is full, that is when every cell is claimed |
| PlayerBoard.ForwardedClaimLands | components/player-board.tsx:352-356 | a forwarded click on an open cell is a claim the page accepts: the cell becomes the player's, the player stays within the quota and `remaining` drops by one |
| AdminBoard.ViewUrlShape | components/admin-board.tsx:40 | the view link keeps the share link's length; without "/play/" it is the share link unchanged, otherwise only the first "/play/" is rewritten, to "/view/" |
| AdminBoard.NumbersAssignedLifecycle | components/admin-board.tsx:50 | a newly created pool shows no numbers, and a pool whose headers are digits shows them as assigned |
| AdminBoard.AssignClickCases | components/admin-board.tsx:94-102 | the assign button re-asks exactly when numbers are set, asks about open squares exactly when none are set and the board is not full, and assigns at once exactly when none are set and every square is claimed |
| AdminBoard.ShowDistributeIff | components/admin-board.tsx:446 | the distribute button shows exactly when the board is not full and at least one player has joined |
| AdminBoard.StatusBadge | components/admin-board.tsx:606-618 | the badge reads one of "Numbers Set", "Open" or "Locked" |
| AdminBoard.StatusBadgeCases | components/admin-board.tsx:606-618 | "Numbers Set" exactly when numbers are assigned; otherwise "Open" exactly for an open pool and "Locked" for every other status |
| AdminBoard.DistributeAndAssign | components/admin-board.tsx:128-142 | numbers are assigned whatever the distribution answered: with no participant every square stays as it was; otherwise every square ends owned, earlier owners are kept and each participant gains its round-robin share of the free squares; owners are always listed participants, both headers become permutations of 0..9, and status, quota and participants are unchanged |
| GraphicIcon.InheritedKeysAreNotIcons | components/graphic-icon.tsx:85-157 | no key that a plain object inherits from `Object.prototype` is one of the map's icon names |
| GraphicIcon.IconName | components/graphic-icon.tsx:165 | the value is the "lucide:" prefix followed by the extracted name |
| GraphicIcon.GetLucideIconAsWritten | components/graphic-icon.tsx:163-167 | the lookup as written: it succeeds exactly for a "lucide:" value whose name is either an icon or an inherited key, and yields that name |
| GraphicIcon.InheritedKeyResolves | components/graphic-icon.tsx:166 | "lucide:toString" resolves under the as-written lookup although "toString" is not an icon |
| GraphicIcon.GetLucideIcon | components/graphic-icon.tsx:159-167 | the corrected lookup yields an icon exactly when the value is "lucide:" followed by a name of the map; anything without the prefix yields none |
| GraphicIcon.LookupsAgreeOffPrototype | components/graphic-icon.tsx:163-167 | the two lookups agree on every value except "lucide:" followed by an inherited key, where only the as-written one succeeds |
| GraphicIcon.Render | components/graphic-icon.tsx:176-194 | (corrected lookup, see ## Findings) the icon is rendered exactly for a known icon id; any other graphic is rendered as its own raw text |
| GraphicIcon.RenderCases | components/graphic-icon.tsx:176-194 | an emoji renders as itself; "lucide:" followed by a known name renders that icon, and followed by an unknown name renders the raw string |
| QrSignDialog.ReplaceAll | components/qr-sign-dialog.tsx:295-298 | a global one-character replacement whose replacement lacks the character leaves none of it behind |
| QrSignDialog.ReplaceAllAppend | components/qr-sign-dialog.tsx:295-298 | a global replacement works piece by piece over a concatenation |
| QrSignDialog.EscapeOne | components/qr-sign-dialog.tsx:293-299 | the four passes turn each of `&<>"` into its entity and leave any other character alone |
| QrSignDialog.EscapeHtmlIsEscapeEach | components/qr-sign-dialog.tsx:293-299 | running the four passes with `&` first equals escaping each character on its own, so no produced entity is escaped twice |
| QrSignDialog.EscapeHtmlIsSafe | components/qr-sign-dialog.tsx:293-299 | the escaped text holds no `<`, `>` or `"`, and every `&` in it begins `&amp;`, `&lt;`, `&gt;` or `&quot;` |
| QrSignDialog.EscapeHtmlIdentity | components/qr-sign-dialog.tsx:293-299 | text without `&<>"` is left unchanged |
| QrSignDialog.Sanitize | components/qr-sign-dialog.tsx:30 | the title keeps its length, with each character outside `[A-Za-z0-9]` replaced by `-` and every other character kept |
| QrSignDialog.DownloadNameShape | components/qr-sign-dialog.tsx:30 | the file name is the title, character by character, lowered or turned into `-`, and then "-qr-code.png"; before the suffix only `[a-z0-9-]` appears |
| QrSignDialog.DisplayUrl | components/qr-sign-dialog.tsx:47 | the shown link is a suffix of the share link |
| QrSignDialog.DisplayUrlCases | components/qr-sign-dialog.tsx:47 | the shown link drops the longest of "https://www.", "https://", "http://www." and "http://" that it starts with; without a scheme it is unchanged, and "www." alone is kept |
| PoolHistory.Decode | lib/pool-history.ts:24-33 | an element is accepted exactly when it is an object with string `slug` and `title`, `role` "admin" or "player" and a numeric `joinedAt`, and the entry carries those values |
| PoolHistory.DecodeEncode | lib/pool-history.ts:4-11 | every entry, stored and read again, is accepted and gives back itself |
| PoolHistory.ValidEntries | lib/pool-history.ts:23-33 | the kept elements are exactly those that pass the shape test, and there are no more of them than elements |
| PoolHistory.ValidEntriesEncoded | lib/pool-history.ts:23-33 | a stored list of entries passes the filter whole, in order |
| PoolHistory.GetPoolHistory | lib/pool-history.ts:16-38 | an empty slot or a non-array reads as []; otherwise the read history holds exactly the well-shaped elements, newest first |
| PoolHistory.ReadBack | lib/pool-history.ts:16-38 | a newest-first list written to the slot reads back unchanged |
| PoolHistory.Keep | lib/pool-history.ts:89-91 | the filter keeps exactly the entries that pass it, and no more entries than it was given |
| PoolHistory.KeepAppend | lib/pool-history.ts:89-91 | filtering keeps relative order: it distributes over concatenation |
| PoolHistory.KeepSorted | lib/pool-history.ts:89-91 | filtering a newest-first list leaves it newest first |
| PoolHistory.VerifiedHistory | lib/pool-history.ts:46-50 | the verified history is newest first and holds every player entry of the history, and an admin entry only when it has a truthy `verifiedAt` |
| PoolHistory.FirstKeyIndex | lib/pool-history.ts:62-64 | the index is the first position whose slug and role match, or the length when none does |
| PoolHistory.FindIndex | lib/pool-history.ts:62-64 | the scan stops at the first entry with that slug and role, and stops before the end exactly when such an entry exists |
| PoolHistory.UpsertContents | lib/pool-history.ts:65-69 | after the upsert the new entry is present, every other entry comes from the old list, and every entry with another slug or role stays (a different role of the same slug too); the list grows by one exactly when no entry had that key |
| PoolHistory.UpsertKeepsUnique | lib/pool-history.ts:65-69 | unique slug-and-role keys stay unique after the upsert |
| PoolHistory.CappedFacts | lib/pool-history.ts:70-72 | sorting and slicing leaves at most twenty entries, newest first, all from the list; a list that fits is kept whole, and any dropped entry is no newer than every kept one |
| PoolHistory.AddedFacts | lib/pool-history.ts:58-77 | the stored list is at most twenty entries of the upserted list, newest first; all of them while the list fits, and the dropped ones are the oldest |
| PoolHistory.AddedMembers | lib/pool-history.ts:58-77 | each stored entry is the new one or one read before |
| PoolHistory.AddedKeepsUnique | lib/pool-history.ts:58-77 | adding keeps slug-and-role keys unique |
| PoolHistory.AddedKeepsNewEntry | lib/pool-history.ts:58-77 | the new entry is stored unless twenty entries at least as new as it fill the list |
| PoolHistory.Removed | lib/pool-history.ts:89-91 | the stored list holds exactly the entries without that slug and role |
| PoolHistory.RemovedOrder | lib/pool-history.ts:82-96 | removal keeps a newest-first list newest first, and leaves unchanged a list without that key |
| PoolHistory.HistoryStorage.constructor | lib/pool-history.ts:19-20 | a fresh slot holds nothing |
| PoolHistory.HistoryStorage.AddPoolToHistory | lib/pool-history.ts:58-77 | the slot afterwards holds the stored form of the added list, and reading it back gives exactly that list |
| PoolHistory.HistoryStorage.RemovePoolFromHistory | lib/pool-history.ts:82-96 | the slot afterwards holds the stored form of the history without that slug and role, and reading it back gives exactly that list |
| ScoresPage.DefaultQuarters | app/admin/scores/page.tsx:15-22 | the form starts with the four rows Q1..Q4, each 0–0 and not complete |
| ScoresPage.TimeAgoJustNow | app/admin/scores/page.tsx:25-28 | anything under a minute old, or in the future, reads "just now" |
| ScoresPage.TimeAgoMinutes | app/admin/scores/page.tsx:25-30 | from one minute to under an hour the label is the whole number of minutes, 1 to 59, then "m ago" |
| ScoresPage.TimeAgoHours | app/admin/scores/page.tsx:25-32 | from one hour to under a day the label is the whole number of hours, 1 to 23, then "h ago" |
| ScoresPage.TimeAgoDays | app/admin/scores/page.tsx:25-34 | from one day on the label is the whole number of days, at least 1, then "d ago" |
| ScoresPage.RowError | app/admin/scores/page.tsx:42-53 | a row reports no error exactly when both of its scores lie in 0..99 |
| ScoresPage.RowErrorNames | app/admin/scores/page.tsx:43-51 | the message names the quarter, and "Row" when the row score is out of range; "Col" only when the row score is fine |
| ScoresPage.ValidateFrom | app/admin/scores/page.tsx:41-55 | the search from a row on finds nothing exactly when no later row has an error, and otherwise returns the first row's error |
| ScoresPage.ValidateScores | app/admin/scores/page.tsx:38-56 | the form is valid exactly when every score lies in 0..99; otherwise the error is that of the first bad row in the order Q1..Q4 |
| ScoresPage.AllQuarters | app/admin/scores/page.tsx:122-127 | the request lists the four rows in order, each with its label, both scores and its completion flag |
| ScoresPage.LastActiveBelow | app/admin/scores/page.tsx:131-139 | the result is the last quarter below the bound that has a non-zero score or is marked complete, and is none when no such quarter exists |
| ScoresPage.KeepQuarter | app/admin/scores/page.tsx:130-142 | the filter callback's downward scan keeps a position exactly when it is at or before the last active quarter, or is Q1 when none is active |
| ScoresPage.KeptCount | app/admin/scores/page.tsx:130-142 | the filter keeps exactly the first `n` positions |
| ScoresPage.TrimmedShape | app/admin/scores/page.tsx:129-142 | the sent list is a non-empty prefix Q1..Qj; every quarter it drops is 0–0 and not complete, and its last quarter is active unless only Q1 is sent and no quarter is active |
| ScoresPage.SubmittedExample | app/admin/scores/page.tsx:122-142 | a form with only Q2 scored sends Q1 and Q2 |
| ScoresPage.SubmittedName | app/admin/scores/page.tsx:149 | the sent name is the trimmed name, or "Global Game" when that is empty; it is never empty and never has surrounding white space |
| ScoresPage.FindLabel | app/admin/scores/page.tsx:104 | the match is a live quarter with that label, and there is none exactly when no live quarter has it |
| ScoresPage.QuartersChangedIff | app/admin/scores/page.tsx:103-114 | the loop finds a change exactly when some form row differs from its live quarter, or from 0–0 not complete when that quarter is missing |
| ScoresPage.HasChangesIff | app/admin/scores/page.tsx:98-116 | without a live game there are always changes; with one there are none exactly when the trimmed name, the completion flag and every row agree with it |
| ScoresPage.LastLabel | app/admin/scores/page.tsx:83-91 | the quarter found carries the label sought |
| ScoresPage.SyncedRows | app/admin/scores/page.tsx:82-92 | the synced form has one row for each of Q1..Q4 |
| ScoresPage.LabelIndex | app/admin/scores/page.tsx:84 | a label has a row exactly when it is one of Q1..Q4, and then the row is at that label's position |
| ScoresPage.SyncQuarters | app/admin/scores/page.tsx:82-92 | the loop leaves each of Q1..Q4 holding the last live quarter with its label, and the default row when there is none |
| ScoresPage.FirstIsLast | app/admin/scores/page.tsx:83-104 | when no label repeats, the first quarter with a label (the one the change check reads) is the last one (the one the sync keeps) |
| ScoresPage.FindLabelSnoc | app/admin/scores/page.tsx:104 | appending a quarter changes the first match only when there was none before |
| ScoresPage.SyncedFormUnchanged | app/admin/scores/page.tsx:75-116 | right after the first sync the form shows no changes, given that the game's name is trimmed and its labels are distinct |
| ScoresPage.HandleSubmitCases | app/admin/scores/page.tsx:168-186 | an invalid form shows its first error; a valid form asks for confirmation exactly when a live game exists and the form differs from it; otherwise it submits, always so when there is no live game |
| AdminPage.AllQuarters | app/admin/page.tsx:245-255 | Q1..Q3 are sent as on the scores page, with their checkbox; Q4 carries its scores and is complete exactly when one of them is non-zero |
| AdminPage.GameCompleteFollowsQ4 | app/admin/page.tsx:245-273 | the game is sent as complete exactly when all four quarters are sent and Q4 is marked complete, which happens exactly when Q4 has a non-zero score; a sent Q4 without a score is not complete |
| AdminPage.Q4CheckboxIgnored | app/admin/page.tsx:249-254 | the Q4 checkbox has no effect on what is sent |
| AdminPage.HasChangesIgnoresGameComplete | app/admin/page.tsx:222-239 | the change check answers as the scores page's would with the live game's own completion flag, so it finds no change exactly when the trimmed name and every row agree with the live game |
| AdminPage.HandleSubmitScoresCases | app/admin/page.tsx:299-312 | an invalid form shows its first error; a valid one asks for confirmation exactly when a live game exists and the name or a row differs from it; with no live game it submits |
| ScoresRoute.Prop | app/api/admin/scores/route.ts:29-35 | a property is defined exactly when the body is an object holding that key |
| ScoresRoute.AllShaped | app/api/admin/scores/route.ts:14-21 | every element passes exactly when each has a string `label` and numeric `rowTeamScore` and `colTeamScore` |
| ScoresRoute.ParseQuarters | app/api/admin/scores/route.ts:12-24 | the value is accepted, as the same array, exactly when it is an array whose every element is well shaped; anything else, a missing value included, gives null |
| ScoresRoute.CompleteNotChecked | app/api/admin/scores/route.ts:14-21 | a quarter whose `complete` is a string passes the test and is forwarded as sent |
| ScoresRoute.Validate | app/api/admin/scores/route.ts:28-48 | a null body fails with 500; a missing, non-string or blank secret gives 400 "secret is required"; a rejected or empty quarters value gives 400 "quarters array is required"; otherwise the mutation receives the trimmed secret and name, the quarters and the boolean `gameComplete` |
| ScoresRoute.ArgsFacts | app/api/admin/scores/route.ts:29-55 | the mutation receives a non-empty trimmed secret; the trimmed name, or "Global Game" only when `name` is not a string; a non-empty list of well-shaped quarters exactly as sent; and `gameComplete` only when it is a boolean |
| ScoresRoute.BlankNameKept | app/api/admin/scores/route.ts:31-32 | a blank string name reaches the mutation as the empty name, not as the default |
| ScoresRoute.PostStatus | app/api/admin/scores/route.ts:26-69 | a request the guards stop never depends on the mutation; one that passes gets 200 exactly when the mutation returns ok, 401 with its error (or "Unauthorized") when it returns not ok, and 500 with the message when it throws; every status is 200, 400, 401 or 500 |
| ScoresRoute.MutationRefusalIs401 | app/api/admin/scores/route.ts:57-62 | both of the mutation's refusals, a bad secret and a bad score, answer 401 and carry the mutation's error text |
| ScoresRoute.EncodeQuarters | app/admin/scores/page.tsx:144-152 | the request lists one encoded quarter per quarter sent, in order |
| ScoresRoute.EncodedShaped | app/admin/scores/page.tsx:122-127 | every quarter the pages send passes the route's element test |
| ScoresRoute.PageBodyProps | app/admin/scores/page.tsx:147-152 | the page's request body carries the passcode, the submitted name, the trimmed quarter list and the completion flag |
| ScoresRoute.PageRequestAccepted | app/api/admin/scores/route.ts:28-55 | once a passcode is typed, any form's request passes the route's guards, and the mutation gets the trimmed passcode, the page's name, the trimmed quarter list and the page's completion flag |

## Left out

- Convex, Next.js and React plumbing. Database indexes, `ctx.db` queries, `fetchMutation`, `NextResponse`, hooks and JSX rendering are not modelled. Tables are in-memory sequences held by classes, and the UI rules are functions of their inputs.
- Concurrency. Each Convex mutation is modelled as one atomic sequential method. Two actions in the core run several transactions: `fulfillSponsorship` and `fetchAndUpdateScores`. See the Sponsor.FulfillSponsorship and NflScores.FetchAndUpdateScores lines below. The cron schedule is not part of this model.
- Randomness. `Math.random` in the shuffles is an arbitrary index choice, so uniformity is not stated. The slug draws of `generateSlug` are a parameter. `generatePoolId` in `lib/pool-store.ts` is left out: it only draws a random id.
- The clock. `Date.now()` is a `now` parameter wherever it is read.
- The network. The scoreboard fetch, email, payments, captcha and token hashing are not modelled. The feed action receives the decoded scoreboard. The score route receives the mutation's outcome (a result or an exception) as a parameter.
- Text parsing. `request.json()`, `JSON.parse` and `JSON.stringify` are not modelled: the model works on parsed JSON values.
  - A request body that is not valid JSON also ends in a 500. That case is not part of this model.
  - The history slot holds the parsed value. A failing `setItem` (storage full), which the code silently ignores, is not modelled.
  - The `typeof window === "undefined"` guard of the history functions is not modelled.
- PoolHistory.Decode: extra fields of a stored entry are dropped, apart from `verifiedAt`. The code keeps the whole parsed object.
- Numbers:
  - Every number is an integer. NaN, infinities and fractions do not occur.
  - Scores from `parseInt` are taken as already parsed.
  - The `Number.isInteger` test of the form validation always passes, since the form stores `parseInt(value) || 0`.
- Pools.Clamp: the requested limit is an integer, so the `Math.round` of `updateMaxSquares` is not modelled and only the clamp to [1, 100] is.
- Strings:
  - Strings are sequences of characters. UTF-16 surrogate pairs are not modelled.
  - `toLowerCase`/`toUpperCase` are limited to ASCII letters.
  - The white-space set is that of `String.prototype.trim`.
- Sorting. `Array.prototype.sort` with a key comparator is the stable insertion sort of `Sorting`, which gives the same result as any stable sort.
- The client `players` record (keyed by display name) is modelled as a map. A display name that is also an inherited object key, such as "constructor" or "__proto__", is treated as an ordinary key. The prototype effects such a name has in JavaScript are not modelled.
- The Convex argument validators are not modelled. The modelled mutations take typed arguments.
- SquaresGrid.WinningByKey: the map key is the pair (row, column) rather than the string "row,col". The two are in one-to-one correspondence.
- DemoData.SeededShuffle: a negative seed is not modelled. With one, JavaScript's `%` would give a negative swap index. The demo only uses positive seeds.
- AdminLoginTokens.SecondValidationFails: stated for `now != 0`. The code tests `usedAt` for truthiness, so a token consumed at time 0 would not count as used.
- NflScores.FetchAndUpdateScores: the source is a Convex action. Its dedup query `getLatestGame` (convex/nflScores.ts:254) and its `setScoresFromScrape` mutation (convex/nflScores.ts:271) are separate transactions. It runs from the two-minute cron (convex/crons.ts:7-11) and from the POST handler of app/api/admin/fetch-scores/route.ts. The method models one run as a single step with no write in between. Two overlapping runs, or a `setScoresManual` between a run's query and its mutation, can each append a row that the dedup would have skipped; the ensures do not cover that.
- Sponsor.FulfillSponsorship: the source is a Convex action that runs three separate transactions: the key lookup, `recordPayment` and `addSponsorCapacity`. The method's ensures describe one delivery running alone. Sponsor.Interleave and Sponsor.RetryRaceGrantsTwice model two overlapping deliveries (see ## Findings). A failure between the last two transactions is not modelled: it would leave the payment recorded without the capacity, and every retry would then answer "Already processed".
- Participants.UpdateGraphic: `ctx.db.get` finds a participant in any pool. The model looks the id up in the pool it is given, so the two agree when that pool is the participant's own.
- ConvexToPool.TransformToPool: requires every square index to lie in 0..99. `createPool` inserts exactly the indexes 0..99 (convex/pools.ts:80-86), and nothing else inserts squares. For an index outside that range the code throws only when the square's `participantId` names a known participant, because it then reads `grid[row]` past the grid. An out-of-range square that is unclaimed, or whose participant is unknown, is skipped without error. If its `participantId` is set, it still counts in `claimedCount`. The model does not cover those inputs.
- ConvexToPool.PlaceSquares: the same 0..99 requirement as `TransformToPool`, which it serves.
- SquaresGrid.EmptyCellLabel: stated for rows and columns below 9, where the 1-based position is a single digit. `SquaresGrid.AriaLabel` itself covers every cell.
- DemoData.WinnerByLastDigit: stated for non-negative scores. For a negative score JavaScript's `%` gives a negative digit, which is never found among the header numbers.
- DemoData.GetWinningSquare: the row and column bounds are stated for non-negative scores only, for the same reason.
- HomePage.HandleClaimSquare: requires the row and column to lie inside the grid. Outside it, the code's `prev.squares[row][col]` throws.
- The presentation-only pages, the demo animation, the QR rendering and print window, and `lib/utils.ts` are not part of this model.

## Findings

| source | as written | input that shows it | evidently intended | confidence | as-written member | corrected member |
|---|---|---|---|---|---|---|
| components/graphic-icon.tsx:163-167 | `LUCIDE_MAP[name] ?? null` also finds properties that every object inherits from `Object.prototype` | the graphic "lucide:toString" resolves to `Object.prototype.toString`, which `GraphicIcon` then treats as an icon component | only the map's own icon names resolve, so any other "lucide:" value falls back to the raw string | not executed | GraphicIcon.GetLucideIconAsWritten (shown by GraphicIcon.InheritedKeyResolves) | GraphicIcon.GetLucideIcon (with GraphicIcon.LookupsAgreeOffPrototype and GraphicIcon.RenderCases) |
| convex/sponsor.ts:80-97 | the idempotency lookup, `recordPayment` and `addSponsorCapacity` run as three separate transactions of an action | two deliveries of one new key (a webhook retry while the first delivery is still running) whose lookups both run before either records: both are granted, the payment is recorded twice and the bonus grows by twice the amount | each key's amount is granted once: the lookup, the record and the capacity grant run as one transaction, so a repeated delivery is "Already processed" and changes nothing | not executed | Sponsor.Interleave (shown by Sponsor.RetryRaceGrantsTwice) | Sponsor.FulfilAtomic (with Sponsor.RedeliveryGrantsNothing and Sponsor.FulfillSponsorship) |
