# Telga: a verified model of the money rules

Telga lets shops sell airtime against a prepaid balance. This project models the rules that decide where
money is and proves what they promise, for every input and every run.

- `Ledger`, `Operations`, `Effects`, `Particulars`, `Books`, `Runs`, `Trail`: the double-entry tables, the ten ledger
  operations (and the waiver of a fee), what each posts, exactly when it commits, what its lines say and what a
  refused caller is told, and what every run of them keeps. `Driver` is the same thing as objects change it: tables
  updated in place, statement by statement, inside a transaction that a throw rolls back.
- `States`, `Sales`, `Outcomes`, `Journeys`: the sale state machine, the services that move a sale's state and its
  money together (creating, submitting, resolving, recovering, reversing), including a service that acts on a stale
  reading, what each answer and each lookup comes to in state and money, and the states the table holds over a run.
- `Commission`, `Transfers`, `Sending`, `Remittances`: the two-stage rounded commission; the transfer decision and its
  fee, down to the posting they lead to; requests over days, under the daily limit, with their approval queue; and the
  one-to-one match of settled transfers and postings.
- `Fingerprints`, `Idempotency`: the 32-bit FNV-1a fingerprint and the first-writer-wins store.
- `DepositReference`: Luhn modulo 32 over the reference alphabet, in the form of ISO/IEC 7812-1 Annex B carried to 32
  symbols.
- `Funding`, `Records`, `Console`: the decision on a deposit, its recording, the second approval, gateway payments and
  the printed slips they answer; what a recorded row holds and who may approve it; and the console's routes, for
  deposits and queued transfers, as steps on rows that are kept or rolled back together.
- `Polling`, `RateLimit`, `Throttle`: the polling controller under every interleaving, the fixed-window limiter and
  the attempt log, each with its pruning.
- `Outage`, `ProductId`: outage duration and the product-id parser.

A state of the tables is a `Store` value; a call is an `Op`; `Next` is the state after a call, which is the old state
when the call throws. A class method is proved equal to the function that specifies it, and the lemmas are about
that function.

## What the code turns out to do

Where a promise is not kept on all inputs, the model keeps the code as it is and the lemma named says exactly when
the promise holds.

- Saving a reservation is an upsert on its id, so a replay under the default id with a new posting id reserves again
  against one row (`Runs.ReplayedReservationBreaksTheBooks`); `Books.ReconcilesExactly` and
  `Books.ResolvedOnceExactly` give the exact conditions. The sale service draws a new reservation id each time.
- A profit equal to the sale leaves a zero provider line, which the entries table refuses, so such a sale cannot be
  finalised (`Effects.CommitsExactly`, `Commission.ShareSettlesExactly`, `Commission.OneUnitSaleIsRefused`).
- A queued transfer is posted without reading the balance again (`Sending.ApprovalOverdrawsExactly`,
  `Sending.QueuedTransferCanOverdraw`).
- A sale sent from PENDING straight to REVERSAL_REQUIRED keeps its value in the reserved bucket, while the table of
  value dispositions names the review bucket (`Sales.StraightToReversal`, `Sales.DispositionExactly`). No service
  takes the legal move from UNDER_REVIEW to SUCCESSFUL (`Sales.ReviewNeverSettles`).
- The service that submits a sale waits for the provider with the sale in memory, and the transactions row is then
  written whatever it holds. Heard late, a provider's silence writes PENDING over a sale that recovery has finished,
  whose money is already settled or given back (`Journeys.LateSilenceReopens`, `Journeys.RecoveryThenSilence`);
  `Sales.FinishedStays` and `Sales.StepExactly` give the exact conditions. Other late answers leave the money in step
  and still move the stored state against the table of legal moves (`Journeys.LateSilenceGoesBack`,
  `Journeys.LateDeliverySettles`); `Journeys.MovesInTurnExactly` gives the exact condition.
- The console's reversal writes REVERSED over SUCCESSFUL: a correction, which the table deliberately does not list as
  a move. Over runs it is the one step allowed beside legal paths (`Journeys.Proceeds`).
- A settled ARREARS charge keeps the amount it was first recorded with (`Runs.PaidAmountsExactly`,
  `Runs.ArrearsSettledForLess`).
- The in-memory ledger and the entries table differ on empty postings and on lines that are not positive
  (`Ledger.TwoLedgersAgree`, `Ledger.TwoLedgersDiffer`).
- Two deposits of one bank reference can both wait for a second approval; a unique index, not the check in the code,
  refuses to credit the second (`Funding.SecondOfTwoMatchesIsRefused`). The second approval posts before its UPDATE
  and does not look at how many rows that changed, so a reading gone stale posts a credit no row accounts for
  (`Funding.StaleApprovalExactly`, `Funding.OneDepositCreditedTwice`); within one console process nothing runs between
  the reading and the posting. The transfer queue and the gateway claim their row first and have no such case
  (`Sending.PostedAtMostOnce`, `Funding.GatewayKeeps`).
- The second approval looks for the slip to close under the bank's reference, where recording looks under the quoted
  one, so a slip paid above the cap stays open (`Funding.ApprovalClosesSlipExactly`, `Funding.ApprovedSlipStaysOpen`).
- A gateway credit leaves its row's posting id empty; the posting is found from the order's reference
  (`Funding.PostingOf`).
- A deposit whose bank figure rounds to nothing cannot be stored, whatever was decided about it, a review included
  (`Funding.RecordedExactly`, `Funding.AmountRejectionIsNeverStored`, `Funding.LostReview`). A credit is written at
  once although the table of funding states has no direct move to it (`Funding.DecisionsFollowTheTable`).
- A transfer refused because its recipient is unknown, or is the sender, cannot be recorded: its row names the sender
  twice, which a CHECK refuses (`Sending.RefusalIsRecordedExactly`, `Sending.UnknownRecipientThrows`).
- Intent fields are joined with a bar and nothing is escaped: ids with a bar in them can share a key
  (`Idempotency.BarsMakeKeysMeet`). Without one, the key's source and the payload say who asked for what
  (`Idempotency.KeySourceExactly`, `Idempotency.PayloadExactly`).
- The limiter admits at most 2 * limit - 1 requests in any stretch of one window, and that many are reached
  (`RateLimit.AdmitsAtMost`, `RateLimit.BoundIsReached`).
- Restarting a polling controller while a fetch is in flight can exceed its limit (`Polling.RestartInFlightOverruns`).
- The comment on drawing deposit references says a byte modulo 32 would favour some symbols; 32 divides 256, so it
  would not, and the rejection it explains never happens (`DepositReference.NewDepositReference`).

## Model

| member | source | states |
|---|---|---|
| Ledger.AppendExactly | packages/persistence/src/repositories/ledger.ts:68-125 | The entries table takes a non-empty posting exactly when it balances, every amount passes the CHECK and its id was never written; it then holds the old rows followed by the new lines, in order |
| Ledger.AppendKeepsWellPosted | packages/persistence/src/migrations/001_initial_schema.ts:91-109 | An accepted posting keeps every amount positive, every row key distinct and every posting whole from its first line |
| Ledger.KeyTakenMeaning | packages/persistence/src/repositories/ledger.ts:102-104 | The derived row key identifies one line of one posting: keys of different postings never meet |
| Ledger.TwoLedgersAgree | packages/domain/src/ledger.ts:160-189 | The table and the domain's in-memory ledger give one answer on a posting exactly when it is not empty and every amount is positive or both refuse it anyway; where both accept they come to the same entries |
| Ledger.TwoLedgersDiffer | packages/persistence/src/repositories/ledger.ts:68-70 | The two ways they differ, at their smallest: the table takes an empty posting, and the domain takes a line of nothing |
| Ledger.AppendRefusals | packages/persistence/src/repositories/ledger.ts:68-125 | The table refuses what does not balance before anything else, then the first row's amount or key, then any later amount, each exactly |
| Ledger.PostRefusals | packages/domain/src/ledger.ts:160-189 | The domain's ledger refuses an empty or unbalanced posting before one whose id was written, each exactly, and otherwise appends it whole |
| Ledger.AppendOnlyLedger.PostEntries | packages/domain/src/ledger.ts:160-189 | A refused posting writes nothing; an accepted one is appended whole and returned |
| Ledger.TotalSplits | packages/domain/src/ledger.ts:213-222 | Any total or count over entries is the sum of those over the parts it is split into |
| Decimals.SuffixedInjective | packages/domain/src/ledger.ts:177-184 | A posting id and a line index can be read back from the entry id they form |
| Effects.CommitsExactly | packages/persistence/src/operations.ts:151-757 | Every operation commits exactly when a guard its caller could check beforehand holds: amounts, balance, the row's status, unused ids |
| Effects.CommitAppends | packages/persistence/src/operations.ts:151-757 | A committed operation adds exactly its own balanced, positive lines after the old entries |
| Effects.PostingEffect | packages/persistence/src/operations.ts:151-757 | Every account, of every shop and of the platform, moves by the operation's row of one table of effects, and a refused call moves none |
| Effects.MovesExactly | packages/persistence/src/operations.ts:432-451 | The compare-and-set gets through exactly when the sale's row has the status it starts from |
| Effects.ValidIsKept | packages/persistence/src/migrations/001_initial_schema.ts:91-135 | Every call keeps the tables' own constraints: keys, unique indexes and CHECKs |
| Books.TwoCalculations | packages/domain/src/balance.ts:85-123 | The ledger's four views and the domain's (total less live reservations) always agree on the total, and agree on all four exactly when the held buckets match the reservations |
| Books.ReconcilesExactly | packages/persistence/src/operations.ts:394-644 | From reconciled books, a call leaves reconciled books exactly when it is refused, or names the amount its row holds and reserves under a new id (or re-holds a resolved row of the same shop and amount) |
| Books.OverdraftExactly | packages/persistence/src/operations.ts:328-430 | From no overdraft, a call overdraws a shop exactly when it commits a transfer its sender cannot cover; all other operations check or credit the balance themselves |
| Books.ProfitExactly | packages/persistence/src/repositories/ledger.ts:264-292 | A shop's profit goes below zero exactly when a transfer to balance exceeds it, and no software fee ever changes it |
| Books.ResolvedOnceExactly | packages/persistence/src/operations.ts:432-644 | Each sale's postings in and out of the two held buckets are the ones its one row accounts for; a call breaks that exactly when it commits a reservation under an id some row already has |
| Books.RowAfterCall | packages/persistence/src/repositories/reservations.ts:14-119 | Each sale's reservation row after any committed call, one under an id some row already has included: that row is held again |
| Runs.EveryRunIsSound | packages/domain/src/ledger.ts:219-222 | Over every run of calls, refused and repeated ones among them: the whole ledger sums to zero, earlier entries are a prefix of later ones, paid charges never change and a shop's period is charged at most once |
| Runs.RunReconciles | packages/domain/src/ledger.ts:58-64 | Over every run whose committed calls name their rows' amounts, both balance calculations agree on all four views for every shop |
| Runs.RunResolvesOnce | packages/persistence/src/operations.ts:432-644 | However resolutions are repeated and ordered, a sale leaves the reserved bucket and enters and leaves the review bucket at most once |
| Runs.RunNeverOverdraws | packages/persistence/src/operations.ts:328-430 | No shop is ever overdrawn while each committed transfer is covered in the state it posts in |
| Runs.RunKeepsProfit | packages/persistence/src/operations.ts:140-188 | No shop's profit is ever overdrawn while each committed transfer to balance is bounded by it, as its caller must see to |
| Runs.ReplayedReservationBreaksTheBooks | packages/persistence/src/repositories/reservations.ts:14-48 | A reservation replayed under its default id is not refused: the save is an upsert, so value moves twice against one row. Shown for every shop, sale and amount |
| Runs.FeesStayTallied | packages/persistence/src/operations.ts:683-757 | A period has one fee posting when its charge is paid and none otherwise, ARREARS included |
| Runs.PaidEffect | packages/persistence/src/repositories/softwareFee.ts:100-146 | A period becomes paid only by a call that takes the fee, and a paid one is never taken again |
| Runs.PaidAmountsExactly | packages/persistence/src/repositories/softwareFee.ts:100-127 | Paid charges go on recording what was taken exactly while arrears are collected at the amount first recorded: settling an ARREARS row keeps its old amount |
| Runs.ArrearsSettledForLess | packages/persistence/src/repositories/softwareFee.ts:100-127 | Such a run from nothing, for every shop and period: arrears, a smaller funding, a smaller fee collected, and a paid row that says the first amount |
| Trail.EveryRunIsAudited | packages/persistence/src/operations.ts:105-124 | Over every run, the operations' audit events and the ledger tell the same number of each movement of every sale's held value |
| Trail.EveryRunEarns | packages/persistence/src/repositories/ledger.ts:252-292 | Over every run, a shop's earnings grow by the profit of its own finalised sales and by nothing else, and what is left to take is what was earned less what was taken |
| Trail.DayEarns | packages/persistence/src/repositories/ledger.ts:205-250 | A shop's profit for a calendar day, over every run of calls on any days, is exactly the profit of its own sales finalised that day: moving profit into the balance never lowers it |
| Trail.EveryPaidChargeIsPosted | packages/persistence/src/operations.ts:727-755 | Over every run, each paid charge names a posting in the ledger that took that shop's fee for that period |
| Trail.StrangersKeepTheirMoney | packages/persistence/src/operations.ts:151-757 | No call touches any bucket or the profit of a shop it does not name |
| Trail.StrangersAreUntouched | packages/domain/src/balance.ts:95-123 | The second calculation of an unnamed shop's balance moves exactly when the call reserves under the id of a resolved row of that shop |
| Trail.RepeatChangesNothing | packages/persistence/src/operations.ts:140-146 | A call that posted, made again with the same posting id after any other calls, changes nothing at all |
| Particulars.EveryLineSaysWhy | packages/persistence/src/operations.ts:151-757 | Every line a committed call posts carries its posting id, its place, its sale, the reason of its operation and the rule it was posted under |
| Particulars.RateIsReadable | packages/persistence/src/operations.ts:568-585 | The share a sale was settled at can be read back from the tag on its line |
| Particulars.ClampIsNearest | packages/persistence/src/operations.ts:512-530 | The profit split off a sale is the figure from nothing to the whole amount nearest to the claimed one |
| Particulars.ChargeRowAfter | packages/persistence/src/repositories/softwareFee.ts:100-146 | The month's row after a fee call: a first charge whole, paid or in arrears; arrears paid later keep their figure |
| Particulars.WaivedExactly | packages/persistence/src/repositories/softwareFee.ts:208-226 | A reason with something in it waives exactly the shop's arrears of that month, and nothing else changes |
| Particulars.ReserveRefusals | packages/persistence/src/operations.ts:394-430 | A reservation is refused for want of money before its amount, its row or its audit id |
| Particulars.ResolutionRefusals | packages/persistence/src/operations.ts:432-644 | A resolution names a missing reservation, then one already resolved, and only then what the ledger refuses |
| Particulars.FeeOutcomes | packages/persistence/src/operations.ts:683-757 | Charged, in arrears or already charged, each exactly when the charge and the balance say so |
| Driver.SqliteLedgerDriver.AppendEntries | packages/persistence/src/repositories/ledger.ts:68-125 | The row-by-row loop comes to the specified entries, or throws the specified error |
| Driver.SqliteLedgerDriver.SaveReservationRow | packages/persistence/src/repositories/reservations.ts:14-48 | Inserts a row, or on a known id writes only its status; refuses a second row for a sale |
| Driver.SqliteLedgerDriver.TransitionReservation | packages/persistence/src/repositories/reservations.ts:86-119 | Compare-and-set: true exactly when the row had the expected status, and then only that row changes |
| Driver.SqliteLedgerDriver.InsertPaidCharge | packages/persistence/src/repositories/softwareFee.ts:100-127 | Inserts a PAID row or settles an ARREARS one; a row already closed stays |
| Driver.SqliteLedgerDriver.InsertArrearsCharge | packages/persistence/src/repositories/softwareFee.ts:130-146 | Inserts an ARREARS row unless the period has one |
| Driver.SqliteLedgerDriver.ReserveWork | packages/persistence/src/operations.ts:394-430 | Balance check, row, postings, audit, in that order, to the specified tables or error |
| Driver.SqliteLedgerDriver.ResolveWork | packages/persistence/src/operations.ts:459-644 | Find, compare-and-set, post, audit, in that order, to the specified tables or error |
| Driver.SqliteLedgerDriver.FinalizeWork | packages/persistence/src/operations.ts:512-590 | The same with the profit clamped into the sale's amount |
| Driver.SqliteLedgerDriver.ChargeSoftwareFeeWork | packages/persistence/src/operations.ts:683-757 | Nothing, an ARREARS row, or a posting and a PAID row, as the charge and the balance decide |
| Driver.SqliteLedgerDriver.Work | packages/persistence/src/operations.ts:151-757 | Each operation's statements in place come to the tables its specification names |
| Driver.SqliteLedgerDriver.Transaction | packages/persistence/src/sqlite/driver.ts:180-202 | All of a unit of work is kept or, after a throw anywhere inside it, the tables are exactly as they were |
| Driver.SqliteLedgerDriver.ChargeSoftwareFeeNow | packages/persistence/src/operations.ts:683-757 | CHARGED takes exactly the fee from the available balance, ARREARS posts nothing and reports the shortfall, ALREADY_CHARGED and a throw change nothing |
| Commission.SplitConserves | packages/domain/src/commissionSplit.ts:99-130 | Shop and platform shares add up to the commission, and neither leaves 0..amount |
| Commission.RatesAreChecked | packages/domain/src/commissionSplit.ts:99-115 | A rate outside 0 to 10000 is refused, the provider's named before the shop's; every other sale is split |
| Commission.SplitMonotone | packages/domain/src/commissionSplit.ts:99-130 | A larger sale never earns either party less |
| Commission.SplitNearExact | packages/domain/src/commissionSplit.ts:99-130 | Both roundings together move each share by at most one minor unit from its exact figure |
| Commission.SalesNearExact | packages/domain/src/commissionSplit.ts:99-130 | Over n sales the shop's total is within n minor units of its exact share |
| Commission.ShareSettlesExactly | services/api/src/application/createSale.ts:362-387 | Finalising with the shop's share never meets the clamp, and settles exactly unless the share rounds to the whole sale, which leaves a zero provider line the table refuses |
| Commission.OneUnitSaleIsRefused | services/api/src/application/createSale.ts:362-387 | That run exists for every shop and sale: fund one unit, sell it, and finalise at 50% and 70% |
| Commission.DefaultShareAlmostAlwaysSettles | packages/domain/src/commissionSplit.ts:60-63 | At the configured 70% share only a one-unit sale can be refused that way |
| Transfers.FeeIsLeast | packages/domain/src/transfer.ts:110-111 | The fee is the least whole amount not below its rate |
| Transfers.AcceptedExactly | packages/domain/src/transfer.ts:129-173 | A request is accepted exactly when none of eight faults is there, whatever the order they are looked for in, and waits exactly above the approval threshold; the recipient is owed the whole amount and the sender pays the fee on top |
| Transfers.RefusalExactly | packages/domain/src/transfer.ts:113-173 | A refusal names the first thing wrong in the documented order: identity, status, shape, limits, money |
| Transfers.PostedAtOnce | packages/persistence/src/operations.ts:328-385 | Posted at once from a decision on the current balance, a transfer commits, moves amount and fee to the right accounts and overdraws nobody |
| Sending.DailyLimitHolds | services/api/src/application/shopTransfer.ts:86-199 | Over every run of requests, approvals, refusals and other ledger work, in any order of days, what a shop has settled and queued on one day never exceeds the daily limit |
| Sending.SinceCoversDay | packages/persistence/src/repositories/extensions.ts:326-339 | The sum the limit is judged on covers the whole day, and rows of later days besides |
| Sending.SendKeepsCover | services/api/src/application/shopTransfer.ts:86-199 | A request under new ids that has nothing wrong with it leaves one row that is not refused, any other a refused one or none, and either way nobody is overdrawn; what each moves is in Remittances |
| Sending.SendingNeverOverdraws | services/api/src/application/shopTransfer.ts:86-199 | Over every run of requests, with approvals and other transfers covered when they post, nobody is ever overdrawn |
| Sending.ActOverdrawsExactly | apps/operations-console/src/server.ts:2796-2820 | One act overdraws somebody exactly when it commits an approval or another transfer its sender cannot cover: a request's own decision always covers it |
| Sending.PostedAtMostOnce | apps/operations-console/src/server.ts:2766-2820 | However many approvers press, in whatever order with whatever other calls, a queued transfer is posted exactly once if its row ends settled from waiting and otherwise never |
| Sending.ApprovalOverdrawsExactly | apps/operations-console/src/server.ts:2796-2818 | Approval reads no balance: it overdraws the sender exactly when the balance has since fallen below amount and fee |
| Sending.QueuedTransferCanOverdraw | apps/operations-console/src/server.ts:2796-2818 | Such a run exists for every shop and amount: fund, queue, sell, approve |
| Sending.RefusalIsRecordedExactly | packages/persistence/src/migrations/019_reversal_complaints_transfers.ts:141-144 | A refused request is recorded exactly when it names a recipient that exists and is not the sender: otherwise the row names the sender twice, the CHECK throws, and the caller gets that error instead of the refusal |
| Sending.UnknownRecipientThrows | services/api/src/application/shopTransfer.ts:113-137 | So an unknown recipient throws, from nothing, under any policy, for every shop and amount |
| Remittances.SmallTransferSettles | services/api/src/application/shopTransfer.ts:178-202 | Up to the approval threshold: one SETTLED row naming the posting, the sender down by amount and fee, the recipient up by the amount, platform revenue up by the fee, every other shop as it was |
| Remittances.LargeTransferWaits | services/api/src/application/shopTransfer.ts:146-174 | Above it: one NEEDS_APPROVAL row naming no posting, and the same ledger |
| Remittances.OtherRequestsAreRefused | services/api/src/application/shopTransfer.ts:113-144 | Any other request leaves the same ledger and, where the table takes it, a REFUSED row of no fee |
| Remittances.SinceSplitsByDay | packages/persistence/src/repositories/extensions.ts:326-339 | The figure the daily limit is judged on is that of the day and of what follows it, settled and waiting rows alike, fees left out |
| Remittances.ApprovalSettles | apps/operations-console/src/server.ts:2796-2820 | Approving a waiting transfer under a new posting id moves exactly its money and names that posting in its row |
| Remittances.EveryTransferHasItsPosting | packages/persistence/src/repositories/extensions.ts:388-404 | Over every run of requests, approvals, refusals and other calls, each settled row names a posting of its own which the ledger holds line by line, every other row names none, and as many rows were settled as requests and approvals posted |
| Remittances.EveryTransferIsAccounted | packages/persistence/src/operations.ts:328-385 | Over every run, every account of every shop and of the platform has moved by exactly the rows newly settled and by what other calls posted |
| States.TerminalExactly | packages/domain/src/states.ts:34-83 | The named terminal states are exactly the states with no way out |
| States.TableExactly | packages/domain/src/states.ts:52-83 | The table read from the other end: where each state can be come to from |
| States.RefusalNamesTheMove | packages/domain/src/states.ts:131-140 | A refused move is named as out of a terminal state exactly when there is no way out of it, and as illegal otherwise |
| States.DispositionByRank | packages/domain/src/states.ts:95-110 | A sale's value is nowhere, then reserved, then in review as it advances, and only success takes it for good |
| States.MovesClimbAndFlow | packages/domain/src/states.ts:52-110 | Every legal move climbs one rank order and takes value only forward: held, under review, then one final place for good |
| States.WalkKeepsChain | packages/domain/src/transaction.ts:101-122 | Whatever moves are asked of a sale in memory, history is a linked chain of legal moves, extended and never rewritten, and a finished sale stays |
| States.HistoryIsBounded | packages/domain/src/transaction.ts:61-122 | A sale held in memory from its creation makes at most eight moves |
| States.EightMovesHappen | packages/domain/src/states.ts:52-83 | A legal path is taken whole, and one has eight moves |
| States.ReachesExactly | packages/domain/src/states.ts:52-83 | Which states a legal path of any length can lead to from which, both ways, as a test on the two states |
| Sales.StepExactly | services/api/src/application/createSale.ts:217-489 | One unit of work of any service keeps states, reservations and ledger in step, except exactly a state written without a ledger operation after another writer moved the sale's money |
| Sales.CurrentReadingHolds | services/api/src/application/resolvePending.ts:136-149 | A service whose reading of the sale is still current always keeps them in step |
| Sales.OrderlyRunIsConsistent | services/api/src/application/recovery/recoverInFlight.ts:303-560 | Over every run of sales, answers, lookups, recoveries, reversals and other ledger work whose bare states still fit their reservations, the three tables tell one story about every sale (whether the states also follow the table is Journeys.RunProceeds) |
| Sales.DispositionExactly | packages/domain/src/states.ts:95-110 | The ledger has a sale's amount in exactly the bucket its state names, except exactly a sale awaiting reversal whose reservation was never moved to review; a settled sale that is reversed gets exactly its amount back |
| Sales.StraightToReversal | services/api/src/application/reversal.ts:78-90 | A pending sale sent to reversal keeps its amount in the reserved bucket although its state names the review bucket |
| Sales.ReversalCompletes | services/api/src/application/reversal.ts:186-217 | Completing a reversal finds the amount in whichever bucket it is and gives it back |
| Sales.ReviewNeverSettles | packages/domain/src/states.ts:60-60 | Though the table has the move, no service ever takes a sale from review to success |
| Sales.FinishedStays | packages/domain/src/states.ts:34-52 | A finished sale and its money stay as they are under any unit of work but the authorised reversal of a settled sale, except exactly a bare state a stale service writes about this very sale |
| Sales.FinishedForEver | packages/domain/src/states.ts:34-52 | And over every orderly run |
| Journeys.MovesInTurnExactly | packages/persistence/src/repositories/transactions.ts:12-55 | A unit of work moves the stored state along a legal path, or not at all, exactly when its operation's guard refuses it or it writes a state the stored one can still become: the row is written whatever it holds |
| Journeys.CurrentReadingIsInTurn | services/api/src/application/resolvePending.ts:136-149 | A service whose reading is current, and a sale not seen before, always follow the table |
| Journeys.RunProceeds | packages/domain/src/states.ts:34-83 | Over every run in turn a sale's stored state only moves forward, by legal paths or the one correction, never returns to a state it left, and is rewritten at most seven times after its reservation |
| Journeys.LateSilenceReopens | services/api/src/application/createSale.ts:459-462 | A provider's silence heard late writes PENDING over any finished sale, and the tables no longer tell one story |
| Journeys.RecoveryThenSilence | services/api/src/application/createSale.ts:324-336 | That run exists for every shop, sale and amount: sell, submit, recovery finds a failure and gives the money back, the submitting service gives up waiting |
| Journeys.LateSilenceGoesBack | services/api/src/application/createSale.ts:459-462 | Over a sale sent straight to reversal the late silence writes PENDING back, with the money still accounted for, against the table |
| Journeys.LateDeliverySettles | services/api/src/application/createSale.ts:342-387 | And a late delivery settles it, against the table |
| Sales.PlansAreLegal | services/api/src/application/recovery/recoverInFlight.ts:312-380 | Every service's list of states is a legal path, and a ledger operation in it leaves the row in the status its last state goes with; which answer leads where is in Outcomes |
| Sales.NetsFollowRow | packages/persistence/src/operations.ts:394-644 | Each sale's own bucket totals follow its reservation row through every operation |
| Outcomes.NewSaleIsReserved | services/api/src/application/createSale.ts:217-268 | A new sale the shop can pay for is written RESERVED and its amount leaves the available balance for the reserved bucket |
| Outcomes.UnaffordableSaleLeavesNothing | services/api/src/application/createSale.ts:270-281 | One it cannot pay for, or of nothing, leaves no row, no reservation and no entry |
| Outcomes.SubmittedWaits | services/api/src/application/createSale.ts:283-288 | Submitting moves the sale to PROCESSING and no money |
| Outcomes.DeliveredIsSold | services/api/src/application/createSale.ts:342-387 | Delivered: SUCCESSFUL, the amount gone from the shop for good, the shop's earnings up by the clamped profit and the provider owed the rest |
| Outcomes.NotDeliveredIsGivenBack | services/api/src/application/createSale.ts:429-441 | Not delivered: FAILED, the amount released and available again, nobody earning anything |
| Outcomes.NoAnswerWaits | services/api/src/application/createSale.ts:459-462 | No answer: PENDING, and no money moved |
| Outcomes.NothingElseHappens | services/api/src/application/createSale.ts:342-441 | An answer about a sale whose amount is no longer reserved, or a profit of the whole amount or more, changes nothing |
| Outcomes.PendingIsResolved | services/api/src/application/resolvePending.ts:136-276 | A pending sale is sold on a confirmed success, given back on a confirmed failure, set aside for review when unknown past the deadline and let be when unknown before it; a sale in another state is let be |
| Outcomes.RecoveryLooksUp | services/api/src/application/recovery/recoverInFlight.ts:416-556 | Recovery does the same for a sale in PROCESSING or PENDING, and keeps one it does not give up on pending |
| Outcomes.NeverSubmittedIsGivenBack | services/api/src/application/recovery/recoverInFlight.ts:312-345 | A sale that never reached the provider fails and its amount is given back |
| Outcomes.UncertainWaits | services/api/src/application/recovery/recoverInFlight.ts:346-380 | One that may have reached it is kept PENDING with its money reserved |
| Outcomes.ReversalIsRequired | services/api/src/application/reversal.ts:52-125 | A reversal is asked for exactly from PENDING or UNDER_REVIEW, and moves no money |
| Outcomes.ReversalIsGivenBack | services/api/src/application/reversal.ts:134-241 | Completing a required reversal gives the shop the whole amount from whichever bucket holds it; any other sale is let be |
| Outcomes.SettledIsReversed | apps/operations-console/src/server.ts:3745-3800 | Reversing a settled sale credits the shop its amount at the provider's cost and leaves its earnings; any other sale is let be |
| Fingerprints.ComputeFingerprint | packages/domain/src/idempotency.ts:50-57 | The loop computes the fingerprint |
| Fingerprints.OneUnitAlwaysShows | packages/domain/src/idempotency.ts:50-57 | Inputs of any length that differ in exactly one unit never share a fingerprint |
| Fingerprints.MixInjective | packages/domain/src/idempotency.ts:52-55 | Each step is a bijection in the hash and in the unit |
| Fingerprints.PrimeInverts | packages/domain/src/idempotency.ts:54-54 | Multiplying by the prime modulo 2^32 is undone by its inverse |
| Fingerprints.RenderingInjective | packages/domain/src/idempotency.ts:56-56 | The padded hexadecimal determines the hash |
| Fingerprints.PublishedValues | packages/domain/src/idempotency.ts:49-57 | The model gives the FNV authors' values for the empty string and for one letter |
| Idempotency.IdempotencyStore.Register | packages/domain/src/idempotency.ts:116-142 | Answers as the first call with this key in the whole history demands; only a NEW answer changes the store |
| Idempotency.IdempotencyStore.AssertNotInProgress | packages/domain/src/idempotency.ts:150-156 | Throws exactly for keys some earlier call registered, naming that call's sale |
| Idempotency.FirstIsRemembered | packages/domain/src/idempotency.ts:106-142 | Under each key the store holds exactly the record of the first call made with it |
| Idempotency.NewOncePerKey | packages/domain/src/idempotency.ts:106-142 | However often a request is repeated or altered, its key is answered NEW once |
| Idempotency.TamperedRepeatIsRefused | packages/domain/src/idempotency.ts:121-130 | A repeated key with one character of its payload changed is refused, always |
| Idempotency.RecipientChangeShows | packages/domain/src/idempotency.ts:60-80 | One changed character of the recipient leaves the key and changes the payload in one unit |
| Idempotency.ProductChangeShows | packages/domain/src/idempotency.ts:60-80 | The same for the product |
| Idempotency.AmountDigitChangeShows | packages/domain/src/idempotency.ts:60-80 | The same for a digit of the amount |
| Idempotency.RequestChangeChangesKey | packages/domain/src/idempotency.ts:78-94 | Shops, devices or requests whose ids differ in one character never share a key |
| Idempotency.KeySourceExactly | packages/domain/src/idempotency.ts:82-84 | For shop and device ids without a bar, two requests have one key source exactly when shop, device and client request are the same |
| Idempotency.PayloadExactly | packages/domain/src/idempotency.ts:60-71 | For fields without a bar before the last, two intents have one payload exactly when they are the same intent, amounts included |
| Idempotency.BarsMakeKeysMeet | packages/domain/src/idempotency.ts:82-84 | With a bar in an id, two shops' requests can share a source and so a key |
| Idempotency.RepeatIsReplayed | packages/domain/src/idempotency.ts:116-142 | A request made for the first time is NEW with a record of its own shop, device, sale and time; made again after any other calls and under any new sale id, it is answered with that first record |
| Idempotency.KeyShape | packages/domain/src/idempotency.ts:87-94 | A key is its prefix and eight lower-case hexadecimal digits |
| DepositReference.AlphabetExactly | packages/domain/src/depositReference.ts:50-50 | Searching the alphabet for a character finds its value in the model, for every character |
| DepositReference.ComputeLuhnSum | packages/domain/src/depositReference.ts:72-85 | The loop, with its folding by division and remainder, computes the weighted sum, or none at a character outside the alphabet |
| DepositReference.OneCheckCharacter | packages/domain/src/depositReference.ts:93-97 | For data of any length exactly one character completes it to a code that checks |
| DepositReference.SubstitutionIsCaught | packages/domain/src/depositReference.ts:87-97 | A code of any length with any one character replaced no longer checks |
| DepositReference.SwapIsCaughtExceptA9 | packages/domain/src/depositReference.ts:72-97 | Swapping two different neighbours in a code of any length goes unnoticed exactly for A and 9 |
| DepositReference.FormatRoundTrip | packages/domain/src/depositReference.ts:107-145 | Formatting changes neither the normal form nor the verdict, and formatting again changes nothing |
| DepositReference.CaseDoesNotMatter | packages/domain/src/depositReference.ts:99-131 | A reference typed in any mixture of cases has one normal form and one verdict |
| DepositReference.SpacingDoesNotMatter | packages/domain/src/depositReference.ts:99-131 | A space or hyphen anywhere changes neither |
| DepositReference.GroupsOfThree | packages/domain/src/depositReference.ts:136-145 | A formatted reference stands in threes, a hyphen at every fourth place and the rest in order |
| DepositReference.TypoIsNamed | packages/domain/src/depositReference.ts:99-131 | One wrong character in an accepted reference, however spaced and cased: spacing in its place is a wrong length, a character outside the alphabet is named as one, any other symbol fails the check, and only the same letter passes |
| DepositReference.SlipIsNamed | packages/domain/src/depositReference.ts:99-131 | Two neighbours in the wrong order: refused as a failed check, except where it changes nothing and for A and 9 |
| DepositReference.NewDepositReference | packages/domain/src/depositReference.ts:159-171 | A drawn code always passes its own check, and no byte is ever thrown away |
| DepositReference.EveryCodeIsDrawn | packages/domain/src/depositReference.ts:159-171 | Every code that checks is drawn from some eight bytes |
| Polling.PollController.Start | packages/pos-view-model/src/polling.ts:94-98 | Starts, or does nothing while running |
| Polling.PollController.Stop | packages/pos-view-model/src/polling.ts:100-108 | Stops, cancels the timer and fixes the reason, or does nothing when stopped |
| Polling.PollController.Queue | packages/pos-view-model/src/polling.ts:110-121 | Schedules one timer, or stops at the limit |
| Polling.PollController.Fire | packages/pos-view-model/src/polling.ts:123-127 | A timer's callback begins one attempt, unless stopped meanwhile |
| Polling.PollController.Settle | packages/pos-view-model/src/polling.ts:127-139 | The rest of the tick, step by step, comes to the specified state; what that is for each answer is in SettledFetchExactly |
| Polling.OneAtATimeExactly | packages/pos-view-model/src/polling.ts:94-139 | Every event keeps at most one timer or one fetch outstanding and attempts within the limit, except exactly a restart while a fetch is in flight with polls left |
| Polling.SettledFetchExactly | packages/pos-view-model/src/polling.ts:127-139 | A settled fetch stops the polling as RESOLVED exactly when it succeeded and its callback is content; otherwise, a failure included, one more timer is queued while attempts remain and the limit is the reason when none do |
| Polling.StopInsideStands | packages/pos-view-model/src/polling.ts:100-139 | A stop from inside the callback keeps its own reason whatever the fetch brought |
| Polling.TimerBeginsOneFetch | packages/pos-view-model/src/polling.ts:115-127 | A timer begins exactly one attempt, and a fetch that settles after a stop changes nothing |
| Polling.StartAndStopExactly | packages/pos-view-model/src/polling.ts:94-121 | Starting queues one timer, or ends at the limit when none is left; stopping ends for the reason given, and neither acts twice |
| Polling.EveryStopHasItsCause | packages/pos-view-model/src/polling.ts:94-139 | Over every run, the reason found at the end was given by an event of the run, or is the limit and the attempts are used up |
| Polling.EveryRunIsBounded | packages/pos-view-model/src/polling.ts:94-139 | Under every interleaving without that restart, attempts are the fetches begun and never exceed maxPolls |
| Polling.StoppedIsFinal | packages/pos-view-model/src/polling.ts:100-139 | Once stopped, and until started again, no fetch begins and the reason never changes |
| Polling.LeftAloneItStops | packages/pos-view-model/src/polling.ts:110-139 | Left alone, a controller runs out of events within a computed bound, and is then stopped |
| Polling.RestartInFlightOverruns | packages/pos-view-model/src/polling.ts:94-121 | The excluded restart really overruns: three fetches where two are allowed |
| RateLimit.ConsoleRateLimiter.Check | apps/operations-console/src/rateLimit.ts:101-124 | The answer and the counters are those of the specification, whose limits AdmitsAtMost, BoundIsReached and BudgetLastsExactly name by the policy's fields |
| RateLimit.ConsoleRateLimiter.Prune | apps/operations-console/src/rateLimit.ts:126-130 | The loop removes exactly the expired counters |
| RateLimit.AnswerIsTheBucketsOwn | apps/operations-console/src/rateLimit.ts:101-130 | With a clock that never runs back, an answer depends only on earlier requests of the same scope and address: pruning never shows and buckets never interfere |
| RateLimit.AdmitsAtMost | apps/operations-console/src/rateLimit.ts:101-130 | Whatever else it is asked and however often it prunes, the limiter admits of one address at most 2 * authPerMinute - 1 sign-ins, and 2 * requestsPerMinute - 1 other requests, in any stretch of one window's length |
| RateLimit.BoundIsReached | apps/operations-console/src/rateLimit.ts:101-124 | Every address and scope whose own field of the policy is at least one has a run of the limiter that admits that many |
| RateLimit.BudgetLastsExactly | apps/operations-console/src/rateLimit.ts:101-124 | After n requests of one moment the next is admitted exactly while its own scope's field of the policy is above n |
| RateLimit.ConsoleBudgets | apps/operations-console/src/rateLimit.ts:71-75 | The shipped policy admits ten sign-ins and two hundred and forty other requests at a moment, exactly |
| RateLimit.RetryAfterIsExact | apps/operations-console/src/rateLimit.ts:101-130 | Waiting the seconds returned is always enough, whatever other buckets ask meanwhile and however often it prunes, and fewer never are |
| RateLimit.OnlyLargeMapsArePruned | apps/operations-console/src/rateLimit.ts:106-112 | Exactly a request that opens a window on a map of more than 4096 counters prunes it, of expired counters only |
| Throttle.AttemptTable.CheckThrottle | apps/merchant-pos/src/registration.ts:132-146 | Pruning then counting gives the answer of a table that never forgets |
| Throttle.AttemptTable.Try | apps/merchant-pos/src/server.ts:3022-3037 | Check, then record what the request's route records, on the one table all routes share |
| Throttle.CountIgnoresPruning | apps/merchant-pos/src/registration.ts:132-146 | Forgetting what is no later than the window's start never changes a count, for any source |
| Throttle.WindowBound | apps/merchant-pos/src/registration.ts:123-146 | Whatever else shares the table, every stretch of one window's length holds at most the allowed number of admitted, recorded attempts of a source |
| Throttle.OwnVerdict | apps/merchant-pos/src/registration.ts:132-146 | On the shared table a source's verdict is the one a table of its own would give |
| Throttle.RefusalsCount | apps/merchant-pos/src/server.ts:3029-3037 | On the shared table a registration is admitted exactly when its source has tried, refusals included, fewer than the allowed number of times in the window |
| Throttle.HammeringStaysRefused | apps/merchant-pos/src/server.ts:3029-3037 | A source that keeps trying faster than the limit is refused for as long as it does, whoever else tries in between |
| Throttle.SuccessesAreFree | apps/merchant-pos/src/server.ts:3188-3236 | Successful sign-ins, however many, change no later answer on the shared table |
| Throttle.BudgetsAreSeparate | apps/merchant-pos/src/server.ts:2896-2911 | Over every run of the three routes, a request's verdict is the one it would get had only its own route and digest ever been seen |
| Throttle.RoutesAreBounded | apps/merchant-pos/src/registration.ts:35-45 | On the table the routes share, any hour holds at most six registrations of a digest, six activations, or thirty failed sign-ins |
| Throttle.RoutesExactly | apps/merchant-pos/src/server.ts:3022-3037 | A registration or activation is admitted exactly when its digest tried that route fewer than six times in the hour before, a sign-in exactly when fewer than thirty of its digest's were let in and failed |
| Throttle.PrefixesKeepSourcesApart | apps/merchant-pos/src/server.ts:2898-2905 | Two requests count together exactly when they came by the same route from the same digest |
| Funding.CreditExactly | packages/domain/src/fundingSubmission.ts:201-277 | Value follows exactly when none of seven faults is there, at once up to the cap and on approval above it, always in the bank's own amount and to the reference's shop |
| Funding.FirstFaultAnswers | packages/domain/src/fundingSubmission.ts:201-277 | A deposit not credited gets the answer of the first thing wrong with it, in the documented order |
| Funding.DecisionsFollowTheTable | packages/domain/src/fundingSubmission.ts:58-104 | A decision's status is a legal move from verification exactly when it is no credit: a credit skips the match |
| Funding.ClaimChangesNothing | packages/domain/src/fundingSubmission.ts:240-277 | What the shop said it paid changes no shop, amount, status or posting; it matters only where a CHECK refuses it |
| Funding.RecordedExactly | services/api/src/admin/recordDeposit.ts:137-208 | A decided deposit is recorded exactly when its claimed and bank amounts are positive or absent, its id is new and a credit's posting unused; otherwise nothing of it stays. What the row holds is in Records |
| Funding.AmountRejectionIsNeverStored | packages/persistence/src/migrations/016_funding_submissions.ts:57-95 | So a rejection for a bank amount of nothing or less is decided but cannot be stored |
| Funding.LostReview | apps/operations-console/src/server.ts:2363-2398 | And a bank figure that rounds to nothing, quoted for no known shop, is decided for review and not stored: on an empty desk, for every reference, account and operator |
| Funding.EveryRunIsSound | services/api/src/admin/recordDeposit.ts:137-208 | Over every run of deposits, second approvals, gateway payments, slips and any other ledger calls, funding calls among them: each bank reference is credited at most once, each credited row names its own posting of its shop and bank amount and no two rows the same one, shop by shop the credits posted are those of the credited rows and those made elsewhere, nobody approves their own record, and decided rows and closed slips never change |
| Funding.GatewayCreditsOnce | services/api/src/application/chapaDeposit.ts:181-327 | A gateway payment credits its order's shop exactly when it is complete, paid to the unit, the order was open when read and still is, and nothing it writes is there already; the order's amount is credited, a second delivery credits nothing more, and anything else leaves the desk as it was |
| Funding.GatewayKeeps | services/api/src/application/chapaDeposit.ts:254-327 | A payment settled on any reading of its order keeps all of it: whoever finds the order no longer open changes nothing |
| Funding.CreditedSlipIsClosed | apps/operations-console/src/server.ts:2515-2534 | A deposit credited when recorded goes to the shop of the slip it quotes and leaves that slip closed |
| Funding.ApprovalClosesSlipExactly | apps/operations-console/src/server.ts:2669-2675 | A second approval closes the open slip its deposit quoted exactly when the bank's reference is that slip's own |
| Funding.ApprovedSlipStaysOpen | apps/operations-console/src/server.ts:2669-2675 | So a slip paid above the cap is credited and stays open, for every slip, shop and amount |
| Funding.SecondOfTwoMatchesIsRefused | packages/persistence/src/migrations/016_funding_submissions.ts:110-111 | Two waiting deposits of one bank reference: approving the second is refused by the index and posts nothing |
| Funding.ApproveKeeps | apps/operations-console/src/server.ts:2616-2676 | A second approval keeps all of it |
| Funding.StaleApprovalExactly | apps/operations-console/src/server.ts:2633-2676 | An approval acting on an earlier reading keeps credits and rows in step exactly when it is refused or the row still waits: the UPDATE's count is not looked at |
| Funding.OneDepositCreditedTwice | apps/operations-console/src/server.ts:2607-2676 | That run exists for every deposit above the cap: record it, let two people read it, and let both approve |
| Records.RowKeepsTheDeposit | services/api/src/admin/recordDeposit.ts:171-208 | A recorded deposit's row carries its recorder, both references, the claim and the bank's amount, and names a posting exactly when credited |
| Records.RowNamesTheShop | apps/operations-console/src/server.ts:2424-2455 | Its shop is that of a printed slip bearing the reference, and the standing one only when no slip does |
| Records.RowTellsTheOutcome | packages/domain/src/fundingSubmission.ts:240-293 | Its status says what the bank confirms: credited up to the cap, waiting above it, duplicate, for review or rejected, each exactly when it should be |
| Records.RowComesWithItsMoney | services/api/src/admin/recordDeposit.ts:137-208 | Only a credited row comes with money, the bank's amount to the row's shop alone, and closes no slip but the one it quotes |
| Records.RecorderNeverApproves | apps/operations-console/src/server.ts:2640-2644 | Whatever happens at the desk after a deposit was recorded, its recorder's approval of it fails and leaves the desk as it was |
| Records.ApprovalExactly | apps/operations-console/src/server.ts:2616-2676 | A second approval goes through exactly for a waiting row with a shop and an amount, by another person, under an unused posting and reference; then the shop gets the bank's amount and the row names approver and posting, and otherwise nothing changes |
| Records.ApprovalRefusals | apps/operations-console/src/server.ts:2633-2644 | A row that no longer waits is named before a recorder approving their own, and both before the ledger is asked |
| Records.GatewayRowTells | services/api/src/application/chapaDeposit.ts:254-327 | A settled payment leaves a credited row with its order's shop and amount and the gateway's own reference, and credits that shop alone |
| Records.GatewayRefusals | services/provider-adapters/chapa/src/decide.ts:73-97 | Why a payment is not taken: whose it is before the order's state, and that before currency and amount, each exactly |
| Records.PostingNamesExactly | services/api/src/application/chapaDeposit.ts:254-327 | Postings are named after the deposit or order they pay: two names meet exactly for one deposit, one order, or a deposit id spelled like an order's |
| Records.SlipsOpenAndLapse | packages/persistence/src/repositories/topupOrders.ts:262-300 | A slip of a positive amount is printed once, open; an open one lapses or is withdrawn and then stays so |
| Records.FundingTableExactly | packages/domain/src/fundingSubmission.ts:58-104 | The table of funding states read from the other end; its moves only climb, and exactly the three decided states have none |
| Console.FundingConsole.Record | apps/operations-console/src/server.ts:2400-2535 | The deposit route's steps, the slip among them, rolled back together after a throw, come to the specified rows, slips and ledger |
| Console.FundingConsole.MarkPaid | packages/persistence/src/repositories/topupOrders.ts:219-230 | Closes the slip under a reference if it is open, naming the submission |
| Console.FundingConsole.InsertRow | packages/persistence/src/migrations/016_funding_submissions.ts:57-111 | The insert's CHECKs, primary key and unique index on credited references, in that order |
| Console.FundingConsole.ApproveSecond | apps/operations-console/src/server.ts:2616-2676 | The second-approval route: the credit, the row and the slip change together or not at all |
| Console.TransferConsole.Claim | packages/persistence/src/repositories/extensions.ts:388-404 | Changes one row exactly when the transfer still waits |
| Console.TransferConsole.Approve | apps/operations-console/src/server.ts:2796-2825 | Claim, post, commit; a posting that throws takes the claim back |
| Console.TransferConsole.Refuse | apps/operations-console/src/server.ts:2767-2783 | A refusal with a reason closes a waiting transfer and moves nothing |
| Outage.ComputeUnhealthyMillis | packages/domain/src/attempt.ts:216-239 | The loop computes the figure |
| Outage.MeansTheGaps | packages/domain/src/attempt.ts:216-239 | The figure is the sum of the gaps whose latest status was not healthy, the last ending now |
| Outage.NeverMoreThanElapsed | packages/domain/src/attempt.ts:216-239 | For events in order it is never negative and never more than the time since the first |
| Outage.RecordingChangesIsEnough | packages/domain/src/attempt.ts:172-204 | Recording only changes of status gives the same figure as recording every check |
| Outage.UnreadableTimesAreSkipped | packages/domain/src/attempt.ts:216-239 | An event whose time cannot be read is as if it were not there |
| ProductId.ParsedReprints | packages/domain/src/productId.ts:30-47 | Whatever parses is printable, with no empty part, and prints back to what was parsed |
| ProductId.ParsesExactly | packages/domain/src/productId.ts:30-47 | Exactly the strings that some printable product prints to are parsed at all |
| ProductId.PrintThenParse | packages/domain/src/productId.ts:30-47 | Parsing undoes the catalog's printing exactly when the network marks off no kind of its own after its first character |

## Left out

- Accounts and foreign keys: account rows, `ensureAccounts` and the checks that rows refer to existing shops, sales
  and administrators; each operation creates the accounts it posts to.
- JavaScript numbers: amounts are whole numbers without bound; the errors for unsafe integers and the currency other
  than ETB are not modelled.
- Timestamps, correlation ids, modes and metadata on rows; where a day matters it is a parameter of the call.
- Trail.EveryRunIsAudited: is about the audit events the ledger operations write themselves; those that services and
  consoles add around them are not in the model.
- Conflict targets: a row that breaks a unique index other than the upsert's own target while its id also exists is
  taken as an update of that id, as SQLite does when the id conflicts.
- Fresh ids: where a service draws a new reservation id, `Sales.FreshIds` says it is new; randomness itself is a
  parameter.
- Pending-resolution jobs, support cases, idempotency results, commission entries and provider calls around a sale;
  the provider's answer and the deadline are parameters. The guard that closes a pending job once is left out, so the
  model allows more runs than the services do.
- Reversal approval: who may approve, and the request row. Its only writer copies the sale's amount, which no update
  changes, so the model reverses the sale's own amount.
- The release after a refused live submission, which moves a sale as a confirmed failure does.
- Deposit routes: parsing the form, evidence text, the reason written beside a row's status, manual decisions on reviewed rows, drawing a slip's reference, its
  method and its expiry time; the device-key fallback for a quoted reference is a parameter.
- Gateway payments: starting one, asking the provider and recording what it said; its answer is a parameter.
- Transfer route: finding the recipient's device and shop, and the record of the approver.
- Throttle.WindowBound: is about attempts recorded when they are checked; requests that are admitted but fail before
  their attempt is recorded, and requests that interleave between check and record, are not modelled.
- Polling.EveryRunIsBounded: has the callbacks' answers and their calls to stop, not their errors, which the source
  treats as a failed fetch.
- The order in which the limiter's map is walked while pruning, which cannot be observed.
- DepositReference.FormatRoundTrip: folds case for ASCII letters only, where `toUpperCase` folds others too.
- The persisted idempotency table, of which the in-memory store is the pure form.
- `allValidTransitions` and `allInvalidTransitions`, which only list the transition table.
- Access to merchants, authentication, sessions, HTML, HTTP, TLS, command lines, localisation, receipts, vouchers, the
  card simulator and the brand and mobile tools: presentation, or decisions of one branch.
