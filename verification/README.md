# AWGRevBILL, verified

A Dafny 4.11 model of the parts of AWGRevBILL (billing and network management for small ISPs: a Go API on
PostgreSQL, a Next.js front end) whose correctness is hardest to see by reading: the billing ledger and price
history, the router sync, the RouterOS protocol, the per-OLT throttle, lock and label cache, the migration runner,
and the ZTE index, allocation, configuration and traffic code. `dafny verify dfyconfig.toml` checks everything.

## How it is built

| files | what they model |
|---|---|
| `Money`, `Pricing`, `Plans` | money in cents, tax rounding, price intervals, the plan operations |
| `Ledger`, `Billing`, `Report` | invoices, payments, allocations, receipts; invoice generation; the report |
| `Billed`, `Reported` | which services a run bills and which rows of the report a document is in, by dates and statuses alone |
| `Sync`, `Resync`, `ProfilePrice` | one router sync, what repeating it does, and the code and price in a profile's name |
| `Offered`, `Subscribers` | which packages a sync makes of the profiles, and whose the services are that it links |
| `Backoffice`, `Lifecycle` | all of the above as one state machine over days, and the theorems over every run |
| `Repositories` | the transactions as methods on the tables, proved against the functions above |
| `Bits`, `RouterOS`, `RouterSession` | the length code, the sentence stream, the client that reads it in pieces |
| `Throttle`, `SessionLock`, `LabelCache` | the three small concurrent protocols, as events of any interleaving |
| `Migrations` | the runner, which may stop between any two commits |
| `Text`, `Decimal`, `ZteIndex`, `ZteJoin`, `LocLabel` | numerals, index codecs, the cross-table join, label extraction |
| `OnuAllocator` | suggested ONU numbers |
| `ServicePort`, `ServicePortCommand` | parsing service ports word by word, and printing them |
| `ServicePortText`, `ServicePortLines` | the expressions of the parser on the text of a line, and that reading words does the same |
| `Counters`, `Traffic` | octet counters in the database; rates and merging in the chart |

Tables are sequences and maps, one transaction is one step, money is whole cents, a day is an integer and the current
day never goes back. A loop or an object that changes things is a method or a class; the function it is proved equal
to is what the theorems speak about.

## Where the code does less than it seems to

These are properties one would expect, or that a comment in the code states, and that fail; each has the exact
condition under which it holds.

- **Voiding an invoice does not let its period be billed again.** The candidate query skips only invoices that are
  not void (internal/postgres/billing_repository.go:118-125), but the table's `UNIQUE (tenant_id, service_id,
  period_start, period_end)` counts void rows too (migrations/000002_isp_domain.up.sql:251). So the insert is
  refused and the whole run rolls back, for every customer. `Billing.GenerateOutcome` says a run commits if and only
  if no service is so blocked; `Billing.VoidThenGenerateFails` is the smallest case; `Backoffice.VoidedPeriodIsNeverRebilled`
  says no later action helps.
- **A `!trap` does not always make `Run` fail.** Its comment says it does (internal/mikrotik/client.go:79-80). Only
  the text of the last `!trap` or `!fatal` before `!done` counts, and a bare one erases the text before it:
  `RouterSession.RunResult` (if and only if), `RouterSession.BareTrapIsNoError`.
- **A caller who times out in `Acquire` can lock an OLT for good.** The goroutine it leaves behind still takes the
  mutex and nobody unlocks it (internal/ztecli/client.go:234-247): `SessionLock.ServableUnlessStuck` (if and only
  if), `SessionLock.GivingUpDooms`, `SessionLock.OneTimeoutSticks`. At most one caller is ever served at a time all the same.
- **A repeated sync may report price updates.** The tables never change (`Backoffice.SyncIsIdempotent`), but the
  counter of updated packages is 0 if and only if priced profiles that share a package code agree on the price
  (`Resync.SecondSyncReportsNoUpdate`). Price and code are both read from the profile's name, and need not go together:
  "A 10 K 150K" costs 10 000 and "A-10-K-150K" costs 150 000, with one code (`ProfilePrice.TwoSpellings`,
  `ProfilePrice.SpellingsFlip`). `ProfilePrice.WhenNamesAgree` says for which codes all names must agree (if and only
  if), `ProfilePrice.FixedCodesStayQuiet` that such names keep the repeat silent, and `ProfilePrice.OpenCodesFlip` that
  every other code has two names that do not.
- **A repeated sync may isolate and restore services.** It does if and only if a username is listed both enabled and
  disabled, on a service that is active or isolated: `Sync.RepeatIsSilent`, `Sync.BothWaysFlaps`.
- **The throttle admits more than `maxPerMinute` commands in a minute**, because its window is fixed:
  `n` of them if and only if `n <= 2 * maxPerMinute - 1` and `n - 1` gaps fit a minute (`Throttle.MinuteCapacity`). So
  the budget holds if and only if it is at most 1 or `maxPerMinute * minGap` is over a minute (`Throttle.BudgetKept`).
  With the defaults, a gap of 120 ms and a budget of 240, a minute can hold 479.
- **A RouterOS word of 2^32 bytes or more, or an empty one, does not survive the wire**; everything else does:
  `RouterOS.SentenceRoundTrip` (if and only if). The length alone comes back modulo 2^32 (`RouterOS.LengthRoundTrip`).
- **Cached labels age from when they were stored, not from when they were walked.** The lifetimes of ten minutes,
  thirty seconds and no time at all hold for the time since the storing (`LabelCache.ReturnedLabelsAreFresh`,
  `LabelCache.GuardedLabelsAreNew`). For the time since the walk a bound holds over every run if and only if it leaves
  room for the longest wait between walk and storing (`LabelCache.AgeCountsFromStoring`); from a given state old labels
  can come back if and only if the entry lives and was not stored at once (`LabelCache.OldLabelsPossible`).
- **A label does not always say what its index says**: not if the index has one colon and a number after it or after
  its last dot (`ZteIndex.LabelKeepsMeaning`, if and only if; `ZteIndex.ColonLosesNumber`). A walk gives no colon.
- **A counter that was reset looks like one that wrapped.** The difference is the true growth if and only if the
  growth is from 0 to 2^64 - 1: `Counters.DeltaIsGrowth`, `Counters.ResetLooksWrapped`. The columns are signed,
  so a reading of 2^63 or more is refused (migrations/000008_onu_traffic.up.sql:5) and the rest of the batch with it.
- **Which of two values a place gets depends on map order** exactly when a table gives one place two values:
  `ZteJoin.OrderIsInvisible`, `ZteJoin.TwoKeysOfOnePlace`.

## Model

| member | source | states |
|---|---|---|
| Money.TaxIsSound | internal/postgres/billing_repository.go:191-194 | for every price and rate the schema admits, the rounded tax is between 0 and the subtotal, at most half a cent off, and monotone in the subtotal |
| Pricing.TheOnlyCover | internal/postgres/billing_repository.go:105-114 | in a valid history the newest-first lookup has exactly one row to find |
| Pricing.WriteKeepsHistory | internal/postgres/plan_repository.go:121-140 | closing then upserting a price keeps the intervals of every package disjoint and none starting after today |
| Pricing.WriteSetsPrice | internal/postgres/plan_repository.go:121-140 | the written price is the one in force from that day on, with the tax the conflict clause leaves |
| Pricing.WriteChangesNothingElse | internal/postgres/plan_repository.go:121-140 | no other package and no earlier day changes its price |
| Pricing.SyncChangesMeaning | internal/postgres/router_repository.go:170-183 | the sync's NOT EXISTS over rows is true exactly when the price in force is missing or different |
| Plans.StepKeepsValid | internal/postgres/plan_repository.go:59-155 | creating, updating, archiving and syncing a plan keep the catalog valid |
| Plans.StepRefines | internal/postgres/plan_repository.go:59-155 | each operation on intervals does what appending to a journal of prices does, for every package and day |
| Plans.IntervalsRefineJournal | internal/postgres/billing_repository.go:105-114 | over any run in date order the lookup at any day returns the price last set on or before it, and intervals stay disjoint |
| Plans.PastPricesAreFixed | internal/postgres/plan_repository.go:120-140 | no operation changes the price in force on any day before it ran |
| Plans.PriceRecorded | internal/postgres/plan_repository.go:59-155 | a plan is priced at the cents and ten-thousandths of a percent nearest to what is given, and refused exactly when these break the constraints |
| Ledger.CreatePaymentKeepsValid | internal/postgres/payment_repository.go:59-161 | a posted payment keeps the books valid and adds its amount to its invoice's posted sum and to no other |
| Ledger.VoidPaymentKeepsValid | internal/postgres/payment_repository.go:273-310 | voiding a payment keeps the books valid and takes exactly its amount from its invoice |
| Ledger.VoidInvoiceKeepsValid | internal/postgres/billing_repository.go:365-402 | voiding an invoice keeps the books valid and every posted sum |
| Ledger.PaymentAccepted | internal/postgres/payment_repository.go:66-99 | in valid books a payment is accepted if and only if the invoice is not void and 0 < amount <= what is owed |
| Ledger.PaymentRecorded | internal/postgres/payment_repository.go:92-135 | a payment of any real amount is accepted exactly when it rounds to something and to no more than what is owed; payment, allocation and growth of the posted sum are the nearest cents, a receipt is added, no other invoice changes, and the invoice is paid exactly when that is all it owed |
| Ledger.InvoiceVoidable | internal/postgres/billing_repository.go:372-393 | an invoice can be voided if and only if it is not void and its posted sum is 0 |
| Ledger.VoidUndoesPayment | internal/postgres/payment_repository.go:273-310 | voiding a payment just made restores every invoice row and posted sum, cannot be done twice, and leaves the number spent |
| Billing.IssueMeaning | internal/postgres/billing_repository.go:167-219 | the insert loop commits exactly when every priced candidate is clear, and then each has its invoice with its price and tax |
| Billing.GenerateOutcome | internal/postgres/billing_repository.go:77-225 | a run commits if and only if no service is blocked; then the books stay valid, the new invoices are those of the candidates, and created + skipped + no price is the number of billable services |
| Billing.EveryoneIsServed | internal/postgres/billing_repository.go:77-225 | after a committed run every billable, priced service has an invoice of the period that is not void |
| Billing.RepeatCreatesNothing | internal/postgres/billing_repository.go:77-225 | a second run of the period creates nothing and changes nothing |
| Billing.VoidingBlocksThePeriod | migrations/000002_isp_domain.up.sql:251 | after voiding an invoice, generating its period rolls back while the service is billable and priced |
| Billing.VoidThenGenerateFails | migrations/000002_isp_domain.up.sql:251 | the smallest books in which that happens |
| Billed.EveryActiveOrIsolatedIsBilled | internal/postgres/billing_repository.go:105-225 | after a committed run every service that is not archived, active or isolated, and priced on the first day has an open invoice of the period |
| Billed.OnlyActiveOrIsolatedAreBilled | internal/postgres/billing_repository.go:105-225 | every new invoice is of such a service that had no invoice of the period, at the price of the first day, with its tax, due date, next number and line |
| Billed.RunCounts | internal/postgres/billing_repository.go:77-225 | created, skipped and unpriced are the numbers of those services that got an invoice, had an open one, and have no price |
| Billed.RunRefused | internal/postgres/billing_repository.go:105-225 | a run is rolled back if and only if such a service, priced and without an open invoice, has a void one of the period, or the period ends before it starts |
| Sync.SyncConverges | internal/postgres/router_repository.go:206-316 | after a sync the account of every username has the number its last mapped secret gives, and its service, unless archived, that secret's package, and is isolated if and only if the secret is disabled |
| Sync.EverySecretIsCounted | internal/postgres/router_repository.go:206-316 | skipped + updated + linked is the number of secrets |
| Sync.SecondSyncKeepsDirectory | internal/postgres/router_repository.go:136-322 | repeating the secrets changes no customer, service or account and creates none, also with repeated usernames |
| Sync.SecondSyncIsSilent | internal/postgres/router_repository.go:324-345 | with distinct usernames the repeat isolates and restores nothing |
| Sync.RepeatIsSilent | internal/postgres/router_repository.go:324-345 | the repeat isolates and restores nothing if and only if no mapped secret disagrees on `disabled` with the one that decides for its username, on a service that is active or isolated and not archived; it restores as many as it isolates |
| Sync.BothWaysFlaps | internal/postgres/router_repository.go:324-345 | a username listed enabled and then disabled has such a service's status changed by every sync |
| Subscribers.ServicesKeepCustomer | internal/postgres/router_repository.go:206-316 | no sync moves a service to another customer or an account to another service |
| Subscribers.NewServiceFindsItsCustomer | internal/postgres/router_repository.go:254-316 | the service of an account a sync creates belongs to the customer its first mapped secret names (comment, or username, cut at 200, in any case): the first such row not archived if there was one then, else one appended |
| Subscribers.NewServicesOfSync | internal/postgres/router_repository.go:147-316 | the same of a whole sync, the mapping read from the profiles |
| Subscribers.SyncOnlyAdds | internal/postgres/router_repository.go:139-322 | a whole sync leaves every service with its customer and every account with its service |
| Subscribers.CountersCount | internal/postgres/router_repository.go:206-316 | skipped counts the unmapped secrets, linked the new accounts and services, created the new customers, and both numberings advance by as many |
| Resync.SecondSyncKeepsCatalog | internal/postgres/router_repository.go:147-204 | repeating the profiles on the same day changes no package and no price row, also when profiles share a code and disagree |
| Resync.SecondSyncReportsNoUpdate | internal/postgres/router_repository.go:183-203 | the repeat counts no updated package if and only if priced profiles with one code agree |
| Resync.ServiceFollowsRouter | internal/postgres/router_repository.go:147-316 | after a sync the service of every username is of the package whose code is that of the last profile with the name its last secret gives, at the last amount named for that code |
| Offered.ProfilesMakePackages | internal/postgres/router_repository.go:147-166 | packages are only added: one for the first profile of each new code, named after it and active, and every profile has one |
| Offered.RefusedForNegative | internal/postgres/router_repository.go:147-204 | the profiles are refused, and the sync with them, if and only if one names a negative price |
| Offered.PackageCounters | internal/postgres/router_repository.go:159-203 | created counts the rows added, no price the profiles that name none, and updated those that name another price than the one in force for a package that was there |
| ProfilePrice.ReadProfiles | internal/router/service.go:194-208 | the profiles the router lists become those imported, in order, without the empty and the default ones, each with the amount its name carries |
| ProfilePrice.RouterProfilesAreAccepted | internal/postgres/router_repository.go:147-204 | no list of names makes a sync fail on a price |
| ProfilePrice.ImportedAreListed | internal/router/service.go:194-208 | each listed name that is not blank or a default becomes one profile, trimmed, in order, and no other does |
| ProfilePrice.PriceOfName | internal/router/service.go:19-41 | a name is priced by the first number in thousands in it, if that is from 1 to 100 000 |
| ProfilePrice.NoPriceInName | internal/router/service.go:31-35 | a name in which no number is followed by a K that ends a word has no price |
| ProfilePrice.CodeMeaning | internal/postgres/router_repository.go:390-411 | the code of a name is the part from its first letter or digit to its last, in capitals, with dashes for other characters, cut at 50, and "PROFIL" if it has none |
| ProfilePrice.PricedByOffer | internal/router/service.go:31-41 | the amount a name carries is one its code, before cutting, offers: that of a number a K follows, at once or after dashes, with no number before it that every name with this code has as a match |
| ProfilePrice.OfferPrices | internal/postgres/router_repository.go:390-411 | each amount a code offers is carried by some name with that code |
| ProfilePrice.WhenNamesAgree | internal/router/service.go:19-41 | all priced names of a code carry one amount if and only if the numbers it offers are one amount and, if it is cut off at 50 letters, one of them must match |
| ProfilePrice.FixedCodesStayQuiet | internal/postgres/router_repository.go:162-203 | if every priced name's code fixes the amount, the repeat of a sync reports no update, in any state |
| ProfilePrice.OpenCodesFlip | internal/postgres/router_repository.go:162-203 | for every code that does not, two names a router may list make the repeat report one, in any state |
| ProfilePrice.TwoSpellings | internal/router/service.go:19-41 | two names of one code that cost 10 000 and 150 000 |
| ProfilePrice.SpellingsFlip | internal/postgres/router_repository.go:162-203 | a router that lists the two has a price updated by every sync |
| Report.MonthlyRowsSumToTotals | internal/postgres/report_repository.go:132-152 | the invoiced and collected amounts of the monthly rows sum exactly to the totals of the range |
| Report.BreakdownSumsToInvoiced | internal/postgres/report_repository.go:81-92 | the rows of the status breakdown without void add up to the invoiced amount and count |
| Report.MethodsSumToCollected | internal/postgres/report_repository.go:108-115 | the rows of the method breakdown add up to the collected amount and count |
| Report.InvoicedIsCollectedPlusOutstanding | internal/postgres/report_repository.go:53-57 | in valid books, all that is invoiced is what is posted plus what the report calls outstanding |
| Report.OverdueWithinOutstanding | internal/postgres/report_repository.go:58-62 | the overdue amount is between 0 and the outstanding amount |
| Report.OverdueIsOwed | internal/postgres/report_repository.go:58-66 | there is an overdue amount if and only if an open invoice over more than nothing is past its due date |
| Reported.MonthStartIs | internal/postgres/report_repository.go:24-36 | the first of month m is 365 days a year, the leap days of the Gregorian rule, and the days of the months before |
| Reported.InvoiceIsReported | internal/postgres/report_repository.go:33-66 | one more invoice raises the invoiced total and count by itself if and only if it is not void and its period starts in the range; what is open of it is added to the outstanding sum, and to the overdue one if and only if its due date is past; nothing collected changes |
| Reported.InvoiceIsInItsGroup | internal/postgres/report_repository.go:81-92 | it raises the row of its shown status, and no other, if and only if its period starts in the range |
| Reported.InvoiceIsInItsMonth | internal/postgres/report_repository.go:132-152 | it raises the row of the month its period starts in, and no other |
| Reported.PaymentIsReported | internal/postgres/report_repository.go:41-52 | one more payment raises the collected total and count if and only if it is posted and received from midnight of the first day to before midnight after the last |
| Reported.PaymentIsInItsGroup | internal/postgres/report_repository.go:108-115 | it raises the row of its method, and no other, if and only if it is posted and received in the range |
| Reported.PaymentIsInItsMonth | internal/postgres/report_repository.go:132-152 | it raises the row of the month it was received in, and no other |
| Reported.AllocationLowersOwed | internal/postgres/report_repository.go:53-62 | one more allocation of a posted payment lowers the outstanding sum by its amount if its invoice is unpaid or partial, and the overdue one if that is past due |
| Reported.NothingIsReported | internal/postgres/report_repository.go:24-152 | the report of empty books is all zeros, with a row for each month |
| Backoffice.RunKeepsValid | internal/postgres/payment_repository.go:59-161 | every run of payments, voids, generation, plan changes, new and archived customers, subscriptions and syncs keeps prices disjoint, foreign keys of prices, services, accounts, invoices and allocations, the five numberings, and every invoice settled |
| Backoffice.EveryInvoiceIsSettled | internal/postgres/payment_repository.go:163-180 | in every reachable state posted sums lie in 0..total, void invoices have none, and paid and partial mean what the sums say, a zero total never being paid |
| Backoffice.DocumentsAreNumbered | internal/postgres/billing_repository.go:172-180 | in every reachable state invoices, payments and receipts are numbered 1..n in order, and no service has two invoices for one period |
| Backoffice.BooksBalance | internal/postgres/report_repository.go:24-66 | in every reachable state the report balances to the cent, in total and by month |
| Backoffice.RecordsAreFinal | internal/postgres/billing_repository.go:365-402 | no later action changes an amount, a number or an allocation, or revives what is void |
| Backoffice.PastPricesAreFinal | internal/postgres/billing_repository.go:105-114 | no later action, whole syncs included, changes the price of any package on any day before, nor what a period that starts on it is billed at |
| Backoffice.VoidedPeriodIsNeverRebilled | migrations/000002_isp_domain.up.sql:251 | once void, a service's period has no other invoice in any later state |
| Backoffice.SyncIsIdempotent | internal/postgres/router_repository.go:136-138 | from any reachable state, a sync done twice on a day leaves what it leaves done once |
| Backoffice.RepeatedSyncReport | internal/postgres/router_repository.go:139-345 | what the summary of the repeat shows, with the exact conditions for no price update and for no service isolated or restored |
| Lifecycle.RunMoves | internal/postgres/subscription_repository.go:241-266 | over any run an archived service or customer stays as it is, no service changes hands, only closing archives a service, an open one keeps its status or is active or isolated, and none is added for a customer who was archived |
| Lifecycle.ReachableStatuses | internal/postgres/subscription_repository.go:241-266 | in every reachable state a service is active, isolated or closed, and closed means archived |
| Lifecycle.ClosedIsNotBilled | internal/postgres/billing_repository.go:105-117 | no run bills a service after it was closed |
| Lifecycle.RestoreUndoesIsolate | internal/postgres/subscription_repository.go:241-256 | isolating an active service changes its status and nothing else, and restoring gives the state back |
| Lifecycle.OtherwiseNothing | internal/postgres/subscription_repository.go:241-256 | isolating does nothing if and only if the service is not open and active; restoring, if and only if it is not open and isolated or awaiting provisioning |
| Repositories.CreatePayment | internal/postgres/payment_repository.go:59-161 | the transaction, row by row, is the ledger's payment step, with the exact condition of each error; in valid books what it records is the amount nearest to the one given, in cents; the other tables are left alone |
| Repositories.RecomputeStatus | internal/postgres/payment_repository.go:163-180 | the UPDATE of the status is the ledger's recomputation |
| Repositories.CancelPayment | internal/postgres/payment_repository.go:273-310 | the transaction is the ledger's voiding of a payment, with the exact condition of each error; of the payments only that one changes, and only its status |
| Repositories.CancelInvoice | internal/postgres/billing_repository.go:365-402 | the transaction is the ledger's voiding of an invoice, with the exact condition of each error; only its status changes |
| Repositories.IssueInvoices | internal/postgres/billing_repository.go:167-219 | the loop over the candidates is the recursive issuing, and stops at the first refused row |
| Repositories.GenerateInvoices | internal/postgres/billing_repository.go:77-225 | the transaction is the generation step: all of it, or nothing at the first violation |
| Repositories.ImportProfiles | internal/postgres/router_repository.go:147-204 | the loop over the profiles, map and counters included, is the profile part of the sync |
| Repositories.AlignServiceStatus | internal/postgres/router_repository.go:324-345 | isolates an active service of a disabled secret, restores an isolated one of an enabled secret, and counts the change |
| Repositories.ImportSecrets | internal/postgres/router_repository.go:206-316 | the loop over the secrets is the secret part of the sync |
| Repositories.SynchronizeRouter | internal/postgres/router_repository.go:139-322 | the transaction is the sync step, stored as a whole or not at all |
| Repositories.CreatePlan | internal/postgres/plan_repository.go:59-100 | the transaction is the plan creation of the catalog, which it keeps valid; each error exactly when it applies; the price from today on is the nearest to the one given, and no other package or earlier day is repriced |
| Repositories.UpdatePlan | internal/postgres/plan_repository.go:102-155 | the transaction is the plan update of the catalog, which it keeps valid; each error exactly when it applies; the price from today on is the nearest to the one given, and no other package or earlier day is repriced |
| Repositories.Summary | internal/postgres/report_repository.go:20-168 | all figures of the report; the monthly rows and both breakdowns add up to the totals, and outstanding is all that was invoiced less all that was collected |
| RouterOS.LengthRoundTrip | internal/mikrotik/client.go:141-192 | for every size, reading what was written gives the size modulo 2^32 and the untouched rest |
| RouterOS.LengthOnTheWire | internal/mikrotik/client.go:141-157 | the shortest form that holds the size is written, and its bytes, most significant first, are the size plus the mark of the form |
| RouterOS.LengthOffTheWire | internal/mikrotik/client.go:159-192 | any bytes are read as the number they are without the mark, and the end is reported exactly when the form is cut off |
| RouterOS.SentenceRoundTrip | internal/mikrotik/client.go:133-222 | a sentence reads back, rest untouched, if and only if no word is empty or of 2^32 bytes or more |
| RouterOS.StreamRoundTrip | internal/mikrotik/client.go:206-222 | any list of such sentences reads back as that list, whatever follows |
| RouterSession.GatherMeaning | internal/mikrotik/client.go:91-117 | over any replies before `!done`, the loop collects the attributes of the `!re` sentences in order and the last trap's text |
| RouterSession.RunResult | internal/mikrotik/client.go:81-118 | the result is an error if and only if the last trap has text, else exactly those rows |
| RouterSession.BareTrapIsNoError | internal/mikrotik/client.go:79-80 | a trap without text gives no error |
| RouterSession.AttributeMeaning | internal/mikrotik/client.go:120-131 | of any words, the attributes are, for each key, what the last word `=key=value` gives, the key ending at its first equals sign |
| RouterSession.ErrorText | internal/mikrotik/client.go:104-134 | the text of the error is the last value the last `!trap` or `!fatal` gives `message`, if that is not empty, else its words with single blanks between them, and there is no error if that is empty |
| RouterSession.AttributesRoundTrip | internal/mikrotik/client.go:120-131 | attributes written as `=key=value` read back, the last of a repeated key winning, values with `=` intact |
| RouterSession.Client.ReadBytes | internal/mikrotik/client.go:194-204 | however the reader splits its reads, exactly the next bytes are returned and consumed, or the end is reported |
| RouterSession.Client.ReadLength | internal/mikrotik/client.go:159-192 | reads what the length decoder says |
| RouterSession.Client.ReadSentence | internal/mikrotik/client.go:206-222 | reads what the sentence decoder says |
| RouterSession.Client.WriteSentence | internal/mikrotik/client.go:81-89 | all words and the empty one, or the bytes before the first that could not be written |
| RouterSession.Client.Run | internal/mikrotik/client.go:81-118 | sends the encoded sentence and returns what gathering the incoming stream gives; if the connection breaks on the way, the error, with the part written that it took |
| Throttle.OltThrottle.WaitTurn | internal/ztecli/client.go:169-193 | when a call is refused, which window and number it gets, and that an admitted call sleeps under the mutex until the clock and the gap after the last command are both reached |
| Throttle.StampsKeepTheGap | internal/ztecli/client.go:180-192 | over any run, two commands are stamped at least their distance times the gap apart |
| Throttle.MinuteBound | internal/ztecli/client.go:169-193 | over any run, a minute holds at most 2 * maxPerMinute - 1 commands |
| Throttle.MinuteCapacity | internal/ztecli/client.go:169-193 | some run gets n commands into a minute if and only if n <= 2 * maxPerMinute - 1 and (n - 1) * minGap is at most a minute |
| Throttle.BudgetKept | internal/ztecli/client.go:173-179 | no run gets more than maxPerMinute commands into a minute if and only if maxPerMinute <= 1 or maxPerMinute * minGap is over a minute |
| Throttle.MinuteBoundIsTight | internal/ztecli/client.go:173-179 | the bound is reached if and only if the gaps leave room for it |
| SessionLock.RunKeepsConsistent | internal/ztecli/client.go:219-248 | in every interleaving a key's mutex is held by exactly the call that locked it and has not released it |
| SessionLock.OneSessionPerKey | internal/ztecli/client.go:197-202 | at most one caller is served per key, timed-out waiters included |
| SessionLock.StuckForever | internal/ztecli/client.go:234-247 | a mutex held for a caller who timed out is never free again |
| SessionLock.StuckMeaning | internal/ztecli/client.go:234-247 | a key is stuck if and only if the goroutine of some caller who gave up has got its mutex |
| SessionLock.GivingUpDooms | internal/ztecli/client.go:234-247 | after a caller gave up, in every later state of every run the key is stuck for good once its goroutine has locked, and until then that goroutine can lock whenever the mutex is free |
| SessionLock.ServableUnlessStuck | internal/ztecli/client.go:219-248 | some continuation serves a new caller if and only if the key is not stuck |
| SessionLock.OneTimeoutSticks | internal/ztecli/client.go:234-247 | from any state with the key free, one timeout behind a served caller makes it stuck |
| SessionLock.Manager.BlockFor | internal/ztecli/client.go:219-227 | one mutex per key, different mutexes for different keys |
| LabelCache.RunKeeps | internal/olt/onu_snmp.go:243-288 | every interleaving keeps cache and flags consistent |
| LabelCache.OneRefreshPerKey | internal/olt/onu_snmp.go:263-288 | the flag is set if and only if a request is between guard and cleanup, and there is at most one |
| LabelCache.ReturnedLabelsAreFresh | internal/olt/onu_snmp.go:243-257 | over any run, labels returned are non-empty, from a finished walk, and stored within the lifetime of the look that gave them: ten minutes, thirty seconds, or at once |
| LabelCache.GuardedLabelsAreNew | internal/olt/onu_snmp.go:263-288 | over any run, labels returned past the first look were stored less than thirty seconds before |
| LabelCache.LabelsAreOfTheirKey | internal/olt/onu_snmp.go:243-288 | whatever a request returns, in any interleaving, was found by a walk for its own key |
| LabelCache.OldLabelsPossible | internal/olt/onu_snmp.go:243-252 | from any consistent state with labels of a key, a later question gets labels walked ten minutes before or more if and only if they are alive and were not stored the second they were walked |
| LabelCache.AgeCountsFromStoring | internal/olt/onu_snmp.go:280-287 | when walks wait at most D to be stored, the age since the walk is under a bound over every run if and only if the bound is at least the look's lifetime plus D |
| LabelCache.LabelTable.EnterGuard | internal/olt/onu_snmp.go:264-274 | the guarded second look: labels, a busy answer, or the flag |
| LabelCache.LabelTable.StoreLabels | internal/olt/onu_snmp.go:284-287 | the critical section that stores the walk |
| LabelCache.LabelTable.ClearFlag | internal/olt/onu_snmp.go:275-279 | the deferred critical section that takes the flag away, whatever the walk gave |
| Migrations.ValidateChecksums | cmd/migrate/main.go:147-163 | accepts if and only if every applied row is in the release and unaltered, and lists the rows without checksum |
| Migrations.RunEffect | cmd/migrate/main.go:73-80 | after any number of commits, history and table have gained exactly the pending files reached, in order |
| Migrations.RefusedOrUpToDate | cmd/migrate/main.go:92-163 | a release with a missing or altered applied file changes nothing wherever the run stops; any other run to the end leaves exactly its files and checksums |
| Migrations.AcceptedReleases | cmd/migrate/main.go:147-163 | a release is accepted if and only if each recorded version is one of its files, with the recorded checksum if there is one |
| Migrations.RunsInFileOrder | cmd/migrate/main.go:76-80 | wherever an accepted run stops, the SQL that has committed is that of the first files of the release without the recorded ones, each once and in order |
| Migrations.ExactlyOnce | cmd/migrate/main.go:222-257 | over any attempts, each stopped anywhere, no version's SQL commits twice and the table is what was there plus what ran |
| Migrations.InterruptionLeavesNoTrace | cmd/migrate/main.go:73-80 | an interrupted run followed by a complete one ends as the complete one alone, same table and same SQL in the same order |
| Migrations.Runner.VerifyApplied | cmd/migrate/main.go:92-139 | refuses without writing, or baselines the first legacy rows one commit each |
| Migrations.Runner.ApplyPending | cmd/migrate/main.go:76-80 | skips recorded files and applies the pending ones in order, one commit each |
| Migrations.Runner.Migrate | cmd/migrate/main.go:73-80 | one process, stopped after a number of commits, is the run function; completed means up to date |
| Decimal.PrintParse | internal/zte/client.go:473 | a printed number parses back if and only if it fits 64 bits |
| Decimal.ReadsAsNumber | internal/zte/client.go:473 | digits with at most one sign before them are numbers if they fit 64 bits, and nothing else is |
| ZteIndex.KeyLocOfKey | internal/zte/client.go:471-495 | what any well-printed key decodes to, in either space |
| ZteIndex.BothSuffixesDecode | internal/zte/oid_generator.go:74-106 | for every board, port and number, both generated suffixes decode to them |
| ZteIndex.SuffixesApart | internal/zte/oid_generator.go:74-106 | suffixes of one space are equal if and only if board and port are, and no suffix of one space is one of the other |
| ZteIndex.SuffixBytes | internal/zte/oid_generator.go:74-106 | for boards 1 to 30 and ports 1 to 16 the bytes are 0x11, 1, board, port and 0x10, board, port, 0 |
| ZteIndex.SplitOfTypeSuffix | internal/olt/cli_service.go:1297-1315 | of a TYPE-space index the splitter gives board/board/port |
| ZteIndex.ThirdPartIgnored | internal/zte/client.go:486-490 | a third part of a key changes nothing |
| ZteIndex.NoNumberIgnored | internal/zte/client.go:486-490 | a second part that is not a positive number counts as none |
| ZteIndex.KeyLocInjective | internal/zte/client.go:471-495 | within either space and one shelf, two keys of one place are equal |
| ZteIndex.MgmtIsTypeSuffix | internal/olt/snmp_service_port.go:70-72 | the bitwise management index is the TYPE-space suffix of the port |
| ZteIndex.LabelKeepsMeaning | internal/olt/cli_service.go:1286-1318 | splitting the label of an index and splitting the index give the same PON and number, or both nothing, if and only if the label is the index, or it has not exactly one colon, or no number follows that colon or the last dot |
| ZteIndex.ColonLosesNumber | internal/olt/cli_service.go:1286-1318 | of 285278465.1:2 the splitter reads number 2, and nothing of its label |
| ZteIndex.LabelOfSuffix | internal/zte/client.go:821-837 | in the ONU-ID space the label, the splitter and the decoder all give board, port and number, as text |
| ZteIndex.LocKeyInjective | internal/zte/client.go:497-499 | different places have different lookup keys |
| ZteJoin.BuildLocMap | internal/zte/client.go:503-514 | in whatever order, every filled entry's place is there and every place holds the value of an entry belonging to it |
| ZteJoin.PickIsRight | internal/zte/client.go:412-423 | the value joined is one stored for the index's own place, the exact entry's first, and none only if none is stored |
| ZteJoin.OrderIsInvisible | internal/zte/client.go:503-514 | the lookup is independent of map order if and only if no place has two values |
| ZteJoin.TwoKeysOfOnePlace | internal/zte/client.go:503-514 | a table with both keys of one ONU and two values, and the two lookups its map orders give |
| ZteJoin.JoinFollowsPlaces | internal/zte/client.go:399-423 | whatever spaces and shelves the keys are of, each ONU gets the value of its own slot, port and number, or nothing |
| ZteJoin.JoinCrossesSpaces | internal/zte/client.go:399-423 | in particular when list and table are each keyed in either space by the generated indices |
| ZteJoin.OneSpaceIsUnambiguous | internal/zte/client.go:503-514 | a table of printed keys in one space on one shelf gives no place two values |
| ZteJoin.SortStrings | internal/zte/health.go:294-300 | the in-place insertion sort leaves the same strings in ascending order |
| ZteJoin.SortedKeys | internal/zte/health.go:302-309 | the keys, each once, strictly ascending |
| ZteJoin.JoinTables | internal/zte/client.go:407-455 | one ONU for each name key, in order, every column belonging to it |
| ZteJoin.OneResult | internal/zte/client.go:407-455 | over tables without conflicting values there is only one such result |
| ZteJoin.OneSpaceEachOneResult | internal/zte/client.go:407-455 | so there is if each table keeps to one space and one shelf |
| LocLabel.ExtractLocLabel | internal/zte/client.go:1138-1179 | the leftmost, then longest, digits/digits/digits with optional :digits, and "" if and only if there is none |
| LocLabel.LabelIsFound | internal/zte/client.go:1138-1179 | any ONU label put after a digit-free text and not followed by a digit is what is extracted |
| LocLabel.OneLabel | internal/zte/client.go:1138-1179 | a text has one leftmost longest label |
| OnuAllocator.BuildOccupancy | internal/olt/cli_service.go:333-353 | a number is in a port's set if and only if some cached ONU holds it |
| OnuAllocator.LabelAndIndexAgree | internal/olt/cli_service.go:333-353 | an ONU of any physical port is held under the same port and number by its label and, if the label says nothing, by its index |
| OnuAllocator.HoldsMeaning | internal/olt/cli_service.go:333-353 | the label decides what an ONU holds, and the index only if the label names no port and number; malformed ports and numbers outside 1 to 128 are nothing |
| OnuAllocator.SanitizeMeaning | internal/olt/cli_service.go:409-427 | a port is the text without blanks at its ends if that is two or three numerals of at most three digits between slashes, and nothing otherwise |
| OnuAllocator.FindEmpty | internal/olt/cli_service.go:369-381 | exactly the unused numbers from 1 to the maximum, ascending |
| OnuAllocator.Dedupe | internal/olt/cli_service.go:312-331 | keeps the first report of each serial on each port, normalised, in order |
| OnuAllocator.EachReportOnce | internal/olt/cli_service.go:312-331 | no serial is left twice on a port |
| OnuAllocator.NoReportLost | internal/olt/cli_service.go:312-331 | no reported serial is lost |
| OnuAllocator.KeptReports | internal/olt/cli_service.go:312-331 | what is kept are first reports of their port and serial, in the order they came |
| OnuAllocator.ReportMeaning | internal/olt/cli_service.go:315-328 | a kept report has the capitals of the reported serial without the blanks around it, its hint, and its port |
| OnuAllocator.PickTakesOne | internal/olt/cli_service.go:383-397 | takes the hinted number if it is still there, else the least, and leaves the others in order |
| OnuAllocator.Suggest | internal/olt/cli_service.go:199-212 | each item gets the hint if it is left on its port, else the least left, and nothing exactly when nothing is left |
| OnuAllocator.SuggestionsAreApart | internal/olt/cli_service.go:199-212 | suggestions are free numbers of their port, no two alike |
| OnuAllocator.NothingOnlyWhenUsedUp | internal/olt/cli_service.go:383-386 | an item gets nothing if and only if it has no port or as many items of its port came before as there are free numbers |
| OnuAllocator.OneAllocation | internal/olt/cli_service.go:199-212 | there is only one right way to suggest |
| OnuAllocator.ListUnconfigured | internal/olt/cli_service.go:137-236 | no suggestion is held by a cached ONU or given twice on a port; on a scanned port nothing is given only if every number is held or given; each suggestion is the right one over the free numbers |
| ServicePort.ParseRunningConfig | internal/olt/cli_service.go:1640-1893 | the loop with its map and order list is the recursive reading of the lines |
| ServicePort.EnsureServicePort | internal/olt/cli_service.go:1647-1655 | gives the entry of a port, a blank one put last if the port is new, and keeps map and order list in step |
| ServicePort.PortsAreFirstSeen | internal/olt/cli_service.go:1647-1655 | one entry per port, in the order of their first lines |
| ServicePort.LastWordCounts | internal/olt/cli_service.go:1806-1879 | field by field, an entry is what the last line saying anything about the field said |
| ServicePortLines.WordsOfLine | internal/olt/cli_service.go:1672-1676 | cutting a line into words loses only its blanks |
| ServicePortLines.WanLineIsTheExpression | internal/olt/cli_service.go:1439 | a line is taken as a WAN line if and only if the expression matches its text |
| ServicePortLines.PortLineReads | internal/olt/cli_service.go:1787-1793 | a line that matches and is no WAN line is about the number it names, clipped to 64 bits, if that is positive, and says the rest of its text |
| ServicePortLines.OtherLinesAreSkipped | internal/olt/cli_service.go:1734-1787 | no other line is about a service port |
| ServicePortText.FindIsTheExpression | internal/olt/cli_service.go:2369-2376 | for each of the seven fields, reading words finds the number of the first match of the field's expression in the text |
| ServicePortText.NothingFoundIsNoMatch | internal/olt/cli_service.go:2369-2376 | and 0 if the expression does not match |
| ServicePortLines.SaysIsTheExpression | internal/olt/cli_service.go:1806-1832 | a line sets a field to that number if it is positive and fits 64 bits; failing that, ` cos 0` or ` scos 0` in the text sets the class of service to 0 |
| ServicePortLines.SaysNothing | internal/olt/cli_service.go:1806-1832 | without a match only that text says anything |
| ServicePortLines.EtypeIsTheExpression | internal/olt/cli_service.go:1859-1864 | an explicit ether type is the value of the first, longest match of its expression |
| ServicePortLines.WithoutEtype | internal/olt/cli_service.go:1865-1875 | without one, PPPoE if the text contains that anywhere, else IPoE |
| ServicePortLines.EtherNames | internal/olt/cli_service.go:2262-2274 | the three spellings of all types, the two protocols in any case, and anything else in capitals |
| ServicePortText.SetsZeroIsContains | internal/olt/cli_service.go:1827-1832 | a class of service is set back exactly when the text contains the key and 0 with blanks around the key |
| ServicePortText.MentionsIsContains | internal/olt/cli_service.go:1865-1872 | a protocol is named exactly when the text contains it, in any case |
| ServicePortCommand.FieldReadsBack | internal/olt/cli_service.go:2507-2536 | each number of a command is found again by its own expression and by no other |
| ServicePortCommand.EtherReadsBack | internal/olt/cli_service.go:1859-1879 | the ether type of a command is found again |
| ServicePortCommand.RoundTrip | internal/olt/cli_service.go:2507-2536 | printing any accepted ports with distinct ids, in any command form, and reading the text gives one entry each, in order, with every printed field |
| Counters.DeltaOctets | internal/postgres/olt_repository.go:653-658 | the difference modulo 2^64, computed without overflow |
| Counters.DeltaIsGrowth | internal/postgres/olt_repository.go:653-658 | the difference is the true growth if and only if that is from 0 to 2^64 - 1 |
| Counters.RowStored | internal/postgres/olt_repository.go:612-658 | what becomes of a row: the reading and its time, and both rates, which are eight times the growth modulo 2^64 over the seconds since the last sample, or 0 if there was none strictly before |
| Counters.ResetLooksWrapped | internal/postgres/olt_repository.go:653-658 | a counter that starts again after 1000 and stands at 5 gives 2^64 - 995 |
| Counters.OltRepository.UpdateTraffic | internal/postgres/olt_repository.go:615-645 | in any order, the rows of the samples stored and no others are updated and counted; it fails if and only if some reading does not fit the column |
| Counters.RatesTelescope | internal/postgres/olt_repository.go:615-658 | over any run of polls the stored rates account for exactly the octets between the first and last stored poll, across wraps and failed polls |
| Traffic.MergeTraffic | web/src/lib/olts/traffic.ts:18-26 | strictly in time order, at every time the last point worth showing at or after the cutoff |
| Traffic.OneMerge | web/src/lib/olts/traffic.ts:18-26 | there is one such series |
| Traffic.StepsEqualOnce | web/src/lib/olts/traffic.ts:18-26 | after each of any list of batches, merged one by one with cutoffs that never go back, the series is that of merging all of them at once |
| Traffic.AddSample | web/src/app/(app)/olt/onu-daily-chart.tsx:151 | a sample's step: the last 2160 points of the merge with it |
| Traffic.CutStepsEqualOnce | web/src/app/(app)/olt/onu-daily-chart.tsx:151 | merging any batches one by one and cutting to the last n points every time leaves the last n points of merging everything at once, however the points are spaced |
| Traffic.RateIsGrowth | web/src/lib/olts/traffic.ts:4-16 | a live rate stands for exactly the octets counted in its time, and is never negative |
| Traffic.WhenThereIsARate | web/src/lib/olts/traffic.ts:4-16 | there is a rate if and only if the two counters are of one source, the second later by at most a minute, all four counts safe whole numbers and none going back |
| Traffic.MergeShows | web/src/lib/olts/traffic.ts:18-26 | a point is shown if and only if it is drawable and no later drawable row has its time; drawable is three numbers, no rate below zero, at or after the cutoff |
| Traffic.FreshRateIsShown | web/src/app/(app)/olt/onu-daily-chart.tsx:151 | a live rate merged with the chart's cutoff is the point at its time, stays after the cut if and only if fewer than 2160 points are later, and is the last one if none is |

## Left out

- Multi-tenancy: the tables are those of one tenant; every query of the repositories filters by tenant.
- Isolation below the transaction: each committed transaction is one step. Voiding a payment locks the payment row and
  not the invoice (internal/postgres/payment_repository.go:282-288), so nothing is claimed about interleaved statements.
- Time stamps, version counters, ciphertexts, invoice and customer number texts, descriptions and audit columns.
- Numeric overflow of `numeric(19,2)`, and the scale PostgreSQL picks for the division by 100, which is exact here.
- Case folding outside ASCII, in names, package codes and usernames.
- The statuses `overdue` and `refunded` of the schema, which this code never stores; `overdue` appears as the view it is.
- Failing encryption of a secret's password, which aborts a sync without storing anything.
- Listing, paging and search, customer edits, `CreateAccount`, dashboards, permissions and login.
- The session time zone in which the report compares payment times with dates.
- Repositories.ImportSecrets: text is made of letters, not bytes. A customer's name is cut at 200 bytes
  (internal/postgres/router_repository.go:258-260); beyond ASCII the cut may come earlier than the model's 200 letters,
  or split a letter, and then the database refuses the name and the sync stores nothing.
- Repositories.SynchronizeRouter: the same, and a password that cannot be encrypted, which also stores nothing.
- RouterSession.Client.Run: an empty write to a connection that has just broken counts as done. Opening the connection,
  TLS, the login and the deadline, whose passing shows as a failed read or write, are left out.
- Throttle.OltThrottle.WaitTurn: time is in whole milliseconds, the clock never goes back, and a sleep ends when it
  should. The settings come from the environment; reading them, with its minimum of 50 ms for the gap
  (internal/ztecli/client.go:161-167), is not modelled.
- Throttle.MinuteCapacity: for gaps of at least a millisecond.
- ProfilePrice.WhenNamesAgree: names are ASCII; the Kelvin sign, which the expression takes for a K, is left out.
- ProfilePrice.ReadProfiles: the rate limits and identifiers of profiles, and reading the secrets.
- SessionLock.Manager.BlockFor: the second table of the manager, one throttle per key, is filled the same way and not modelled.
- LabelCache.ReturnedLabelsAreFresh: time is in whole seconds.
- Migrations.Runner.Migrate: a migration whose SQL commits on its own, the role and grant statements after the last
  file, and the reading and sorting of the directory, which is the library's; the advisory lock makes runs one at a time.
- Migrations.RefusedOrUpToDate: checksums are opaque values; that different contents have different ones is not stated.
- ZteIndex.KeyLocInjective: the three-part keys of the v2.1 registration table, which `keyLoc` maps many to one.
- ZteIndex.LabelOfSuffix: stated for the ONU-ID space only. For a TYPE-space index `splitIndex` takes the slot byte as
  the shelf as well, so it gives slot/slot/port there.
- Repositories.Summary: the schema's statuses and methods are those this code stores; months are numbers.
- ZteJoin.JoinTables: columns stay as read; cleaning serials, naming states, converting power and distance, and the
  optional fallback to the OLT's own power readings are left out, and so is collecting the tables over SNMP.
- OnuAllocator.ListUnconfigured: what the scans report is an input; running the command on each port and recognising
  serials and hints in its output are left out, as are the sorted listing of the occupied numbers and the order of
  the answer.
- ServicePort.ParseRunningConfig: the mode label, which is inferred from several places, the description, the raw
  text, the list of VLANs and the other kinds of line. Runs of blanks count as one.
- ServicePortText.FindIsTheExpression: the text is that of the words with single blanks between them, and so for the other
  lemmas about expressions; a class of service followed by two blanks and 0 counts as set to 0, in the source it does not.
- ServicePortCommand.RoundTrip: ports the command form does not mention read back as 0, as the rows say; choosing
  between the command forms on the device is left out.
- Counters.RatesTelescope: rates are real numbers, without floating-point rounding, and times are whole microseconds.
- Traffic.MergeTraffic: times and rates are reals or not finite; the cutoff is finite. The sort is the library's.
- Traffic.RateIsGrowth: the times of the counters are finite.
