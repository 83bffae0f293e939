/** The whole back office of a tenant: every transaction of the billing repositories, in any order. */
module Backoffice {
  import opened Pricing
  import opened Ledger
  import opened Plans
  import opened Billing
  import opened Sync
  import opened Report
  import opened Resync

  datatype State = State(today: Date, catalog: Catalog, dir: Directory, books: Books)

  const INITIAL := State(0, NO_CATALOG, Directory([], [], map[], 0, 0), NO_BOOKS)

  /** Committed or not, each action is one transaction; `NextDays` lets CURRENT_DATE advance. */
  datatype Action =
    | NextDays(days: nat)
    | Plan(op: PlanOp)
    | Synchronize(router: nat, profiles: seq<Profile>, secrets: seq<Secret>)
    | AddCustomer(name: string)
    | ArchiveCustomer(gone: nat)
    | Subscribe(customer: nat, pkg: nat)
    | Isolate(isolated: nat)
    | Restore(restored: nat)
    | CloseService(closed: nat)
    | GenerateInvoices(start: Date, end: Date, due: int)
    | Pay(invoice: nat, amount: int, channel: PaymentMethod, now: int)
    | CancelPayment(payment: nat)
    | CancelInvoice(cancelled: nat)

  /** `UPDATE services ... WHERE archived_at IS NULL AND status IN (from)`. */
  function ChangeStatus(d: Directory, s: nat, from: set<ServiceStatus>, to: ServiceStatus): Directory {
    if s < |d.services| && !d.services[s].archived && d.services[s].status in from
    then d.(services := d.services[s := d.services[s].(status := to)])
    else d
  }

  function AfterLedger(b: Books, r: LedgerResult): Books {
    if r.Done? then r.books else b
  }

  function LedgerStep(b: Books, a: Action): LedgerResult
    requires IsLedgerAction(a)
  {
    match a
    case Pay(i, amount, channel, now) => CreatePayment(b, i, amount, channel, now)
    case CancelPayment(p) => VoidPayment(b, p)
    case CancelInvoice(i) => VoidInvoice(b, i)
  }

  predicate IsLedgerAction(a: Action) {
    a.Pay? || a.CancelPayment? || a.CancelInvoice?
  }

  function Apply(st: State, a: Action): State
    requires References(st.dir)
    ensures References(Apply(st, a).dir)
  {
    match a
    case NextDays(days) => st.(today := st.today + days)
    case Plan(op) => st.(catalog := Step(st.catalog, op, st.today))
    case Synchronize(router, profiles, secrets) =>
      (match ApplySync(st.catalog, st.dir, router, profiles, secrets, st.today)
       case Refused => st
       case Stored(catalog, dir, _, _) =>
         SyncKeepsReferences(st, router, profiles, secrets);
         st.(catalog := catalog, dir := dir))
    case AddCustomer(name) =>
      st.(dir := st.dir.(customers := st.dir.customers + [Customer(name, false)],
                         customerCounter := st.dir.customerCounter + 1))
    case ArchiveCustomer(c) =>
      if c < |st.dir.customers| && !st.dir.customers[c].archived
      then st.(dir := st.dir.(customers := st.dir.customers[c := st.dir.customers[c].(archived := true)]))
      else st
    case Subscribe(customer, pkg) =>
      if customer < |st.dir.customers| && !st.dir.customers[customer].archived
         && pkg < |st.catalog.packages| && !st.catalog.packages[pkg].archived && st.catalog.packages[pkg].active
      then st.(dir := st.dir.(services := st.dir.services + [Service(customer, pkg, Active, false)],
                              serviceCounter := st.dir.serviceCounter + 1))
      else st
    case Isolate(s) => st.(dir := ChangeStatus(st.dir, s, {Active}, Isolated))
    case Restore(s) => st.(dir := ChangeStatus(st.dir, s, {Isolated, PendingProvisioning}, Active))
    case CloseService(s) =>
      if s < |st.dir.services| && !st.dir.services[s].archived
      then st.(dir := st.dir.(services :=
                              st.dir.services[s := st.dir.services[s].(status := Archived, archived := true)]))
      else st
    case GenerateInvoices(start, end, due) =>
      (match Generate(st.books, st.dir.services, st.catalog.prices, start, end, due)
       case RolledBack(_) => st
       case Committed(books, _, _, _) => st.(books := books))
    case Pay(_, _, _, _) => st.(books := AfterLedger(st.books, LedgerStep(st.books, a)))
    case CancelPayment(_) => st.(books := AfterLedger(st.books, LedgerStep(st.books, a)))
    case CancelInvoice(_) => st.(books := AfterLedger(st.books, LedgerStep(st.books, a)))
  }

  lemma SyncKeepsReferences(st: State, router: nat, profiles: seq<Profile>, secrets: seq<Secret>)
    requires References(st.dir)
    ensures var r := ApplySync(st.catalog, st.dir, router, profiles, secrets, st.today);
            r.Stored? ==> References(r.dir)
  {
  }

  function RunFrom(st: State, run: seq<Action>): State
    requires References(st.dir)
    ensures References(RunFrom(st, run).dir)
  {
    if run == [] then st else Apply(RunFrom(st, run[..|run| - 1]), run[|run| - 1])
  }

  // ---------------------------------------------------------------- invariant

  /** The foreign keys of the services, and the counters customers and services are numbered by. */
  ghost predicate Keyed(d: Directory, packages: nat) {
    && (forall i | 0 <= i < |d.services| :: d.services[i].customer < |d.customers| && d.services[i].pkg < packages)
    && d.customerCounter == |d.customers| && d.serviceCounter == |d.services|
  }

  /** Every table: the prices of the packages, the accounts' references, the services' keys and numbers, and the
      books. */
  ghost predicate ValidState(st: State) {
    && ValidCatalog(st.catalog, st.today)
    && References(st.dir)
    && Keyed(st.dir, |st.catalog.packages|)
    && ValidBooks(st.books)
    && (forall i | 0 <= i < |st.books.invoices| :: st.books.invoices[i].service < |st.dir.services|)
  }

  lemma OneSecretKeepsKeyed(st: SecretState, router: nat, byProfile: map<string, nat>, s: Secret, packages: nat)
    requires References(st.dir) && Keyed(st.dir, packages) && forall k :: k in byProfile ==> byProfile[k] < packages
    ensures var out := SyncOneSecret(st, router, byProfile, s).dir;
            Keyed(out, packages) && |st.dir.services| <= |out.services|
  {
  }

  lemma {:induction false} SyncKeepsKeyed(d: Directory, router: nat, byProfile: map<string, nat>, secrets: seq<Secret>,
                                          packages: nat)
    requires References(d) && Keyed(d, packages) && forall k :: k in byProfile ==> byProfile[k] < packages
    ensures var out := SyncSecrets(d, router, byProfile, secrets).dir;
            Keyed(out, packages) && |d.services| <= |out.services|
  {
    if secrets == [] {
    } else {
      SyncKeepsKeyed(d, router, byProfile, secrets[..|secrets| - 1], packages);
      OneSecretKeepsKeyed(SyncSecrets(d, router, byProfile, secrets[..|secrets| - 1]), router, byProfile,
                          secrets[|secrets| - 1], packages);
    }
  }

  lemma PricesOfValidCatalog(c: Catalog, today: Date)
    requires ValidCatalog(c, today)
    ensures PriceTableAllowed(c.prices)
  {
  }

  lemma GenerateKeepsValid(st: State, start: Date, end: Date, due: int)
    requires ValidState(st)
    ensures ValidState(Apply(st, GenerateInvoices(start, end, due)))
  {
    PricesOfValidCatalog(st.catalog, st.today);
    GenerateOutcome(st.books, st.dir.services, st.catalog.prices, start, end, due);
    var r := Generate(st.books, st.dir.services, st.catalog.prices, start, end, due);
    if r.Committed? {
      forall i | 0 <= i < |r.books.invoices|
        ensures r.books.invoices[i].service < |st.dir.services|
      {
        if i < |st.books.invoices| {
          assert r.books.invoices[i] == st.books.invoices[i];
        } else {
          assert ChargesOneOf(r.books.invoices[i],
                              Candidates(st.dir.services, st.catalog.prices, st.books.invoices, start, end),
                              start, end);
        }
      }
    }
  }

  lemma SynchronizeKeepsValid(st: State, router: nat, profiles: seq<Profile>, secrets: seq<Secret>)
    requires ValidState(st)
    ensures ValidState(Apply(st, Synchronize(router, profiles, secrets)))
  {
    var ran := SyncProfiles(st.catalog, profiles, st.today);
    if ran.Some? {
      FirstRun(st.catalog, profiles, st.today);
      PackagesGrow(st.catalog, profiles, st.today);
      MapPointsAtPackages(ran.value.catalog.packages, profiles);
      SyncKeepsKeyed(st.dir, router, ran.value.byProfile, secrets, |ran.value.catalog.packages|);
    }
  }

  /** A ledger transaction keeps the books valid and the record it found. */
  ghost predicate KeepsBooks(b: Books, out: Books) {
    && ValidBooks(out) && Preserves(b, out) && |out.invoices| == |b.invoices|
    && (forall i | 0 <= i < |b.invoices| :: out.invoices[i].service == b.invoices[i].service)
  }

  lemma PayKeepsBooks(b: Books, i: nat, amount: int, channel: PaymentMethod, now: int)
    requires ValidBooks(b) && CreatePayment(b, i, amount, channel, now).Done?
    ensures KeepsBooks(b, CreatePayment(b, i, amount, channel, now).books)
  {
    CreatePaymentKeepsValid(b, i, amount, channel, now);
  }

  lemma CancelPaymentKeepsBooks(b: Books, p: nat)
    requires ValidBooks(b) && VoidPayment(b, p).Done?
    ensures KeepsBooks(b, VoidPayment(b, p).books)
  {
    VoidPaymentKeepsValid(b, p);
    CancelPaymentPreserves(b, p);
  }

  lemma CancelPaymentPreserves(b: Books, p: nat)
    requires VoidPayment(b, p).Done?
    ensures var out := VoidPayment(b, p).books;
            && Preserves(b, out) && |out.invoices| == |b.invoices|
            && (forall i | 0 <= i < |b.invoices| :: out.invoices[i].service == b.invoices[i].service)
  {
  }

  lemma CancelInvoiceKeepsBooks(b: Books, i: nat)
    requires ValidBooks(b) && VoidInvoice(b, i).Done?
    ensures KeepsBooks(b, VoidInvoice(b, i).books)
  {
    VoidInvoiceKeepsValid(b, i);
  }

  lemma LedgerActionKeepsValid(b: Books, a: Action)
    requires ValidBooks(b) && IsLedgerAction(a)
    ensures KeepsBooks(b, AfterLedger(b, LedgerStep(b, a)))
  {
    if LedgerStep(b, a).Done? {
      match a
      case Pay(i, amount, channel, now) => PayKeepsBooks(b, i, amount, channel, now);
      case CancelPayment(p) => CancelPaymentKeepsBooks(b, p);
      case CancelInvoice(i) => CancelInvoiceKeepsBooks(b, i);
    }
  }

  lemma DirectoryActionKeepsValid(st: State, a: Action)
    requires ValidState(st)
             && (a.AddCustomer? || a.ArchiveCustomer? || a.Subscribe? || a.Isolate? || a.Restore? || a.CloseService?)
    ensures ValidState(Apply(st, a))
  {
  }

  lemma ApplyKeepsValid(st: State, a: Action)
    requires ValidState(st)
    ensures ValidState(Apply(st, a))
  {
    match a
    case NextDays(days) => DaysPass(st.catalog, st.today, st.today + days);
    case Plan(op) => StepKeepsValid(st.catalog, st.today, op, st.today);
    case Synchronize(router, profiles, secrets) => SynchronizeKeepsValid(st, router, profiles, secrets);
    case AddCustomer(_) => DirectoryActionKeepsValid(st, a);
    case ArchiveCustomer(_) => DirectoryActionKeepsValid(st, a);
    case Subscribe(_, _) => DirectoryActionKeepsValid(st, a);
    case Isolate(_) => DirectoryActionKeepsValid(st, a);
    case Restore(_) => DirectoryActionKeepsValid(st, a);
    case CloseService(_) => DirectoryActionKeepsValid(st, a);
    case GenerateInvoices(start, end, due) => GenerateKeepsValid(st, start, end, due);
    case Pay(_, _, _, _) => LedgerActionKeepsValid(st.books, a);
    case CancelPayment(_) => LedgerActionKeepsValid(st.books, a);
    case CancelInvoice(_) => LedgerActionKeepsValid(st.books, a);
  }

  lemma {:induction false} RunKeepsValid(st: State, run: seq<Action>)
    requires ValidState(st)
    ensures ValidState(RunFrom(st, run))
  {
    if run == [] {
    } else {
      RunKeepsValid(st, run[..|run| - 1]);
      ApplyKeepsValid(RunFrom(st, run[..|run| - 1]), run[|run| - 1]);
    }
  }

  // ---------------------------------------------------------------- every reachable state

  /** In every state any run reaches, each invoice's stored status, its posted sum and its total agree. */
  lemma EveryInvoiceIsSettled(run: seq<Action>, i: nat)
    ensures var b := RunFrom(INITIAL, run).books;
            i < |b.invoices| ==>
              && 0 <= PostedTo(b, i) <= b.invoices[i].total
              && (b.invoices[i].status == Void ==> PostedTo(b, i) == 0)
              && (b.invoices[i].status == Paid
                  <==> b.invoices[i].status != Void && PostedTo(b, i) == b.invoices[i].total > 0)
              && (b.invoices[i].status == Partial <==> 0 < PostedTo(b, i) < b.invoices[i].total)
  {
    RunKeepsValid(INITIAL, run);
    var b := RunFrom(INITIAL, run).books;
    if i < |b.invoices| {
      assert Settled(b.invoices[i], PostedTo(b, i));
    }
  }

  /** In every reachable state invoices, payments and receipts are numbered 1, 2, 3, ... in order of creation,
      and no service has two invoices, void ones included, for one period. */
  lemma DocumentsAreNumbered(run: seq<Action>, i: nat, j: nat)
    ensures var b := RunFrom(INITIAL, run).books;
            && b.invoiceCounter == |b.invoices| && b.paymentCounter == |b.payments|
            && b.receiptCounter == |b.receipts| == |b.payments|
            && (i < |b.invoices| ==> b.invoices[i].sequence == i + 1)
            && (i < |b.payments| ==> b.payments[i].sequence == i + 1 && b.receipts[i] == Receipt(i, i + 1))
            && (i < j < |b.invoices| ==>
                  !SamePeriod(b.invoices[j], b.invoices[i].service, b.invoices[i].periodStart, b.invoices[i].periodEnd))
  {
    RunKeepsValid(INITIAL, run);
  }

  /** In every reachable state the report's figures balance to the cent. */
  lemma BooksBalance(run: seq<Action>, from: nat, count: nat)
    ensures var b := RunFrom(INITIAL, run).books;
            && AllInvoiced(b.invoices) == AllCollected(b.payments) + Outstanding(b, |b.invoices|)
            && SumInvoiced(Monthly(b, from, count))
                == InvoicedIn(b.invoices, MonthStart(from), MonthStart(from + count))
            && SumCollected(Monthly(b, from, count))
                == CollectedIn(b.payments, MonthStart(from), MonthStart(from + count))
  {
    RunKeepsValid(INITIAL, run);
    var b := RunFrom(INITIAL, run).books;
    InvoicedIsCollectedPlusOutstanding(b);
    MonthlyRowsSumToTotals(b, from, count);
  }

  // ---------------------------------------------------------------- what no later action can change

  /** The financial record only grows: a row keeps its numbers and amounts for ever, and void is final. */
  ghost predicate Preserves(b: Books, later: Books) {
    && |b.invoices| <= |later.invoices| && |b.payments| <= |later.payments| && |b.lines| <= |later.lines|
    && |b.allocations| <= |later.allocations| && |b.receipts| <= |later.receipts|
    && (forall i | 0 <= i < |b.invoices| ::
          && later.invoices[i] == b.invoices[i].(status := later.invoices[i].status)
          && (b.invoices[i].status == Void ==> later.invoices[i].status == Void))
    && (forall k | 0 <= k < |b.payments| ::
          && later.payments[k] == b.payments[k].(status := later.payments[k].status)
          && (b.payments[k].status == Voided ==> later.payments[k].status == Voided))
    && later.lines[..|b.lines|] == b.lines
    && later.allocations[..|b.allocations|] == b.allocations
    && later.receipts[..|b.receipts|] == b.receipts
  }

  lemma PreservesTransitive(a: Books, b: Books, c: Books)
    requires Preserves(a, b) && Preserves(b, c)
    ensures Preserves(a, c)
  {
    assert c.lines[..|a.lines|] == c.lines[..|b.lines|][..|a.lines|];
    assert c.allocations[..|a.allocations|] == c.allocations[..|b.allocations|][..|a.allocations|];
    assert c.receipts[..|a.receipts|] == c.receipts[..|b.receipts|][..|a.receipts|];
  }

  lemma {:induction false} IssuePreserves(b: Books, cs: seq<Candidate>, start: Date, end: Date, due: int)
    ensures var r := Issue(b, cs, start, end, due); r.Issued? ==> Preserves(b, r.books)
  {
    if cs == [] {
    } else {
      var (init, last) := (cs[..|cs| - 1], cs[|cs| - 1]);
      IssuePreserves(b, init, start, end, due);
      var before := Issue(b, init, start, end, due);
      if before.Issued? && last.price.Some? {
        var r := InsertInvoice(before.books, last.service, last.price.value, start, end, due);
        if r.Issued? {
          PreservesTransitive(b, before.books, r.books);
        }
      }
    }
  }

  lemma OtherActionsKeepBooks(st: State, a: Action)
    requires References(st.dir) && !IsLedgerAction(a) && !a.GenerateInvoices?
    ensures Apply(st, a).books == st.books
  {
  }

  lemma LedgerPreserves(st: State, a: Action)
    requires ValidState(st) && IsLedgerAction(a)
    ensures Preserves(st.books, Apply(st, a).books)
  {
    LedgerActionKeepsValid(st.books, a);
  }

  lemma GeneratePreserves(st: State, start: Date, end: Date, due: int)
    requires References(st.dir)
    ensures Preserves(st.books, Apply(st, GenerateInvoices(start, end, due)).books)
  {
    IssuePreserves(st.books, Candidates(st.dir.services, st.catalog.prices, st.books.invoices, start, end), start, end,
                   due);
  }

  lemma ApplyPreserves(st: State, a: Action)
    requires ValidState(st)
    ensures Preserves(st.books, Apply(st, a).books)
  {
    if IsLedgerAction(a) {
      LedgerPreserves(st, a);
    } else if a.GenerateInvoices? {
      GeneratePreserves(st, a.start, a.end, a.due);
    } else {
      OtherActionsKeepBooks(st, a);
    }
  }

  /** Whatever happens after a state (price changes, syncs, further billing, voids), the rows it holds keep
      their amounts, and what is void stays void. */
  lemma {:induction false} RecordsAreFinal(st: State, run: seq<Action>)
    requires ValidState(st)
    ensures Preserves(st.books, RunFrom(st, run).books)
  {
    if run == [] {
    } else {
      var init := run[..|run| - 1];
      RecordsAreFinal(st, init);
      RunKeepsValid(st, init);
      ApplyPreserves(RunFrom(st, init), run[|run| - 1]);
      PreservesTransitive(st.books, RunFrom(st, init).books, RunFrom(st, run).books);
    }
  }

  /** Once an invoice is void, no run ever brings its service an open invoice for that period again, and any
      attempt to generate the period while the service is billable and priced is rolled back. */
  lemma VoidedPeriodIsNeverRebilled(st: State, run: seq<Action>, i: nat, due: int)
    requires ValidState(st) && i < |st.books.invoices| && st.books.invoices[i].status == Void
    ensures var inv := st.books.invoices[i];
            var later := RunFrom(st, run);
            && !Served(later.books.invoices, inv.service, inv.periodStart, inv.periodEnd)
            && inv.service < |later.dir.services|
            && (Billable(later.dir.services[inv.service])
                && PriceFor(later.catalog.prices, later.dir.services[inv.service].pkg, inv.periodStart).Some?
                ==> Generate(later.books, later.dir.services, later.catalog.prices, inv.periodStart, inv.periodEnd,
                             due).RolledBack?)
  {
    var inv := st.books.invoices[i];
    RunKeepsValid(st, run);
    RecordsAreFinal(st, run);
    var later := RunFrom(st, run);
    var b := later.books;
    assert SamePeriod(b.invoices[i], inv.service, inv.periodStart, inv.periodEnd) && b.invoices[i].status == Void;
    forall j | 0 <= j < |b.invoices| && j != i
      ensures !SamePeriod(b.invoices[j], inv.service, inv.periodStart, inv.periodEnd)
    {
      assert j < i ==> !SamePeriod(b.invoices[i], b.invoices[j].service, b.invoices[j].periodStart,
                                   b.invoices[j].periodEnd);
    }
    PricesOfValidCatalog(later.catalog, later.today);
    GenerateOutcome(b, later.dir.services, later.catalog.prices, inv.periodStart, inv.periodEnd, due);
    if Billable(later.dir.services[inv.service])
       && PriceFor(later.catalog.prices, later.dir.services[inv.service].pkg, inv.periodStart).Some? {
      assert Blocks(b, later.dir.services, later.catalog.prices, inv.service, inv.periodStart, inv.periodEnd);
    }
  }

  /** No transaction changes a price that was in force on an earlier day. */
  lemma ApplyKeepsPastPrices(st: State, a: Action, p: nat, d: Date)
    requires ValidState(st) && d < st.today
    ensures InForce(Apply(st, a).catalog.prices, p, d) == InForce(st.catalog.prices, p, d)
    ensures d < Apply(st, a).today
  {
    match a
    case Plan(op) => PastPricesAreFixed(st.catalog, st.today, op, st.today, p, d);
    case Synchronize(router, profiles, secrets) =>
      if SyncProfiles(st.catalog, profiles, st.today).Some? {
        ProfilesKeepPastPrices(st.catalog, profiles, st.today, p, d);
      }
    case _ =>
  }

  /** Whatever happens after a day, syncs of whole routers included, the price of every package on that day stays what
      it was, and so does what a period that starts on it is billed at. */
  lemma {:induction false} PastPricesAreFinal(st: State, run: seq<Action>, p: nat, d: Date)
    requires ValidState(st) && d < st.today
    ensures InForce(RunFrom(st, run).catalog.prices, p, d) == InForce(st.catalog.prices, p, d)
    ensures PriceFor(RunFrom(st, run).catalog.prices, p, d) == PriceFor(st.catalog.prices, p, d)
    ensures d < RunFrom(st, run).today
  {
    if run == [] {
    } else {
      PastPricesAreFinal(st, run[..|run| - 1], p, d);
      RunKeepsValid(st, run[..|run| - 1]);
      ApplyKeepsPastPrices(RunFrom(st, run[..|run| - 1]), run[|run| - 1], p, d);
    }
  }

  // ---------------------------------------------------------------- sync is idempotent

  /** Repeating a sync on the same day changes no table, from any reachable state and for any input: also
      with repeated usernames, and with profiles that share a package code. */
  lemma SyncIsIdempotent(st: State, router: nat, profiles: seq<Profile>, secrets: seq<Secret>)
    requires ValidState(st)
    ensures var once := Apply(st, Synchronize(router, profiles, secrets));
            Apply(once, Synchronize(router, profiles, secrets)) == once
  {
    var ran := SyncProfiles(st.catalog, profiles, st.today);
    if ran.Some? {
      SecondSyncKeepsCatalog(st.catalog, profiles, st.today);
      SecondSyncKeepsDirectory(st.dir, router, ran.value.byProfile, secrets);
    }
  }

  /** The packages a sync knows by their profiles' names. */
  function SyncedNames(st: State, profiles: seq<Profile>): map<string, nat>
    requires SyncProfiles(st.catalog, profiles, st.today).Some?
  {
    SyncProfiles(st.catalog, profiles, st.today).value.byProfile
  }

  /** What the repeat reports: nothing created or linked; something isolated or restored, as many of each, only for
      usernames that occur both enabled and disabled; a price updated only where profiles of one code disagree; every
      secret counted once. */
  lemma RepeatedSyncReport(st: State, router: nat, profiles: seq<Profile>, secrets: seq<Secret>)
    requires ValidState(st) && ApplySync(st.catalog, st.dir, router, profiles, secrets, st.today).Stored?
    ensures var first := ApplySync(st.catalog, st.dir, router, profiles, secrets, st.today);
            References(first.dir) &&
            var again := ApplySync(first.catalog, first.dir, router, profiles, secrets, st.today);
            && again.Stored?
            && again.profiles.created == 0 && again.secrets.linked == 0 && again.secrets.customersCreated == 0
            && again.secrets.isolated == again.secrets.restored
            && (DistinctUsernames(secrets) ==> Silent(again.secrets))
            && (Silent(again.secrets)
                <==> forall s :: s in secrets ==>
                    !Contradicted(first.dir, router, SyncedNames(st, profiles), secrets, s))
            && again.secrets.skipped + again.secrets.updated == |secrets|
            && (again.profiles.updated == 0 <==> PricesAgree(profiles))
  {
    var ran := SyncProfiles(st.catalog, profiles, st.today).value;
    SyncKeepsReferences(st, router, profiles, secrets);
    SecondSyncKeepsCatalog(st.catalog, profiles, st.today);
    SecondSyncReportsNoUpdate(st.catalog, profiles, st.today);
    SecondSyncKeepsDirectory(st.dir, router, ran.byProfile, secrets);
    var first := SyncSecrets(st.dir, router, ran.byProfile, secrets).dir;
    EverySecretIsCounted(first, router, ran.byProfile, secrets);
    RepeatIsSilent(st.dir, router, ran.byProfile, secrets);
    if DistinctUsernames(secrets) {
      SecondSyncIsSilent(st.dir, router, ran.byProfile, secrets);
    }
  }
}
