/** The repositories over their tables: each method is one transaction, proved against the functions of the
    other modules. A transaction works on local copies and stores them when it commits. */
module Repositories {
  import opened Money
  import opened Pricing
  import opened Ledger
  import opened Plans
  import opened Billing
  import opened Sync
  import opened Report
  import opened Text

  /** The keys of `tenant_counters`. */
  datatype CounterKey = InvoiceNumber | PaymentNumber | ReceiptNumber | CustomerNumber | ServiceNumber

  /** The tables of one tenant. */
  class Database {
    var packages: seq<Package>
    var prices: seq<PriceRow>
    var customers: seq<Customer>
    var services: seq<Service>
    var accounts: map<AccountKey, Account>
    var invoices: seq<Invoice>
    var lines: seq<Line>
    var payments: seq<Payment>
    var allocations: seq<Allocation>
    var receipts: seq<Receipt>
    var counters: map<CounterKey, nat>

    function Counter(key: CounterKey): nat
      reads this
    {
      if key in counters then counters[key] else 0
    }

    function CatalogView(): Catalog
      reads this
    {
      Catalog(packages, prices)
    }

    function BooksView(): Books
      reads this
    {
      Books(invoices, lines, payments, allocations, receipts,
                  Counter(InvoiceNumber), Counter(PaymentNumber), Counter(ReceiptNumber))
    }

    function DirView(): Directory
      reads this
    {
      Directory(customers, services, accounts, Counter(CustomerNumber), Counter(ServiceNumber))
    }

    constructor ()
      ensures CatalogView() == NO_CATALOG && BooksView() == NO_BOOKS && DirView() == Directory([], [], map[], 0, 0)
    {
      packages, prices, customers, services, accounts := [], [], [], [], map[];
      invoices, lines, payments, allocations, receipts, counters := [], [], [], [], [], map[];
    }

    /** `INSERT INTO tenant_counters ... ON CONFLICT DO UPDATE ... RETURNING counter_value`. */
    method NextNumber(key: CounterKey) returns (value: nat)
      modifies this`counters
      ensures value == old(Counter(key)) + 1 && Counter(key) == value
      ensures forall other :: other != key ==> Counter(other) == old(Counter(other))
    {
      value := Counter(key) + 1;
      counters := counters[key := value];
    }
  }

  /** Insert a payment with its allocation and receipt, each under its next number. */
  method InsertPayment(db: Database, i: nat, amount: int, channel: PaymentMethod, now: int)
    modifies db
    ensures db.BooksView() == old(db.BooksView()).(
              paymentCounter := old(db.Counter(PaymentNumber)) + 1,
              receiptCounter := old(db.Counter(ReceiptNumber)) + 1,
              payments := old(db.payments)
                  + [Payment(old(db.Counter(PaymentNumber)) + 1, amount, channel, Posted, now)],
              allocations := old(db.allocations) + [Allocation(|old(db.payments)|, i, amount)],
              receipts := old(db.receipts) + [Receipt(|old(db.payments)|, old(db.Counter(ReceiptNumber)) + 1)])
    ensures db.CatalogView() == old(db.CatalogView()) && db.DirView() == old(db.DirView())
  {
    var paymentSequence := db.NextNumber(PaymentNumber);
    var receiptSequence := db.NextNumber(ReceiptNumber);
    var paymentId := |db.payments|;
    db.payments := db.payments + [Payment(paymentSequence, amount, channel, Posted, now)];
    db.allocations := db.allocations + [Allocation(paymentId, i, amount)];
    db.receipts := db.receipts + [Receipt(paymentId, receiptSequence)];
  }

  /** Post a payment: the invoice must be open, the rounded amount positive and within what is owed. */
  method CreatePayment(db: Database, i: nat, rawAmount: real, channel: PaymentMethod, now: int)
    returns (error: Option<LedgerError>)
    modifies db
    ensures var r := Ledger.CreatePayment(old(db.BooksView()), i, Cents(rawAmount), channel, now);
            if r.Done? then error == None && db.BooksView() == r.books
            else error == Some(r.error) && db.BooksView() == old(db.BooksView())
    ensures error == Some(LedgerError.NotFound) <==> i >= |old(db.invoices)|
    ensures error == Some(InvoiceClosed)
            <==> i < |old(db.invoices)| && (old(db.invoices)[i].status == Void || old(db.invoices)[i].status == Paid)
    ensures ValidBooks(old(db.BooksView())) ==>
              RecordedInCents(old(db.BooksView()), db.BooksView(), error == None, i, rawAmount, channel, now)
    ensures db.CatalogView() == old(db.CatalogView()) && db.DirView() == old(db.DirView())
  {
    if ValidBooks(db.BooksView()) {
      PaymentRecorded(db.BooksView(), i, rawAmount, channel, now);
    }
    error := PostPayment(db, i, Cents(rawAmount), channel, now);
  }

  method PostPayment(db: Database, i: nat, amount: int, channel: PaymentMethod, now: int)
    returns (error: Option<LedgerError>)
    modifies db
    ensures var r := Ledger.CreatePayment(old(db.BooksView()), i, amount, channel, now);
            if r.Done? then error == None && db.BooksView() == r.books
            else error == Some(r.error) && db.BooksView() == old(db.BooksView())
    ensures db.CatalogView() == old(db.CatalogView()) && db.DirView() == old(db.DirView())
  {
    if i >= |db.invoices| {
      return Some(LedgerError.NotFound);
    }
    var outstanding := db.invoices[i].total - PostedTo(db.BooksView(), i);
    if db.invoices[i].status == Void || db.invoices[i].status == Paid {
      return Some(InvoiceClosed);
    }
    if !(amount <= outstanding && amount > 0) {
      return Some(OverAllocated);
    }
    InsertPayment(db, i, amount, channel, now);
    RecomputeStatus(db, i);
    return None;
  }

  method RecomputeStatus(db: Database, i: nat)
    requires i < |db.invoices|
    modifies db`invoices
    ensures db.BooksView() == Recompute(old(db.BooksView()), i)
    ensures db.CatalogView() == old(db.CatalogView()) && db.DirView() == old(db.DirView())
  {
    var paid := PostedTo(db.BooksView(), i);
    var inv := db.invoices[i];
    if inv.status != Void {
      var status := if paid >= inv.total then Paid else if paid > 0 then Partial else Unpaid;
      db.invoices := db.invoices[i := inv.(status := status)];
    }
  }

  method CancelPayment(db: Database, p: nat) returns (error: Option<LedgerError>)
    modifies db
    ensures var r := VoidPayment(old(db.BooksView()), p);
            if r.Done? then error == None && db.BooksView() == r.books
            else error == Some(r.error) && db.BooksView() == old(db.BooksView())
    ensures error == Some(LedgerError.NotFound)
            <==> p >= |old(db.payments)| || forall a :: a in old(db.allocations) ==> a.payment != p
    ensures error == Some(InvalidState)
            <==> p < |old(db.payments)| && old(db.payments)[p].status == Voided
                 && exists a :: a in old(db.allocations) && a.payment == p
    ensures error == None ==> db.payments == old(db.payments)[p := old(db.payments)[p].(status := Voided)]
    ensures db.allocations == old(db.allocations) && db.receipts == old(db.receipts) && db.lines == old(db.lines)
    ensures db.CatalogView() == old(db.CatalogView()) && db.DirView() == old(db.DirView())
  {
    var k := AllocationOf(db.allocations, p);
    if p >= |db.payments| || k.None? {
      return Some(LedgerError.NotFound);
    }
    if db.payments[p].status != Posted {
      return Some(InvalidState);
    }
    db.payments := db.payments[p := db.payments[p].(status := Voided)];
    var i := db.allocations[k.value].invoice;
    if i < |db.invoices| {
      RecomputeStatus(db, i);
    }
    return None;
  }

  predicate PostedAt(payments: seq<Payment>, p: nat) {
    p < |payments| && payments[p].status == Posted
  }

  method CancelInvoice(db: Database, i: nat) returns (error: Option<LedgerError>)
    modifies db`invoices
    ensures var r := VoidInvoice(old(db.BooksView()), i);
            if r.Done? then error == None && db.BooksView() == r.books
            else error == Some(r.error) && db.BooksView() == old(db.BooksView())
    ensures error == Some(LedgerError.NotFound) <==> i >= |old(db.invoices)|
    ensures error == Some(InvalidState)
            <==> i < |old(db.invoices)| && (old(db.invoices)[i].status == Void
                                            || exists a :: a in db.allocations && a.invoice == i
                                                && PostedAt(db.payments, a.payment))
    ensures error == None ==> db.invoices == old(db.invoices)[i := old(db.invoices)[i].(status := Void)]
  {
    if i >= |db.invoices| {
      return Some(LedgerError.NotFound);
    }
    if db.invoices[i].status == Void || !NoPostedRows(db.BooksView(), i) {
      return Some(InvalidState);
    }
    db.invoices := db.invoices[i := db.invoices[i].(status := Void)];
    return None;
  }

  /** Generate the invoices of a period; the first refused row rolls the whole run back. */
  method GenerateInvoices(db: Database, start: Date, end: Date, due: int)
    returns (violation: Option<Violation>, created: nat, skipped: nat, noPrice: nat)
    modifies db
    ensures var r := Generate(old(db.BooksView()), old(db.services), old(db.prices), start, end, due);
            match r
            case Committed(books, c, s, n) =>
              violation == None && db.BooksView() == books && created == c && skipped == s && noPrice == n
            case RolledBack(cause) => violation == Some(cause) && db.BooksView() == old(db.BooksView())
    ensures db.CatalogView() == old(db.CatalogView()) && db.DirView() == old(db.DirView())
  {
    var candidates := Candidates(db.services, db.prices, db.invoices, start, end);
    skipped := AlreadyBilled(db.invoices, db.services, start, end);
    var books;
    violation, books, created, noPrice := IssueInvoices(db.BooksView(), candidates, start, end, due);
    if violation.Some? {
      return violation, 0, 0, 0;
    }
    IssueFrame(db.BooksView(), candidates, start, end, due);
    db.invoices, db.lines := books.invoices, books.lines;
    db.counters := db.counters[InvoiceNumber := books.invoiceCounter];
  }

  /** The loop over the candidates, within the transaction. */
  method IssueInvoices(before: Books, candidates: seq<Candidate>, start: Date, end: Date, due: int)
    returns (violation: Option<Violation>, books: Books, created: nat, noPrice: nat)
    ensures match Issue(before, candidates, start, end, due)
            case Issued(b, c, n) => violation == None && books == b && created == c && noPrice == n
            case Rejected(cause) => violation == Some(cause)
  {
    violation, books, created, noPrice := None, before, 0, 0;
    for k := 0 to |candidates|
      invariant Issue(before, candidates[..k], start, end, due) == Issued(books, created, noPrice)
    {
      var c := candidates[k];
      assert candidates[..k + 1][..k] == candidates[..k];
      if c.price.None? {
        noPrice := noPrice + 1;
      } else {
        var inserted := InsertInvoice(books, c.service, c.price.value, start, end, due);
        if inserted.Rejected? {
          RejectionStands(before, candidates, k + 1, start, end, due);
          return Some(inserted.cause), before, 0, 0;
        }
        books := inserted.books;
        created := created + 1;
      }
    }
    assert candidates[..|candidates|] == candidates;
  }

  lemma {:induction false} IssueFrame(b: Books, candidates: seq<Candidate>, start: Date, end: Date, due: int)
    ensures var r := Issue(b, candidates, start, end, due);
            r.Issued? ==>
              r.books == b.(invoices := r.books.invoices, lines := r.books.lines,
                            invoiceCounter := r.books.invoiceCounter)
  {
    if candidates == [] {
    } else {
      IssueFrame(b, candidates[..|candidates| - 1], start, end, due);
    }
  }

  lemma {:induction false} RejectionStands(b: Books, candidates: seq<Candidate>, k: nat, start: Date, end: Date,
                                           due: int)
    requires k <= |candidates| && Issue(b, candidates[..k], start, end, due).Rejected?
    ensures Issue(b, candidates, start, end, due) == Issue(b, candidates[..k], start, end, due)
    decreases |candidates|
  {
    if k < |candidates| {
      var init := candidates[..|candidates| - 1];
      assert init[..k] == candidates[..k];
      RejectionStands(b, init, k, start, end, due);
    } else {
      assert candidates[..k] == candidates;
    }
  }

  /** One profile: find or create its package, then close the running price and write today's if the amount
      differs. */
  method ImportProfile(st: ProfileState, profile: Profile, today: Date) returns (accepted: bool, out: ProfileState)
    ensures accepted <==> !ProfileRefused(st.catalog, profile, today)
    ensures accepted ==> out == SyncOneProfile(st, profile, today)
  {
    accepted := true;
    var (catalog, packageId) := UpsertPackage(st.catalog, PackageCode(profile.name), profile.name);
    var isNew := catalog != st.catalog;
    var tally := st.tally;
    if isNew {
      tally := tally.(created := tally.created + 1);
    }
    if profile.amount.None? {
      tally := tally.(noPrice := tally.noPrice + 1);
    } else if SyncChanges(catalog.prices, packageId, profile.amount.value, today) {
      if profile.amount.value < 0 {
        return false, st;
      }
      var closed := Close(catalog.prices, packageId, today);
      catalog := catalog.(prices := Upsert(closed, packageId, profile.amount.value, 0, None, today));
      if !isNew {
        tally := tally.(updated := tally.updated + 1);
      }
    }
    out := ProfileState(catalog, st.byProfile[Lower(profile.name) := packageId], tally);
  }

  lemma OneProfileMore(before: Catalog, profiles: seq<Profile>, k: nat, st: ProfileState, today: Date)
    requires k < |profiles| && SyncProfiles(before, profiles[..k], today) == Some(st)
    ensures SyncProfiles(before, profiles[..k + 1], today)
            == if ProfileRefused(st.catalog, profiles[k], today) then None
               else Some(SyncOneProfile(st, profiles[k], today))
  {
    assert profiles[..k + 1][..k] == profiles[..k];
  }

  /** The profile loop of the sync, with the name map and the tally it builds. */
  method ImportProfiles(before: Catalog, profiles: seq<Profile>, today: Date) returns (accepted: bool, st: ProfileState)
    ensures accepted <==> SyncProfiles(before, profiles, today).Some?
    ensures accepted ==> SyncProfiles(before, profiles, today).value == st
  {
    accepted, st := true, ProfileState(before, map[], ProfileTally(0, 0, 0));
    for k := 0 to |profiles|
      invariant accepted && SyncProfiles(before, profiles[..k], today) == Some(st)
    {
      OneProfileMore(before, profiles, k, st, today);
      accepted, st := ImportProfile(st, profiles[k], today);
      if !accepted {
        RefusalStands(before, profiles, k + 1, today);
        return;
      }
    }
    assert profiles[..|profiles|] == profiles;
  }

  /** The status of a service follows the secret, for active and isolated services only. */
  method AlignServiceStatus(service: Service, disabled: bool) returns (out: Service, changed: nat)
    ensures out == Aligned(service, disabled) && changed == if out != service then 1 else 0
    ensures disabled && service.status == Active && !service.archived ==>
              out == Service(service.customer, service.pkg, Isolated, false)
    ensures !disabled && service.status == Isolated && !service.archived ==>
              out == Service(service.customer, service.pkg, Active, false)
    ensures service.archived || service.status != (if disabled then Active else Isolated) ==> out == service
  {
    out, changed := service, 0;
    if disabled {
      if !service.archived && service.status == Active {
        out, changed := service.(status := Isolated), 1;
      }
    } else if !service.archived && service.status == Isolated {
      out, changed := service.(status := Active), 1;
    }
  }

  /** One secret whose account exists: refresh the account, then the package and status of its service. */
  method RefreshAccount(st: SecretState, key: AccountKey, packageId: nat, secret: Secret) returns (out: SecretState)
    requires key in st.dir.accounts && st.dir.accounts[key].service < |st.dir.services|
    ensures out == UpdateAccount(st, key, packageId, secret)
  {
    var account := st.dir.accounts[key];
    var service, changed :=
        AlignServiceStatus(Repackaged(st.dir.services[account.service], packageId), secret.disabled);
    var dir := st.dir.(accounts := st.dir.accounts[key := account.(externalId := secret.externalId)]);
    dir := dir.(services := dir.services[account.service := service]);
    var tally := st.tally.(updated := st.tally.updated + 1);
    if secret.disabled {
      tally := tally.(isolated := tally.isolated + changed);
    } else {
      tally := tally.(restored := tally.restored + changed);
    }
    out := SecretState(dir, tally);
  }

  /** One secret without an account: find or create the customer, then a service and the account. */
  method OpenAccount(st: SecretState, key: AccountKey, packageId: nat, secret: Secret) returns (out: SecretState)
    ensures out == LinkAccount(st, key, packageId, secret)
  {
    var (dir, tally) := (st.dir, st.tally);
    var found := FindCustomer(dir.customers, CustomerName(secret));
    var customerId := if found.Some? then found.value else |dir.customers|;
    if found.None? {
      dir := dir.(customers := dir.customers + [Customer(CustomerName(secret), false)],
                  customerCounter := dir.customerCounter + 1);
      tally := tally.(customersCreated := tally.customersCreated + 1);
    }
    var status := if secret.disabled then Isolated else Active;
    var serviceId := |dir.services|;
    dir := dir.(services := dir.services + [Service(customerId, packageId, status, false)],
                serviceCounter := dir.serviceCounter + 1);
    dir := dir.(accounts := dir.accounts[key := Account(serviceId, secret.externalId)]);
    out := SecretState(dir, tally.(linked := tally.linked + 1));
  }

  /** The secret loop of the sync. */
  method ImportSecrets(before: Directory, router: nat, packageByProfile: map<string, nat>, secrets: seq<Secret>)
    returns (st: SecretState)
    requires References(before)
    ensures st == SyncSecrets(before, router, packageByProfile, secrets)
  {
    st := SecretState(before, SecretTally(0, 0, 0, 0, 0, 0));
    for k := 0 to |secrets|
      invariant st == SyncSecrets(before, router, packageByProfile, secrets[..k])
    {
      var secret := secrets[k];
      assert secrets[..k + 1][..k] == secrets[..k];
      var key := AccountKey(router, secret.username);
      if Lower(secret.profileName) !in packageByProfile {
        st := st.(tally := st.tally.(skipped := st.tally.skipped + 1));
      } else if key in st.dir.accounts {
        st := RefreshAccount(st, key, packageByProfile[Lower(secret.profileName)], secret);
      } else {
        st := OpenAccount(st, key, packageByProfile[Lower(secret.profileName)], secret);
      }
    }
    assert secrets[..|secrets|] == secrets;
  }

  method StoreSync(db: Database, catalog: Catalog, dir: Directory)
    modifies db
    ensures db.CatalogView() == catalog && db.DirView() == dir && db.BooksView() == old(db.BooksView())
  {
    db.packages, db.prices := catalog.packages, catalog.prices;
    db.customers, db.services, db.accounts := dir.customers, dir.services, dir.accounts;
    db.counters := db.counters[CustomerNumber := dir.customerCounter][ServiceNumber := dir.serviceCounter];
  }

  /** Router sync in one transaction: profiles first, then secrets. */
  method SynchronizeRouter(db: Database, router: nat, profiles: seq<Profile>, secrets: seq<Secret>, today: Date)
    returns (stored: bool, tally: ProfileTally, counts: SecretTally)
    requires References(db.DirView())
    modifies db
    ensures var r := ApplySync(old(db.CatalogView()), old(db.DirView()), router, profiles, secrets, today);
            if r.Stored? then stored && db.CatalogView() == r.catalog && db.DirView() == r.dir && tally == r.profiles
                && counts == r.secrets
            else !stored && db.CatalogView() == old(db.CatalogView()) && db.DirView() == old(db.DirView())
    ensures db.BooksView() == old(db.BooksView())
  {
    var imported;
    stored, imported := ImportProfiles(db.CatalogView(), profiles, today);
    tally, counts := imported.tally, SecretTally(0, 0, 0, 0, 0, 0);
    if stored {
      var linked := ImportSecrets(db.DirView(), router, imported.byProfile, secrets);
      counts := linked.tally;
      StoreSync(db, imported.catalog, linked.dir);
    }
  }

  lemma {:induction false} RefusalStands(c: Catalog, profiles: seq<Profile>, k: nat, today: Date)
    requires k <= |profiles| && SyncProfiles(c, profiles[..k], today).None?
    ensures SyncProfiles(c, profiles, today).None?
    decreases |profiles|
  {
    if k < |profiles| {
      var init := profiles[..|profiles| - 1];
      assert init[..k] == profiles[..k];
      RefusalStands(c, init, k, today);
    } else {
      assert profiles[..k] == profiles;
    }
  }

  /** Plan creation and update: on success today's price, and every later day's, is the rounded one given,
      and no earlier day's price moves. */
  method CreatePlan(db: Database, code: string, name: string, price: real, tax: real, ghost was: Date, today: Date)
    returns (error: Option<PlanError>)
    requires ValidCatalog(db.CatalogView(), was) && was <= today
    modifies db`packages, db`prices
    ensures ValidCatalog(db.CatalogView(), today)
    ensures db.CatalogView()
            == Step(old(db.CatalogView()), Create(code, name, Price(Cents(price), TaxUnits(tax))), today)
    ensures error == None ==> forall d | today <= d ::
              InForce(db.prices, |old(db.packages)|, d) == Some(Quote(today, Price(Cents(price), TaxUnits(tax))))
    ensures error == None ==> forall d | today <= d ::
              var q := InForce(db.prices, |old(db.packages)|, d);
              && q.Some? && q.value.since == today
              && -0.5 <= 100.0 * price - q.value.price.amount as real < 0.5
              && -0.5 <= 10000.0 * tax - q.value.price.tax as real < 0.5
    ensures error == None ==>
              && db.packages == old(db.packages) + [Package(code, name, true, false)]
              && (forall p: nat, d | p != |old(db.packages)| || d < today ::
                  InForce(db.prices, p, d) == InForce(old(db.prices), p, d))
    ensures error == Some(DuplicateCode) <==> exists p :: p in old(db.packages) && p.code == code
    ensures error == Some(CheckViolation) <==>
              && (forall i | 0 <= i < |old(db.packages)| :: old(db.packages)[i].code != code)
              && !(-0.5 < 100.0 * price && -0.5 < 10000.0 * tax < 1000000.5)
    ensures error.Some? ==> db.CatalogView() == old(db.CatalogView())
  {
    var rounded := Price(Cents(price), TaxUnits(tax));
    PriceRecorded(price, tax);
    ghost var before := db.CatalogView();
    StepKeepsValid(before, was, Create(code, name, rounded), today);
    if FindCode(db.packages, code).Some? {
      return Some(DuplicateCode);
    }
    if !PriceAllowed(rounded) {
      return Some(CheckViolation);
    }
    var id := |db.packages|;
    db.packages := db.packages + [Package(code, name, true, false)];
    db.prices := db.prices + [PriceRow(id, rounded, today, None)];
    forall d | today <= d
      ensures InForce(db.prices, id, d) == Some(Quote(today, rounded))
    {
      TheOnlyCover(db.prices, today, id, d, |before.prices|);
    }
    FreshPackageHasNoPrice(before.prices, was, id, rounded, today);
    forall p: nat, d | p != id || d < today
      ensures InForce(db.prices, p, d) == InForce(before.prices, p, d)
    {
      WriteChangesNothingElse(before.prices, was, id, rounded.amount, rounded.tax, Some(rounded.tax), today, p, d);
    }
    return None;
  }

  method UpdatePlan(db: Database, id: nat, name: string, active: bool, price: real, tax: real, ghost was: Date,
                    today: Date)
    returns (error: Option<PlanError>)
    requires ValidCatalog(db.CatalogView(), was) && was <= today
    modifies db`packages, db`prices
    ensures ValidCatalog(db.CatalogView(), today)
    ensures db.CatalogView()
            == Step(old(db.CatalogView()), Update(id, name, active, Price(Cents(price), TaxUnits(tax))), today)
    ensures error == None ==>
              && (forall d | today <= d ::
                  InForce(db.prices, id, d) == Some(Quote(today, Price(Cents(price), TaxUnits(tax)))))
              && (forall p: nat, d | p != id || d < today :: InForce(db.prices, p, d) == InForce(old(db.prices), p, d))
    ensures error == None ==> forall d | today <= d ::
              var q := InForce(db.prices, id, d);
              && q.Some? && q.value.since == today
              && -0.5 <= 100.0 * price - q.value.price.amount as real < 0.5
              && -0.5 <= 10000.0 * tax - q.value.price.tax as real < 0.5
    ensures error == None ==>
              && id < |old(db.packages)|
              && db.packages == old(db.packages)[id := Package(old(db.packages)[id].code, name, active, false)]
    ensures error == Some(PlanError.NotFound) <==> id >= |old(db.packages)| || old(db.packages)[id].archived
    ensures error == Some(CheckViolation) <==>
              && id < |old(db.packages)| && !old(db.packages)[id].archived
              && !(-0.5 < 100.0 * price && -0.5 < 10000.0 * tax < 1000000.5)
    ensures error.Some? ==> db.CatalogView() == old(db.CatalogView())
  {
    var rounded := Price(Cents(price), TaxUnits(tax));
    PriceRecorded(price, tax);
    ghost var before := db.CatalogView();
    StepKeepsValid(before, was, Update(id, name, active, rounded), today);
    if id >= |db.packages| || db.packages[id].archived {
      return Some(PlanError.NotFound);
    }
    if !PriceAllowed(rounded) {
      return Some(CheckViolation);
    }
    db.packages := db.packages[id := db.packages[id].(name := name, active := active)];
    db.prices := Close(db.prices, id, today);
    db.prices := Upsert(db.prices, id, rounded.amount, rounded.tax, Some(rounded.tax), today);
    forall d | today <= d
      ensures InForce(db.prices, id, d) == Some(Quote(today, rounded))
    {
      WriteSetsPrice(before.prices, was, id, rounded.amount, rounded.tax, Some(rounded.tax), today, d);
    }
    forall p: nat, d | p != id || d < today
      ensures InForce(db.prices, p, d) == InForce(before.prices, p, d)
    {
      WriteChangesNothingElse(before.prices, was, id, rounded.amount, rounded.tax, Some(rounded.tax), today, p, d);
    }
    return None;
  }

  /** The report of the months `from` to `to`: the monthly rows and both breakdowns add up to the totals, and in valid
      books what was ever invoiced is what was ever collected and what is outstanding, part of it overdue. */
  method Summary(db: Database, from: nat, to: nat, now: int) returns (r: ReportSummary)
    requires from <= to
    ensures r == SummaryOf(db.BooksView(), from, to, now)
    ensures r.monthly == Monthly(db.BooksView(), from, to + 1 - from)
    ensures r.invoiced == SumInvoiced(r.monthly) && r.collected == SumCollected(r.monthly)
    ensures var (lo, hi) := (MonthStart(from), MonthStart(to + 1));
            && r.byStatus == StatusRows(db.invoices, STATUS_ORDER, lo, hi, now)
            && r.byMethod == MethodRows(db.payments, METHOD_ORDER, lo, hi)
    ensures r.invoiced == RowsAmount(r.byStatus, {ShownVoid}) && r.invoicedCount == RowsCount(r.byStatus, {ShownVoid})
    ensures r.collected == RowsAmount(r.byMethod, {}) && r.collectedCount == RowsCount(r.byMethod, {})
    ensures r.overdueCount == OverdueCount(db.invoices, now)
    ensures ValidBooks(db.BooksView()) ==>
              && r.outstanding == AllInvoiced(db.invoices) - AllCollected(db.payments)
              && r.overdue == Overdue(db.BooksView(), |db.invoices|, now) && 0 <= r.overdue <= r.outstanding
              && (r.overdue > 0 <==> exists i | 0 <= i < |db.invoices| :: OverdueAt(db.BooksView(), i, now))
  {
    var b := db.BooksView();
    var (lo, hi) := (MonthStart(from), MonthStart(to + 1));
    var rows := [];
    for month := from to to + 1
      invariant rows == Monthly(b, from, month - from)
    {
      rows := rows + [MonthRow(b, month)];
    }
    r := ReportSummary(
      InvoicedIn(b.invoices, lo, hi), InvoicedCount(b.invoices, lo, hi),
      CollectedIn(b.payments, lo, hi), CollectedCount(b.payments, lo, hi),
      Outstanding(b, |b.invoices|), Overdue(b, |b.invoices|, now), OverdueCount(b.invoices, now),
      StatusRows(b.invoices, STATUS_ORDER, lo, hi, now), MethodRows(b.payments, METHOD_ORDER, lo, hi), rows);
    SummaryAddsUp(b, from, to, now);
    if ValidBooks(b) {
      SummaryBalances(b, from, to, now);
    }
  }

  lemma SummaryAddsUp(b: Books, from: nat, to: nat, now: int)
    requires from <= to
    ensures var r := SummaryOf(b, from, to, now);
            && r.invoiced == SumInvoiced(r.monthly) && r.collected == SumCollected(r.monthly)
            && r.invoiced == RowsAmount(r.byStatus, {ShownVoid})
            && r.invoicedCount == RowsCount(r.byStatus, {ShownVoid})
            && r.collected == RowsAmount(r.byMethod, {}) && r.collectedCount == RowsCount(r.byMethod, {})
  {
    var (lo, hi) := (MonthStart(from), MonthStart(to + 1));
    MonthlyRowsSumToTotals(b, from, to + 1 - from);
    BreakdownSumsToInvoiced(b.invoices, lo, hi, now);
    MethodsSumToCollected(b.payments, lo, hi);
  }

  lemma SummaryBalances(b: Books, from: nat, to: nat, now: int)
    requires from <= to && ValidBooks(b)
    ensures var r := SummaryOf(b, from, to, now);
            && r.outstanding == AllInvoiced(b.invoices) - AllCollected(b.payments)
            && r.overdue == Overdue(b, |b.invoices|, now) && 0 <= r.overdue <= r.outstanding
            && (r.overdue > 0 <==> exists i | 0 <= i < |b.invoices| :: OverdueAt(b, i, now))
  {
    InvoicedIsCollectedPlusOutstanding(b);
    OverdueWithinOutstanding(b, |b.invoices|, now);
    OverdueIsOwed(b, |b.invoices|, now);
  }
}
