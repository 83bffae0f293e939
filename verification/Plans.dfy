/** Plans: packages with their price history, and the refinement of the interval table to a change log. */
module Plans {
  import opened Money
  import opened Pricing

  datatype Package = Package(code: string, name: string, active: bool, archived: bool)

  /** Rows are never deleted, so a package's id is its position. */
  datatype Catalog = Catalog(packages: seq<Package>, prices: seq<PriceRow>)

  datatype PlanError = DuplicateCode | NotFound | CheckViolation
  datatype PlanResult = Done(catalog: Catalog) | Failed(error: PlanError)

  const NO_CATALOG := Catalog([], [])

  function FindCode(packages: seq<Package>, code: string): (id: Option<nat>)
    ensures id.Some? ==> id.value < |packages| && packages[id.value].code == code
    ensures id.None? ==> forall i | 0 <= i < |packages| :: packages[i].code != code
  {
    if packages == [] then None
    else if packages[|packages| - 1].code == code then Some(|packages| - 1)
    else FindCode(packages[..|packages| - 1], code)
  }

  /** The CHECK constraints on `amount` and `tax_percent`. */
  predicate PriceAllowed(price: Price) {
    0 <= price.amount && 0 <= price.tax <= TAX_SCALE
  }

  /** What a plan is priced at: the nearest cents and ten-thousandths of a percent, refused outside what the constraints
      allow. */
  lemma PriceRecorded(price: real, tax: real)
    ensures var p := Price(Cents(price), TaxUnits(tax));
            && (PriceAllowed(p) <==> -0.5 < 100.0 * price && -0.5 < 10000.0 * tax < 1000000.5)
            && (PriceAllowed(p) ==> -0.5 <= 100.0 * price - p.amount as real < 0.5
                                    && -0.5 <= 10000.0 * tax - p.tax as real < 0.5)
  {
    RecordedNearest(price);
    RecordedNearest(tax);
    AtMostUnits(tax, TAX_SCALE);
  }

  /** Plan creation: a package with a fresh code and a price from today. */
  function CreatePlan(c: Catalog, code: string, name: string, price: Price, today: Date): PlanResult {
    if FindCode(c.packages, code).Some? then Failed(DuplicateCode)
    else if !PriceAllowed(price) then Failed(CheckViolation)
    else Done(Catalog(c.packages + [Package(code, name, true, false)],
                      c.prices + [PriceRow(|c.packages|, price, today, None)]))
  }

  /** Plan update: close the running price, then write today's. */
  function UpdatePlan(c: Catalog, id: nat, name: string, active: bool, price: Price, today: Date): PlanResult {
    if id >= |c.packages| || c.packages[id].archived then Failed(NotFound)
    else if !PriceAllowed(price) then Failed(CheckViolation)
    else Done(Catalog(c.packages[id := c.packages[id].(name := name, active := active)],
                      SetPrice(c.prices, id, price, today)))
  }

  function ArchivePlan(c: Catalog, id: nat): PlanResult {
    if id >= |c.packages| || c.packages[id].archived then Failed(NotFound)
    else Done(c.(packages := c.packages[id := c.packages[id].(archived := true, active := false)]))
  }

  /** One profile of a router sync: find or create the package, then write its price if the profile names
      one that differs from the running amount. */
  function UpsertPackage(c: Catalog, code: string, name: string): (r: (Catalog, nat))
    ensures r.1 < |r.0.packages| && r.0.packages[r.1].code == code
    ensures |c.packages| <= |r.0.packages| && r.0.packages[..|c.packages|] == c.packages && r.0.prices == c.prices
    ensures r.0 == c <==> FindCode(c.packages, code).Some?
    ensures r.0 == c ==> FindCode(c.packages, code) == Some(r.1)
    ensures r.0 != c ==> r.1 == |c.packages| && |r.0.packages| == r.1 + 1
  {
    var found := FindCode(c.packages, code);
    if found.Some? then (c, found.value)
    else (c.(packages := c.packages + [Package(code, name, true, false)]), |c.packages|)
  }

  function SyncProfile(c: Catalog, code: string, name: string, amount: Option<int>, today: Date): PlanResult {
    var (c', id) := UpsertPackage(c, code, name);
    if amount.None? then Done(c')
    else if !SyncChanges(c'.prices, id, amount.value, today) then Done(c')
    else if amount.value < 0 then Failed(CheckViolation)
    else Done(c'.(prices := SyncPrice(c'.prices, id, amount.value, today)))
  }

  // ---------------------------------------------------------------- invariant

  ghost predicate ValidCatalog(c: Catalog, today: Date) {
    && ValidHistory(c.prices, today)
    && (forall i | 0 <= i < |c.prices| :: c.prices[i].pkg < |c.packages| && PriceAllowed(c.prices[i].price))
    && (forall i, j | 0 <= i < j < |c.packages| :: c.packages[i].code != c.packages[j].code)
  }

  datatype PlanOp =
    | Create(code: string, name: string, price: Price)
    | Update(id: nat, newName: string, active: bool, newPrice: Price)
    | Archive(gone: nat)
    | Sync(profileCode: string, profileName: string, amount: Option<int>)

  function Execute(c: Catalog, op: PlanOp, today: Date): PlanResult {
    match op
    case Create(code, name, price) => CreatePlan(c, code, name, price, today)
    case Update(id, name, active, price) => UpdatePlan(c, id, name, active, price, today)
    case Archive(id) => ArchivePlan(c, id)
    case Sync(code, name, amount) => SyncProfile(c, code, name, amount, today)
  }

  /** A failed transaction is rolled back. */
  function Step(c: Catalog, op: PlanOp, today: Date): Catalog {
    var r := Execute(c, op, today);
    if r.Done? then r.catalog else c
  }

  /** Writing an allowed price for a known package keeps the history and its references. */
  lemma WriteKeepsValid(c: Catalog, was: Date, p: nat, amount: int, insertTax: int, conflictTax: Option<int>,
                        today: Date)
    requires ValidCatalog(c, was) && was <= today && p < |c.packages|
    requires PriceAllowed(Price(amount, insertTax))
             && (conflictTax.Some? ==> PriceAllowed(Price(amount, conflictTax.value)))
    ensures ValidCatalog(c.(prices := Upsert(Close(c.prices, p, today), p, amount, insertTax, conflictTax, today)),
                         today)
  {
    WriteKeepsHistory(c.prices, was, p, amount, insertTax, conflictTax, today);
    var closed := Close(c.prices, p, today);
    assert forall i | 0 <= i < |c.prices| :: closed[i].pkg == c.prices[i].pkg && closed[i].price == c.prices[i].price;
  }

  lemma StepKeepsValid(c: Catalog, was: Date, op: PlanOp, today: Date)
    requires ValidCatalog(c, was) && was <= today
    ensures ValidCatalog(Step(c, op, today), today)
  {
    match op
    case Create(code, name, price) =>
      FreshPackageHasNoPrice(c.prices, was, |c.packages|, price, today);
      if Step(c, op, today) != c {
        var extended := c.(packages := c.packages + [Package(code, name, true, false)]);
        WriteKeepsValid(extended, was, |c.packages|, price.amount, price.tax, Some(price.tax), today);
      }
    case Update(id, name, active, price) =>
      if Step(c, op, today) != c {
        var renamed := c.(packages := c.packages[id := c.packages[id].(name := name, active := active)]);
        WriteKeepsValid(renamed, was, id, price.amount, price.tax, Some(price.tax), today);
      }
    case Archive(id) =>
    case Sync(code, name, amount) =>
      SyncKeepsValid(c, was, code, name, amount, today);
  }

  lemma SyncKeepsValid(c: Catalog, was: Date, code: string, name: string, amount: Option<int>, today: Date)
    requires ValidCatalog(c, was) && was <= today
    ensures ValidCatalog(Step(c, Sync(code, name, amount), today), today)
  {
    var (c', id) := UpsertPackage(c, code, name);
    UpsertKeepsValid(c, was, code, name);
    DaysPass(c, was, today);
    DaysPass(c', was, today);
    SyncResult(c, code, name, amount, today);
    if amount.Some? && amount.value >= 0 {
      WriteKeepsValid(c', was, id, amount.value, 0, None, today);
    }
  }

  lemma DaysPass(c: Catalog, was: Date, today: Date)
    requires ValidCatalog(c, was) && was <= today
    ensures ValidCatalog(c, today)
  {
  }

  /** A profile leaves the catalog, adds its package, or writes one price too. */
  lemma SyncResult(c: Catalog, code: string, name: string, amount: Option<int>, today: Date)
    ensures var (c', id) := UpsertPackage(c, code, name);
            var out := Step(c, Sync(code, name, amount), today);
            || out == c || out == c'
            || (amount.Some? && amount.value >= 0
                && out == c'.(prices := Upsert(Close(c'.prices, id, today), id, amount.value, 0, None, today)))
  {
  }

  lemma UpsertKeepsValid(c: Catalog, was: Date, code: string, name: string)
    requires ValidCatalog(c, was)
    ensures ValidCatalog(UpsertPackage(c, code, name).0, was)
  {
  }

  // ---------------------------------------------------------------- refinement

  /** The abstract history: which price was set when, with no intervals to close or reopen. */
  datatype Change = Change(pkg: nat, quote: Quote)
  datatype Journal = Journal(packages: seq<Package>, changes: seq<Change>)

  /** The last price set for `p` on or before `d`. */
  function LastSet(changes: seq<Change>, p: nat, d: Date): Option<Quote> {
    if changes == [] then None
    else
      var last := changes[|changes| - 1];
      if last.pkg == p && last.quote.since <= d then Some(last.quote) else LastSet(changes[..|changes| - 1], p, d)
  }

  function Note(j: Journal, p: nat, price: Price, today: Date): Journal {
    j.(changes := j.changes + [Change(p, Quote(today, price))])
  }

  /** The same operations on the journal: every accepted price is appended; a sync is skipped when the
      amount is already in force, keeps the tax of a price set the same day, and otherwise resets it. */
  function StepJournal(j: Journal, op: PlanOp, today: Date): Journal {
    match op
    case Create(code, name, price) =>
      if FindCode(j.packages, code).Some? || !PriceAllowed(price) then j
      else Note(j.(packages := j.packages + [Package(code, name, true, false)]), |j.packages|, price, today)
    case Update(id, name, active, price) =>
      if id >= |j.packages| || j.packages[id].archived || !PriceAllowed(price) then j
      else Note(j.(packages := j.packages[id := j.packages[id].(name := name, active := active)]), id, price, today)
    case Archive(id) =>
      if id >= |j.packages| || j.packages[id].archived then j
      else j.(packages := j.packages[id := j.packages[id].(archived := true, active := false)])
    case Sync(code, name, amount) =>
      var (c, id) := UpsertPackage(Catalog(j.packages, []), code, name);
      var current := LastSet(j.changes, id, today);
      if amount.None? || (current.Some? && current.value.price.amount == amount.value) then j.(packages := c.packages)
      else if amount.value < 0 then j
      else Note(j.(packages := c.packages), id, Price(amount.value, TaxAfter(current, 0, None, today)), today)
  }

  /** The table and the journal quote the same price for every package on every day. */
  ghost predicate Agree(c: Catalog, j: Journal) {
    c.packages == j.packages && forall p: nat, d: Date :: InForce(c.prices, p, d) == LastSet(j.changes, p, d)
  }

  lemma FreshPackageHasNoPrice(prices: seq<PriceRow>, was: Date, p: nat, price: Price, today: Date)
    requires ValidHistory(prices, was) && was <= today
    requires forall i | 0 <= i < |prices| :: prices[i].pkg != p
    ensures prices + [PriceRow(p, price, today, None)]
            == Upsert(Close(prices, p, today), p, price.amount, price.tax, Some(price.tax), today)
  {
    assert Close(prices, p, today) == prices;
  }

  lemma NoteMeaning(c: Catalog, was: Date, j: Journal, p: nat, amount: int, insertTax: int, conflictTax: Option<int>,
                    today: Date)
    requires ValidCatalog(c, was) && was <= today && Agree(c, j)
    ensures var prices := Upsert(Close(c.prices, p, today), p, amount, insertTax, conflictTax, today);
            var tax := TaxAfter(LastSet(j.changes, p, today), insertTax, conflictTax, today);
            forall q: nat, d: Date ::
                InForce(prices, q, d) == LastSet(Note(j, p, Price(amount, tax), today).changes, q, d)
  {
    var prices := Upsert(Close(c.prices, p, today), p, amount, insertTax, conflictTax, today);
    var tax := TaxAfter(LastSet(j.changes, p, today), insertTax, conflictTax, today);
    var noted := Note(j, p, Price(amount, tax), today).changes;
    forall q: nat, d: Date
      ensures InForce(prices, q, d) == LastSet(noted, q, d)
    {
      assert noted[..|noted| - 1] == j.changes;
      if q == p && today <= d {
        WriteSetsPrice(c.prices, was, p, amount, insertTax, conflictTax, today, d);
      } else {
        WriteChangesNothingElse(c.prices, was, p, amount, insertTax, conflictTax, today, q, d);
      }
    }
  }

  lemma StepRefines(c: Catalog, was: Date, j: Journal, op: PlanOp, today: Date)
    requires ValidCatalog(c, was) && was <= today && Agree(c, j)
    ensures Agree(Step(c, op, today), StepJournal(j, op, today))
  {
    match op
    case Create(code, name, price) =>
      FreshPackageHasNoPrice(c.prices, was, |c.packages|, price, today);
      NoteMeaning(c, was, j, |c.packages|, price.amount, price.tax, Some(price.tax), today);
    case Update(id, name, active, price) =>
      NoteMeaning(c, was, j, id, price.amount, price.tax, Some(price.tax), today);
    case Archive(id) =>
    case Sync(code, name, amount) =>
      var (c', id) := UpsertPackage(c, code, name);
      if amount.Some? {
        SyncChangesMeaning(c.prices, was, id, amount.value, today);
        NoteMeaning(c, was, j, id, amount.value, 0, None, today);
      }
  }

  // ---------------------------------------------------------------- runs

  datatype Dated = Dated(day: Date, op: PlanOp)

  predicate InOrder(run: seq<Dated>) {
    forall i, j | 0 <= i < j < |run| :: run[i].day <= run[j].day
  }

  function Run(run: seq<Dated>): Catalog {
    if run == [] then NO_CATALOG
    else Step(Run(run[..|run| - 1]), run[|run| - 1].op, run[|run| - 1].day)
  }

  function RunJournal(run: seq<Dated>): Journal {
    if run == [] then Journal([], [])
    else StepJournal(RunJournal(run[..|run| - 1]), run[|run| - 1].op, run[|run| - 1].day)
  }

  /** Over any run in date order: the intervals of a package stay disjoint, and the `ORDER BY valid_from
      DESC LIMIT 1` lookup at any day returns the price last set on or before that day. */
  lemma {:induction false} IntervalsRefineJournal(run: seq<Dated>, today: Date)
    requires InOrder(run) && (run != [] ==> run[|run| - 1].day <= today)
    ensures ValidCatalog(Run(run), today)
    ensures Agree(Run(run), RunJournal(run))
  {
    if run == [] {
    } else {
      var (before, last) := (run[..|run| - 1], run[|run| - 1]);
      IntervalsRefineJournal(before, last.day);
      StepKeepsValid(Run(before), last.day, last.op, last.day);
      StepRefines(Run(before), last.day, RunJournal(before), last.op, last.day);
    }
  }

  lemma CreateKeepsPast(c: Catalog, was: Date, code: string, name: string, price: Price, today: Date, p: nat, d: Date)
    requires ValidCatalog(c, was) && was <= today && d < today
    ensures InForce(Step(c, Create(code, name, price), today).prices, p, d) == InForce(c.prices, p, d)
  {
    FreshPackageHasNoPrice(c.prices, was, |c.packages|, price, today);
    WriteChangesNothingElse(c.prices, was, |c.packages|, price.amount, price.tax, Some(price.tax), today, p, d);
  }

  lemma UpdateKeepsPast(c: Catalog, was: Date, id: nat, name: string, active: bool, price: Price, today: Date, p: nat,
                        d: Date)
    requires ValidCatalog(c, was) && was <= today && d < today
    ensures InForce(Step(c, Update(id, name, active, price), today).prices, p, d) == InForce(c.prices, p, d)
  {
    WriteChangesNothingElse(c.prices, was, id, price.amount, price.tax, Some(price.tax), today, p, d);
  }

  lemma SyncKeepsPast(c: Catalog, was: Date, code: string, name: string, amount: Option<int>, today: Date, p: nat,
                      d: Date)
    requires ValidCatalog(c, was) && was <= today && d < today
    ensures InForce(Step(c, PlanOp.Sync(code, name, amount), today).prices, p, d) == InForce(c.prices, p, d)
  {
    SyncResult(c, code, name, amount, today);
    if amount.Some? {
      WriteChangesNothingElse(c.prices, was, UpsertPackage(c, code, name).1, amount.value, 0, None, today, p, d);
    }
  }

  /** No operation rewrites the past: the price in force on any day before it runs stays what it was. */
  lemma PastPricesAreFixed(c: Catalog, was: Date, op: PlanOp, today: Date, p: nat, d: Date)
    requires ValidCatalog(c, was) && was <= today && d < today
    ensures InForce(Step(c, op, today).prices, p, d) == InForce(c.prices, p, d)
  {
    match op
    case Create(code, name, price) => CreateKeepsPast(c, was, code, name, price, today, p, d);
    case Update(id, name, active, price) => UpdateKeepsPast(c, was, id, name, active, price, today, p, d);
    case Archive(id) =>
    case Sync(code, name, amount) => SyncKeepsPast(c, was, code, name, amount, today, p, d);
  }
}
