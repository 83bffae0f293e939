/** Monthly invoice generation. */
module Billing {
  import opened Money
  import opened Pricing
  import opened Ledger
  import opened Plans

  datatype ServiceStatus = PendingProvisioning | Active | Isolated | ProvisioningFailed | Archived
  datatype Service = Service(customer: nat, pkg: nat, status: ServiceStatus, archived: bool)

  predicate Billable(s: Service) {
    !s.archived && (s.status == Active || s.status == Isolated)
  }

  /** The service already has an invoice for the period that is not void. */
  predicate Served(invoices: seq<Invoice>, service: nat, start: Date, end: Date) {
    exists i :: 0 <= i < |invoices| && SamePeriod(invoices[i], service, start, end) && invoices[i].status != Void
  }

  /** The service has any invoice for the period, void ones included: what the UNIQUE constraint of the
      `invoices` table looks at. */
  predicate Taken(invoices: seq<Invoice>, service: nat, start: Date, end: Date) {
    exists i :: 0 <= i < |invoices| && SamePeriod(invoices[i], service, start, end)
  }

  datatype Candidate = Candidate(service: nat, price: Option<Price>)

  function PriceFor(prices: seq<PriceRow>, pkg: nat, day: Date): Option<Price> {
    match InForce(prices, pkg, day)
    case Some(q) => Some(q.price)
    case None => None
  }

  predicate IsCandidate(c: Candidate, services: seq<Service>, prices: seq<PriceRow>, invoices: seq<Invoice>,
                        start: Date, end: Date) {
    && c.service < |services| && Billable(services[c.service])
    && !Served(invoices, c.service, start, end)
    && c.price == PriceFor(prices, services[c.service].pkg, start)
  }

  /** The billable services without an open invoice for the period, oldest first, each with the price its
      package has on the first day. */
  function Candidates(services: seq<Service>, prices: seq<PriceRow>, invoices: seq<Invoice>, start: Date, end: Date)
    : (out: seq<Candidate>)
    ensures forall k | 0 <= k < |out| :: IsCandidate(out[k], services, prices, invoices, start, end)
  {
    if services == [] then []
    else
      var n := |services| - 1;
      var init := Candidates(services[..n], prices, invoices, start, end);
      if Billable(services[n]) && !Served(invoices, n, start, end)
      then init + [Candidate(n, PriceFor(prices, services[n].pkg, start))]
      else init
  }

  predicate CountsAsBilled(inv: Invoice, services: seq<Service>, start: Date, end: Date) {
    && inv.periodStart == start && inv.periodEnd == end && inv.status != Void
    && inv.service < |services| && Billable(services[inv.service])
  }

  /** The count reported as skipped. */
  function AlreadyBilled(invoices: seq<Invoice>, services: seq<Service>, start: Date, end: Date): nat {
    if invoices == [] then 0
    else
      var (init, last) := (invoices[..|invoices| - 1], invoices[|invoices| - 1]);
      AlreadyBilled(init, services, start, end) + if CountsAsBilled(last, services, start, end) then 1 else 0
  }

  datatype Violation = PeriodReversed | DuplicatePeriod

  datatype Issued =
    | Issued(books: Books, created: nat, noPrice: nat)
    | Rejected(cause: Violation)

  function NewInvoice(b: Books, service: nat, price: Price, start: Date, end: Date, due: int): Invoice {
    var tax := TaxOf(price.amount, price.tax);
    Invoice(service, start, end, b.invoiceCounter + 1, due, Unpaid, price.amount, tax, price.amount + tax)
  }

  /** One insert: the counter, the invoice and its line, or the constraint that refuses the row. */
  function InsertInvoice(b: Books, service: nat, price: Price, start: Date, end: Date, due: int): Issued {
    if end < start then Rejected(PeriodReversed)
    else if Taken(b.invoices, service, start, end) then Rejected(DuplicatePeriod)
    else
      var inv := NewInvoice(b, service, price, start, end, due);
      Issued(b.(invoiceCounter := b.invoiceCounter + 1,
                invoices := b.invoices + [inv],
                lines := b.lines + [Line(|b.invoices|, price.amount, price.tax, inv.subtotal, inv.tax, inv.total)]),
             1, 0)
  }

  function Issue(b: Books, candidates: seq<Candidate>, start: Date, end: Date, due: int): Issued {
    if candidates == [] then Issued(b, 0, 0)
    else
      var (init, last) := (candidates[..|candidates| - 1], candidates[|candidates| - 1]);
      match Issue(b, init, start, end, due)
      case Rejected(cause) => Rejected(cause)
      case Issued(books, created, noPrice) =>
        if last.price.None? then Issued(books, created, noPrice + 1)
        else
          match InsertInvoice(books, last.service, last.price.value, start, end, due)
          case Rejected(cause) => Rejected(cause)
          case Issued(books', one, _) => Issued(books', created + one, noPrice)
  }

  datatype Generated =
    | Committed(books: Books, created: nat, skipped: nat, noPrice: nat)
    | RolledBack(cause: Violation)

  function Generate(b: Books, services: seq<Service>, prices: seq<PriceRow>, start: Date, end: Date,
                    due: int): Generated {
    match Issue(b, Candidates(services, prices, b.invoices, start, end), start, end, due)
    case Rejected(cause) => RolledBack(cause)
    case Issued(books, created, noPrice) => Committed(books, created, AlreadyBilled(b.invoices, services, start, end),
                                                      noPrice)
  }

  // ---------------------------------------------------------------- issuing

  /** The candidate query finds each such service once. */
  lemma {:induction false} CandidateOf(services: seq<Service>, prices: seq<PriceRow>, invoices: seq<Invoice>,
                                       start: Date, end: Date, s: nat) returns (k: nat)
    requires s < |services| && Billable(services[s]) && !Served(invoices, s, start, end)
    ensures k < |Candidates(services, prices, invoices, start, end)|
    ensures Candidates(services, prices, invoices, start, end)[k]
            == Candidate(s, PriceFor(prices, services[s].pkg, start))
  {
    var n := |services| - 1;
    if s == n {
      k := |Candidates(services[..n], prices, invoices, start, end)|;
    } else {
      k := CandidateOf(services[..n], prices, invoices, start, end, s);
    }
  }

  lemma {:induction false} CandidatesInOrder(services: seq<Service>, prices: seq<PriceRow>, invoices: seq<Invoice>,
                                             start: Date, end: Date)
    ensures InOrder(Candidates(services, prices, invoices, start, end))
  {
    if services == [] {
    } else {
      CandidatesInOrder(services[..|services| - 1], prices, invoices, start, end);
    }
  }

  predicate InOrder(candidates: seq<Candidate>) {
    forall j, k | 0 <= j < k < |candidates| :: candidates[j].service < candidates[k].service
  }

  predicate PricesAllowed(candidates: seq<Candidate>) {
    forall k | 0 <= k < |candidates| && candidates[k].price.Some? :: PriceAllowed(candidates[k].price.value)
  }

  /** Nothing already on file claims the period of a service about to be invoiced. */
  predicate Clear(b: Books, candidates: seq<Candidate>, start: Date, end: Date) {
    forall k | 0 <= k < |candidates| && candidates[k].price.Some? ::
      start <= end && !Taken(b.invoices, candidates[k].service, start, end)
  }

  /** Rows are only added, and only invoices with their lines. */
  predicate Extends(b: Books, out: Books) {
    && |b.invoices| <= |out.invoices| && out.invoices[..|b.invoices|] == b.invoices
    && out.payments == b.payments && out.allocations == b.allocations && out.receipts == b.receipts
  }

  /** An unpaid invoice of the period that charges `price` and its tax, rounded to the cent. */
  predicate Charges(inv: Invoice, price: Price, start: Date, end: Date) {
    && inv.periodStart == start && inv.periodEnd == end && inv.status == Unpaid
    && inv.subtotal == price.amount && inv.tax == TaxOf(price.amount, price.tax) && inv.total == inv.subtotal + inv.tax
  }

  predicate ChargesOneOf(inv: Invoice, candidates: seq<Candidate>, start: Date, end: Date) {
    exists k :: 0 <= k < |candidates| && candidates[k].price.Some? && candidates[k].service == inv.service
                && Charges(inv, candidates[k].price.value, start, end)
  }

  /** The books after the first of these candidates were issued. */
  ghost predicate IssuedFor(b: Books, out: Books, candidates: seq<Candidate>, start: Date, end: Date) {
    && Extends(b, out)
    && (forall k | 0 <= k < |candidates|
        && candidates[k].price.Some? :: Served(out.invoices, candidates[k].service, start, end))
    && (forall i | |b.invoices| <= i < |out.invoices| ::
          ChargesOneOf(out.invoices[i], candidates, start, end))
  }

  lemma InsertKeepsValid(b: Books, service: nat, price: Price, start: Date, end: Date, due: int)
    requires ValidBooks(b) && PriceAllowed(price)
    requires InsertInvoice(b, service, price, start, end, due).Issued?
    ensures ValidBooks(InsertInvoice(b, service, price, start, end, due).books)
  {
    var out := InsertInvoice(b, service, price, start, end, due).books;
    TaxIsSound(price.amount, price.amount, price.tax);
    forall k | 0 <= k < |b.allocations|
      ensures !CountsFor(out.allocations[k], out.payments, |b.invoices|)
    {
    }
    PostedSumSign(b.allocations, b.payments, |b.invoices|);
    assert forall i | 0 <= i < |b.invoices| :: !SamePeriod(b.invoices[i], service, start, end);
  }

  lemma ServedStays(b: Books, out: Books, s: nat, start: Date, end: Date)
    requires Extends(b, out) && Served(b.invoices, s, start, end)
    ensures Served(out.invoices, s, start, end)
  {
    var i :| 0 <= i < |b.invoices| && SamePeriod(b.invoices[i], s, start, end) && b.invoices[i].status != Void;
    assert out.invoices[i] == b.invoices[i];
  }

  lemma ChargesOneOfMore(inv: Invoice, init: seq<Candidate>, last: Candidate, start: Date, end: Date)
    requires ChargesOneOf(inv, init, start, end)
    ensures ChargesOneOf(inv, init + [last], start, end)
  {
    var k :| 0 <= k < |init| && init[k].price.Some? && init[k].service == inv.service
             && Charges(inv, init[k].price.value, start, end);
    assert (init + [last])[k] == init[k];
  }

  lemma InsertIssues(b: Books, mid: Books, init: seq<Candidate>, last: Candidate, start: Date, end: Date, due: int)
    requires IssuedFor(b, mid, init, start, end) && last.price.Some?
    requires InsertInvoice(mid, last.service, last.price.value, start, end, due).Issued?
    ensures IssuedFor(b, InsertInvoice(mid, last.service, last.price.value, start, end, due).books, init + [last],
                      start, end)
  {
    var out := InsertInvoice(mid, last.service, last.price.value, start, end, due).books;
    assert out.invoices[..|mid.invoices|] == mid.invoices;
    assert out.invoices[..|b.invoices|] == mid.invoices[..|b.invoices|];
    var all := init + [last];
    forall k | 0 <= k < |all| && all[k].price.Some?
      ensures Served(out.invoices, all[k].service, start, end)
    {
      if k < |init| {
        assert all[k] == init[k];
        ServedStays(mid, out, all[k].service, start, end);
      } else {
        assert SamePeriod(out.invoices[|mid.invoices|], last.service, start, end);
      }
    }
    forall i | |b.invoices| <= i < |out.invoices|
      ensures ChargesOneOf(out.invoices[i], all, start, end)
    {
      if i < |mid.invoices| {
        assert out.invoices[i] == mid.invoices[i];
        ChargesOneOfMore(mid.invoices[i], init, last, start, end);
      } else {
        assert all[|init|] == last;
      }
    }
  }

  lemma SkipIssues(b: Books, mid: Books, init: seq<Candidate>, last: Candidate, start: Date, end: Date)
    requires IssuedFor(b, mid, init, start, end) && last.price.None?
    ensures IssuedFor(b, mid, init + [last], start, end)
  {
    forall i | |b.invoices| <= i < |mid.invoices|
      ensures ChargesOneOf(mid.invoices[i], init + [last], start, end)
    {
      ChargesOneOfMore(mid.invoices[i], init, last, start, end);
    }
  }

  /** Issuing to some services leaves the periods of the others as they were. */
  lemma OthersStayFree(b: Books, mid: Books, init: seq<Candidate>, s: nat, start: Date, end: Date)
    requires IssuedFor(b, mid, init, start, end) && forall k | 0 <= k < |init| :: init[k].service != s
    ensures Taken(mid.invoices, s, start, end) == Taken(b.invoices, s, start, end)
  {
    if i :| 0 <= i < |b.invoices| && SamePeriod(b.invoices[i], s, start, end) {
      assert mid.invoices[i] == b.invoices[i];
    }
    forall i | 0 <= i < |mid.invoices|
      ensures if i < |b.invoices| then mid.invoices[i] == b.invoices[i] else mid.invoices[i].service != s
    {
      if i >= |b.invoices| {
        assert ChargesOneOf(mid.invoices[i], init, start, end);
      }
    }
  }

  lemma ClearSplits(b: Books, init: seq<Candidate>, last: Candidate, start: Date, end: Date)
    ensures Clear(b, init + [last], start, end)
            <==> Clear(b, init, start, end)
                 && (last.price.Some? ==> start <= end && !Taken(b.invoices, last.service, start, end))
  {
    var all := init + [last];
    assert all[|init|] == last && forall k | 0 <= k < |init| :: all[k] == init[k];
  }

  /** The batch goes through exactly when the table is clear for all of it; then each priced candidate is
      served, every new row is the invoice of one of them, and the books stay valid. */
  lemma {:induction false} IssueMeaning(b: Books, candidates: seq<Candidate>, start: Date, end: Date, due: int)
    requires ValidBooks(b) && PricesAllowed(candidates) && InOrder(candidates)
    ensures var r := Issue(b, candidates, start, end, due);
            && (r.Issued? <==> Clear(b, candidates, start, end))
            && (r.Issued? ==> ValidBooks(r.books) && IssuedFor(b, r.books, candidates, start, end)
                              && r.created + r.noPrice == |candidates|
                              && |r.books.invoices| == |b.invoices| + r.created)
  {
    if candidates == [] {
    } else {
      var n := |candidates| - 1;
      var (init, last) := (candidates[..n], candidates[n]);
      IssueMeaning(b, init, start, end, due);
      ClearSplits(b, init, last, start, end);
      assert init + [last] == candidates;
      var before := Issue(b, init, start, end, due);
      if before.Issued? && last.price.None? {
        SkipIssues(b, before.books, init, last, start, end);
      } else if before.Issued? {
        OthersStayFree(b, before.books, init, last.service, start, end);
        if InsertInvoice(before.books, last.service, last.price.value, start, end, due).Issued? {
          InsertKeepsValid(before.books, last.service, last.price.value, start, end, due);
          InsertIssues(b, before.books, init, last, start, end, due);
        }
      }
    }
  }

  // ---------------------------------------------------------------- counting

  function CountBillable(services: seq<Service>): nat {
    if services == [] then 0
    else CountBillable(services[..|services| - 1]) + if Billable(services[|services| - 1]) then 1 else 0
  }

  function CountServed(services: seq<Service>, invoices: seq<Invoice>, start: Date, end: Date): nat {
    if services == [] then 0
    else
      var n := |services| - 1;
      CountServed(services[..n], invoices, start, end)
      + if Billable(services[n]) && Served(invoices, n, start, end) then 1 else 0
  }

  lemma {:induction false} EveryBillableIsServedOrCandidate(services: seq<Service>, prices: seq<PriceRow>,
                                                            invoices: seq<Invoice>, start: Date, end: Date)
    ensures CountBillable(services)
            == CountServed(services, invoices, start, end) + |Candidates(services, prices, invoices, start, end)|
  {
    if services == [] {
    } else {
      EveryBillableIsServedOrCandidate(services[..|services| - 1], prices, invoices, start, end);
    }
  }

  /** One more invoice serves one more service of the table: its own. */
  lemma {:induction false} OneMoreServed(services: seq<Service>, invoices: seq<Invoice>, last: Invoice, start: Date,
                                         end: Date)
    requires !Served(invoices, last.service, start, end)
    ensures CountServed(services, invoices + [last], start, end)
            == CountServed(services, invoices, start, end) + if CountsAsBilled(last, services, start, end) then 1 else 0
  {
    if services == [] {
    } else {
      var n := |services| - 1;
      OneMoreServed(services[..n], invoices, last, start, end);
      var all := invoices + [last];
      assert Served(all, n, start, end) <==> Served(invoices, n, start, end)
                                             || (SamePeriod(last, n, start, end) && last.status != Void) by {
        if i :| 0 <= i < |invoices| && SamePeriod(invoices[i], n, start, end) && invoices[i].status != Void {
          assert all[i] == invoices[i];
        }
        assert all[|invoices|] == last;
      }
    }
  }

  lemma {:induction false} NobodyServed(services: seq<Service>, start: Date, end: Date)
    ensures CountServed(services, [], start, end) == 0
  {
    if services == [] {
    } else {
      NobodyServed(services[..|services| - 1], start, end);
    }
  }

  /** Counting invoices counts services, because no service has two for one period. */
  lemma {:induction false} SkippedCountsServices(invoices: seq<Invoice>, services: seq<Service>, start: Date, end: Date)
    requires forall i, j | 0 <= i < j < |invoices| ::
               !SamePeriod(invoices[j], invoices[i].service, invoices[i].periodStart, invoices[i].periodEnd)
    ensures AlreadyBilled(invoices, services, start, end) == CountServed(services, invoices, start, end)
  {
    if invoices == [] {
      NobodyServed(services, start, end);
    } else {
      var n := |invoices| - 1;
      var (init, last) := (invoices[..n], invoices[n]);
      SkippedCountsServices(init, services, start, end);
      assert invoices == init + [last];
      if last.periodStart == start && last.periodEnd == end {
        OneMoreServed(services, init, last, start, end);
      } else {
        ForeignInvoiceServesNobody(services, init, last, start, end);
      }
    }
  }

  lemma {:induction false} ForeignInvoiceServesNobody(services: seq<Service>, invoices: seq<Invoice>, last: Invoice,
                                                      start: Date, end: Date)
    requires last.periodStart != start || last.periodEnd != end
    ensures CountServed(services, invoices + [last], start, end) == CountServed(services, invoices, start, end)
  {
    if services == [] {
    } else {
      var n := |services| - 1;
      ForeignInvoiceServesNobody(services[..n], invoices, last, start, end);
      var all := invoices + [last];
      assert Served(all, n, start, end) <==> Served(invoices, n, start, end) by {
        if i :| 0 <= i < |invoices| && SamePeriod(invoices[i], n, start, end) && invoices[i].status != Void {
          assert all[i] == invoices[i];
        }
      }
    }
  }

  // ---------------------------------------------------------------- main results

  ghost predicate PriceTableAllowed(prices: seq<PriceRow>) {
    forall i | 0 <= i < |prices| :: PriceAllowed(prices[i].price)
  }

  lemma CandidatePricesAllowed(services: seq<Service>, prices: seq<PriceRow>, invoices: seq<Invoice>, start: Date,
                               end: Date)
    requires PriceTableAllowed(prices)
    ensures PricesAllowed(Candidates(services, prices, invoices, start, end))
  {
    var cs := Candidates(services, prices, invoices, start, end);
    forall k | 0 <= k < |cs| && cs[k].price.Some?
      ensures PriceAllowed(cs[k].price.value)
    {
      var r := Latest(prices, services[cs[k].service].pkg, start).value;
      var i :| 0 <= i < |prices| && prices[i] == r;
    }
  }

  /** A service whose invoice for the period was voided while the service stays billable and priced. */
  predicate Blocks(b: Books, services: seq<Service>, prices: seq<PriceRow>, s: nat, start: Date, end: Date) {
    && s < |services| && Billable(services[s]) && PriceFor(prices, services[s].pkg, start).Some?
    && !Served(b.invoices, s, start, end) && (end < start || Taken(b.invoices, s, start, end))
  }

  /** A run commits exactly when no such service exists: one blocked service rolls back the invoices of
      all of them. A committed run keeps the books valid and accounts for every billable service once. */
  lemma GenerateOutcome(b: Books, services: seq<Service>, prices: seq<PriceRow>, start: Date, end: Date, due: int)
    requires ValidBooks(b) && PriceTableAllowed(prices)
    ensures var r := Generate(b, services, prices, start, end, due);
            && (r.Committed? <==> forall s: nat :: !Blocks(b, services, prices, s, start, end))
            && (r.Committed? ==>
                  && ValidBooks(r.books)
                  && IssuedFor(b, r.books, Candidates(services, prices, b.invoices, start, end), start, end)
                  && r.created + r.skipped + r.noPrice == CountBillable(services)
                  && |r.books.invoices| == |b.invoices| + r.created)
  {
    var cs := Candidates(services, prices, b.invoices, start, end);
    CandidatePricesAllowed(services, prices, b.invoices, start, end);
    CandidatesInOrder(services, prices, b.invoices, start, end);
    IssueMeaning(b, cs, start, end, due);
    SkippedCountsServices(b.invoices, services, start, end);
    EveryBillableIsServedOrCandidate(services, prices, b.invoices, start, end);
    if s: nat :| Blocks(b, services, prices, s, start, end) {
      var k := CandidateOf(services, prices, b.invoices, start, end, s);
      assert cs[k].price.Some?;
      assert !Clear(b, cs, start, end);
    } else {
      forall k | 0 <= k < |cs| && cs[k].price.Some?
        ensures start <= end && !Taken(b.invoices, cs[k].service, start, end)
      {
        assert !Blocks(b, services, prices, cs[k].service, start, end);
      }
    }
  }

  /** After a committed run every billable, priced service has an open invoice for the period... */
  lemma EveryoneIsServed(b: Books, services: seq<Service>, prices: seq<PriceRow>, start: Date, end: Date, due: int,
                         s: nat)
    requires ValidBooks(b) && PriceTableAllowed(prices) && Generate(b, services, prices, start, end, due).Committed?
    requires s < |services| && Billable(services[s]) && PriceFor(prices, services[s].pkg, start).Some?
    ensures Served(Generate(b, services, prices, start, end, due).books.invoices, s, start, end)
  {
    var after := Generate(b, services, prices, start, end, due).books;
    GenerateOutcome(b, services, prices, start, end, due);
    if Served(b.invoices, s, start, end) {
      ServedStays(b, after, s, start, end);
    } else {
      var k := CandidateOf(services, prices, b.invoices, start, end, s);
    }
  }

  /** ... so running it again creates nothing and changes nothing. */
  lemma RepeatCreatesNothing(b: Books, services: seq<Service>, prices: seq<PriceRow>, start: Date, end: Date,
                             due: int, dueAgain: int)
    requires ValidBooks(b) && PriceTableAllowed(prices) && Generate(b, services, prices, start, end, due).Committed?
    ensures var first := Generate(b, services, prices, start, end, due);
            var again := Generate(first.books, services, prices, start, end, dueAgain);
            && again.Committed? && again.created == 0 && again.books == first.books
            && again.skipped + again.noPrice == first.created + first.skipped + first.noPrice
  {
    var first := Generate(b, services, prices, start, end, due);
    GenerateOutcome(b, services, prices, start, end, due);
    GenerateOutcome(first.books, services, prices, start, end, dueAgain);
    var cs := Candidates(services, prices, first.books.invoices, start, end);
    forall k | 0 <= k < |cs|
      ensures cs[k].price.None?
    {
      if cs[k].price.Some? {
        EveryoneIsServed(b, services, prices, start, end, due, cs[k].service);
      }
    }
    UnpricedIssueNothing(first.books, cs, start, end, dueAgain);
  }

  lemma {:induction false} UnpricedIssueNothing(b: Books, cs: seq<Candidate>, start: Date, end: Date, due: int)
    requires forall k | 0 <= k < |cs| :: cs[k].price.None?
    ensures Issue(b, cs, start, end, due) == Issued(b, 0, |cs|)
  {
    if cs == [] {
    } else {
      UnpricedIssueNothing(b, cs[..|cs| - 1], start, end, due);
    }
  }

  /** Voiding an invoice does not reopen its period. The UNIQUE constraint on (service, period) counts void
      rows, so while the service stays billable and priced, generation for that period fails for
      everybody. */
  lemma VoidingBlocksThePeriod(b: Books, services: seq<Service>, prices: seq<PriceRow>, i: nat, due: int)
    requires ValidBooks(b) && PriceTableAllowed(prices) && VoidInvoice(b, i).Done?
    ensures var inv := b.invoices[i];
            var voided := VoidInvoice(b, i).books;
            inv.service < |services| && Billable(services[inv.service])
            && PriceFor(prices, services[inv.service].pkg, inv.periodStart).Some?
            ==> Generate(voided, services, prices, inv.periodStart, inv.periodEnd, due).RolledBack?
  {
    var inv := b.invoices[i];
    var voided := VoidInvoice(b, i).books;
    if inv.service < |services| && Billable(services[inv.service])
       && PriceFor(prices, services[inv.service].pkg, inv.periodStart).Some? {
      VoidInvoiceKeepsValid(b, i);
      assert SamePeriod(voided.invoices[i], inv.service, inv.periodStart, inv.periodEnd);
      forall j | 0 <= j < |voided.invoices| && j != i
        ensures !SamePeriod(voided.invoices[j], inv.service, inv.periodStart, inv.periodEnd)
      {
        assert j < i ==> !SamePeriod(b.invoices[i], b.invoices[j].service, b.invoices[j].periodStart,
                                     b.invoices[j].periodEnd);
      }
      GenerateOutcome(voided, services, prices, inv.periodStart, inv.periodEnd, due);
      assert Blocks(voided, services, prices, inv.service, inv.periodStart, inv.periodEnd);
    }
  }

  /** With one billable, priced service and empty books, a run creates its invoice. */
  lemma FirstInvoice(services: seq<Service>, prices: seq<PriceRow>, start: Date, end: Date, due: int)
    requires |services| == 1 && Billable(services[0]) && PriceFor(prices, services[0].pkg, start).Some?
    requires PriceTableAllowed(prices) && start <= end
    ensures var r := Generate(NO_BOOKS, services, prices, start, end, due);
            r.Committed? && r.created == 1 && ValidBooks(r.books) && |r.books.invoices| == 1
            && r.books.allocations == []
            && Charges(r.books.invoices[0], PriceFor(prices, services[0].pkg, start).value, start, end)
            && r.books.invoices[0].service == 0
  {
    assert forall s: nat :: !Blocks(NO_BOOKS, services, prices, s, start, end);
    GenerateOutcome(NO_BOOKS, services, prices, start, end, due);
    EveryoneIsServed(NO_BOOKS, services, prices, start, end, due, 0);
    var r := Generate(NO_BOOKS, services, prices, start, end, due);
    assert CountBillable(services) == 1 by { assert services[..0] == []; }
    assert ChargesOneOf(r.books.invoices[0], Candidates(services, prices, NO_BOOKS.invoices, start, end), start, end);
  }

  /** The smallest case: one priced service is billed, its invoice is voided, and the month cannot be billed
      again. */
  lemma VoidThenGenerateFails(start: Date, end: Date, due: int)
    requires 0 <= start <= end
    ensures var services := [Service(0, 0, Active, false)];
            var prices := [PriceRow(0, Price(150_000_00, 0), 0, None)];
            var billed := Generate(NO_BOOKS, services, prices, start, end, due);
            && billed.Committed? && billed.created == 1
            && VoidInvoice(billed.books, 0).Done?
            && Generate(VoidInvoice(billed.books, 0).books, services, prices, start, end, due).RolledBack?
  {
    var services := [Service(0, 0, Active, false)];
    var prices := [PriceRow(0, Price(150_000_00, 0), 0, None)];
    assert Covers(prices[0], 0, start);
    FirstInvoice(services, prices, start, end, due);
    var billed := Generate(NO_BOOKS, services, prices, start, end, due);
    VoidingBlocksThePeriod(billed.books, services, prices, 0, due);
  }
}
