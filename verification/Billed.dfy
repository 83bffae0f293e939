/** Who a billing run invoices, and what for, said of the rows of the tables. */
module Billed {
  import opened Billing
  import opened Ledger
  import opened Money
  import opened Pricing
  import opened Plans

  // ---------------------------------------------------------------- the rows a run adds

  /** Invoice `i` and its line, as inserted for a candidate. */
  predicate Inserted(b: Books, i: nat, c: Candidate, start: Date, end: Date, due: int)
    requires i < |b.invoices| && i < |b.lines|
  {
    c.price.Some? &&
    var price := c.price.value;
    var tax := TaxOf(price.amount, price.tax);
    && b.invoices[i] == Invoice(c.service, start, end, i + 1, due, Unpaid, price.amount, tax, price.amount + tax)
    && b.lines[i] == Line(i, price.amount, price.tax, price.amount, tax, price.amount + tax)
  }

  ghost predicate InsertedForOne(b: Books, i: nat, candidates: seq<Candidate>, start: Date, end: Date, due: int)
    requires i < |b.invoices| && i < |b.lines|
  {
    exists k :: 0 <= k < |candidates| && Inserted(b, i, candidates[k], start, end, due)
  }

  ghost predicate Added(b: Books, out: Books, candidates: seq<Candidate>, start: Date, end: Date, due: int) {
    && |out.invoices| == |out.lines| == out.invoiceCounter && b.invoices <= out.invoices && b.lines <= out.lines
    && forall i | |b.invoices| <= i < |out.invoices| :: InsertedForOne(out, i, candidates, start, end, due)
  }

  lemma AddedMore(b: Books, mid: Books, out: Books, init: seq<Candidate>, last: Candidate, start: Date, end: Date,
                  due: int)
    requires Added(b, mid, init, start, end, due)
    requires last.price.None? ==> out == mid
    requires last.price.Some? ==>
               var r := InsertInvoice(mid, last.service, last.price.value, start, end, due); r.Issued? && out == r.books
    ensures Added(b, out, init + [last], start, end, due)
  {
    var all := init + [last];
    forall i | |b.invoices| <= i < |out.invoices|
      ensures InsertedForOne(out, i, all, start, end, due)
    {
      if i < |mid.invoices| {
        assert InsertedForOne(mid, i, init, start, end, due);
        var k :| 0 <= k < |init| && Inserted(mid, i, init[k], start, end, due);
        assert Inserted(out, i, all[k], start, end, due);
      } else {
        assert all[|init|] == last && Inserted(out, i, all[|init|], start, end, due);
      }
    }
  }

  lemma {:induction false} IssueAdds(b: Books, candidates: seq<Candidate>, start: Date, end: Date, due: int)
    requires |b.invoices| == |b.lines| == b.invoiceCounter && Issue(b, candidates, start, end, due).Issued?
    ensures Added(b, Issue(b, candidates, start, end, due).books, candidates, start, end, due)
  {
    if candidates == [] {
    } else {
      var (init, last) := (candidates[..|candidates| - 1], candidates[|candidates| - 1]);
      IssueAdds(b, init, start, end, due);
      assert init + [last] == candidates;
      AddedMore(b, Issue(b, init, start, end, due).books, Issue(b, candidates, start, end, due).books, init, last,
                start, end, due);
    }
  }

  // ---------------------------------------------------------------- whom

  /** A committed run leaves every service that is active or isolated, not archived and priced on the first day with an
      open invoice of the period... */
  lemma EveryActiveOrIsolatedIsBilled(b: Books, services: seq<Service>, prices: seq<PriceRow>, start: Date, end: Date,
                                      due: int, s: nat) returns (i: nat)
    requires ValidBooks(b) && PriceTableAllowed(prices) && Generate(b, services, prices, start, end, due).Committed?
    requires s < |services| && !services[s].archived && (services[s].status == Active || services[s].status == Isolated)
    requires InForce(prices, services[s].pkg, start).Some?
    ensures var out := Generate(b, services, prices, start, end, due).books;
            && i < |out.invoices| && out.invoices[i].service == s && out.invoices[i].status != Void
            && out.invoices[i].periodStart == start && out.invoices[i].periodEnd == end
  {
    EveryoneIsServed(b, services, prices, start, end, due, s);
    var out := Generate(b, services, prices, start, end, due).books;
    i :| 0 <= i < |out.invoices| && SamePeriod(out.invoices[i], s, start, end) && out.invoices[i].status != Void;
  }

  /** ... and each new invoice is of such a service, which had no invoice of the period before, and is written at the
      price of that day, with the tax, the due date and the next number, and a line that says the same. */
  lemma OnlyActiveOrIsolatedAreBilled(b: Books, services: seq<Service>, prices: seq<PriceRow>, start: Date, end: Date,
                                      due: int, i: nat)
    requires ValidBooks(b) && PriceTableAllowed(prices) && Generate(b, services, prices, start, end, due).Committed?
    requires |b.invoices| <= i < |Generate(b, services, prices, start, end, due).books.invoices|
    ensures var out := Generate(b, services, prices, start, end, due).books;
            var s := out.invoices[i].service;
            && s < |services| && !services[s].archived
            && (services[s].status == Active || services[s].status == Isolated)
            && (forall j | 0 <= j < |b.invoices| ::
                  !(b.invoices[j].service == s && b.invoices[j].periodStart == start && b.invoices[j].periodEnd == end))
            && InForce(prices, services[s].pkg, start).Some?
            && var price := InForce(prices, services[s].pkg, start).value.price;
            var tax := TaxOf(price.amount, price.tax);
            && out.invoices[i] == Invoice(s, start, end, i + 1, due, Unpaid, price.amount, tax, price.amount + tax)
            && |out.lines| == |out.invoices|
            && out.lines[i] == Line(i, price.amount, price.tax, price.amount, tax, price.amount + tax)
  {
    var cs := Candidates(services, prices, b.invoices, start, end);
    var out := Generate(b, services, prices, start, end, due).books;
    GenerateOutcome(b, services, prices, start, end, due);
    IssueAdds(b, cs, start, end, due);
    assert InsertedForOne(out, i, cs, start, end, due);
    var k :| 0 <= k < |cs| && Inserted(out, i, cs[k], start, end, due);
    assert IsCandidate(cs[k], services, prices, b.invoices, start, end);
    NoneOfThePeriod(b, out, i);
  }

  lemma NoneOfThePeriod(b: Books, out: Books, i: nat)
    requires ValidBooks(out) && Extends(b, out) && |b.invoices| <= i < |out.invoices|
    ensures forall j | 0 <= j < |b.invoices| ::
              !SamePeriod(b.invoices[j], out.invoices[i].service, out.invoices[i].periodStart, out.invoices[i].periodEnd)
  {
    var last := out.invoices[i];
    forall j | 0 <= j < |b.invoices|
      ensures !SamePeriod(b.invoices[j], last.service, last.periodStart, last.periodEnd)
    {
      assert out.invoices[j] == b.invoices[j];
      assert !SamePeriod(last, out.invoices[j].service, out.invoices[j].periodStart, out.invoices[j].periodEnd);
    }
  }

  // ---------------------------------------------------------------- counts

  /** The numbers of services that are active or isolated and not archived. */
  ghost function ToBill(services: seq<Service>): set<nat> {
    set s: nat | s < |services| && !services[s].archived
        && (services[s].status == Active || services[s].status == Isolated)
  }

  ghost predicate HasOpenInvoice(invoices: seq<Invoice>, s: nat, start: Date, end: Date) {
    exists i :: 0 <= i < |invoices| && invoices[i].service == s && invoices[i].status != Void
                && invoices[i].periodStart == start && invoices[i].periodEnd == end
  }

  ghost function Already(services: seq<Service>, invoices: seq<Invoice>, start: Date, end: Date): set<nat> {
    set s: nat | s in ToBill(services) && HasOpenInvoice(invoices, s, start, end)
  }

  ghost function Unpriced(services: seq<Service>, prices: seq<PriceRow>, invoices: seq<Invoice>, start: Date, end: Date)
    : set<nat>
  {
    set s: nat | s in ToBill(services) && !HasOpenInvoice(invoices, s, start, end)
                 && InForce(prices, services[s].pkg, start).None?
  }

  lemma OpenInvoiceServes(invoices: seq<Invoice>, s: nat, start: Date, end: Date)
    ensures HasOpenInvoice(invoices, s, start, end) <==> Served(invoices, s, start, end)
  {
    if HasOpenInvoice(invoices, s, start, end) {
      var i :| 0 <= i < |invoices| && invoices[i].service == s && invoices[i].status != Void
               && invoices[i].periodStart == start && invoices[i].periodEnd == end;
      assert SamePeriod(invoices[i], s, start, end);
    }
    if Served(invoices, s, start, end) {
      var i :| 0 <= i < |invoices| && SamePeriod(invoices[i], s, start, end) && invoices[i].status != Void;
      assert invoices[i].service == s;
    }
  }

  function CountUnpriced(candidates: seq<Candidate>): nat {
    if candidates == [] then 0
    else
      CountUnpriced(candidates[..|candidates| - 1]) + if candidates[|candidates| - 1].price.None? then 1 else 0
  }

  lemma {:induction false} IssueSkipsUnpriced(b: Books, candidates: seq<Candidate>, start: Date, end: Date, due: int)
    ensures var r := Issue(b, candidates, start, end, due); r.Issued? ==> r.noPrice == CountUnpriced(candidates)
  {
    if candidates == [] {
    } else {
      IssueSkipsUnpriced(b, candidates[..|candidates| - 1], start, end, due);
    }
  }

  lemma {:induction false} ToBillCounted(services: seq<Service>)
    ensures CountBillable(services) == |ToBill(services)|
  {
    if services == [] {
      assert ToBill(services) == {};
    } else {
      var (n, init) := (|services| - 1, services[..|services| - 1]);
      ToBillCounted(init);
      assert ToBill(services) == ToBill(init) + if Billable(services[n]) then {n} else {};
    }
  }

  lemma AlreadyMore(services: seq<Service>, invoices: seq<Invoice>, start: Date, end: Date)
    requires services != []
    ensures var (n, init) := (|services| - 1, services[..|services| - 1]);
            |Already(services, invoices, start, end)|
            == |Already(init, invoices, start, end)|
               + if Billable(services[n]) && HasOpenInvoice(invoices, n, start, end) then 1 else 0
  {
    var (n, init) := (|services| - 1, services[..|services| - 1]);
    var (all, before) := (Already(services, invoices, start, end), Already(init, invoices, start, end));
    assert forall s :: s in before <==> s in all && s != n;
    assert all == before + if n in all then {n} else {};
  }

  lemma {:induction false} AlreadyCounted(services: seq<Service>, invoices: seq<Invoice>, start: Date, end: Date)
    ensures CountServed(services, invoices, start, end) == |Already(services, invoices, start, end)|
  {
    if services == [] {
      assert Already(services, invoices, start, end) == {};
    } else {
      AlreadyCounted(services[..|services| - 1], invoices, start, end);
      AlreadyMore(services, invoices, start, end);
      OpenInvoiceServes(invoices, |services| - 1, start, end);
    }
  }

  lemma UnpricedMore(services: seq<Service>, prices: seq<PriceRow>, invoices: seq<Invoice>, start: Date, end: Date)
    requires services != []
    ensures var (n, init) := (|services| - 1, services[..|services| - 1]);
            |Unpriced(services, prices, invoices, start, end)|
            == |Unpriced(init, prices, invoices, start, end)|
               + if Billable(services[n]) && !HasOpenInvoice(invoices, n, start, end)
                    && InForce(prices, services[n].pkg, start).None? then 1 else 0
  {
    var (n, init) := (|services| - 1, services[..|services| - 1]);
    assert forall s :: s in ToBill(init) <==> s in ToBill(services) && s != n;
    OneMoreMember(Unpriced(services, prices, invoices, start, end), Unpriced(init, prices, invoices, start, end), n);
  }

  lemma OneMoreMember(all: set<nat>, before: set<nat>, n: nat)
    requires forall s :: s in before <==> s in all && s != n
    ensures |all| == |before| + if n in all then 1 else 0
  {
    assert all == before + if n in all then {n} else {};
  }

  lemma CandidatesMore(services: seq<Service>, prices: seq<PriceRow>, invoices: seq<Invoice>, start: Date, end: Date)
    requires services != []
    ensures var (n, init) := (|services| - 1, services[..|services| - 1]);
            CountUnpriced(Candidates(services, prices, invoices, start, end))
            == CountUnpriced(Candidates(init, prices, invoices, start, end))
               + if Billable(services[n]) && !HasOpenInvoice(invoices, n, start, end)
                    && InForce(prices, services[n].pkg, start).None? then 1 else 0
  {
    var (n, init) := (|services| - 1, services[..|services| - 1]);
    OpenInvoiceServes(invoices, n, start, end);
    var (cs, before) := (Candidates(services, prices, invoices, start, end),
                         Candidates(init, prices, invoices, start, end));
    assert |cs| > |before| ==> cs[..|cs| - 1] == before;
  }

  lemma {:induction false} UnpricedCounted(services: seq<Service>, prices: seq<PriceRow>, invoices: seq<Invoice>,
                                           start: Date, end: Date)
    ensures CountUnpriced(Candidates(services, prices, invoices, start, end))
            == |Unpriced(services, prices, invoices, start, end)|
  {
    if services == [] {
      assert Unpriced(services, prices, invoices, start, end) == {};
    } else {
      UnpricedCounted(services[..|services| - 1], prices, invoices, start, end);
      CandidatesMore(services, prices, invoices, start, end);
      UnpricedMore(services, prices, invoices, start, end);
    }
  }

  /** The three counts of a run: the services that are active or isolated and not archived, by whether they had an open
      invoice of the period, have no price, or got their invoice now. */
  lemma RunCounts(b: Books, services: seq<Service>, prices: seq<PriceRow>, start: Date, end: Date, due: int)
    requires ValidBooks(b) && PriceTableAllowed(prices) && Generate(b, services, prices, start, end, due).Committed?
    ensures var r := Generate(b, services, prices, start, end, due);
            && r.skipped == |Already(services, b.invoices, start, end)|
            && r.noPrice == |Unpriced(services, prices, b.invoices, start, end)|
            && r.created == |r.books.invoices| - |b.invoices|
            && r.created + r.skipped + r.noPrice == |ToBill(services)|
  {
    GenerateOutcome(b, services, prices, start, end, due);
    SkippedCountsServices(b.invoices, services, start, end);
    AlreadyCounted(services, b.invoices, start, end);
    IssueSkipsUnpriced(b, Candidates(services, prices, b.invoices, start, end), start, end, due);
    UnpricedCounted(services, prices, b.invoices, start, end);
    ToBillCounted(services);
  }

  /** A run is rolled back exactly when some service that is active or isolated, not archived and priced has no open
      invoice of the period and cannot get one: the period is reversed, or it has a void one. */
  lemma RunRefused(b: Books, services: seq<Service>, prices: seq<PriceRow>, start: Date, end: Date, due: int)
    requires ValidBooks(b) && PriceTableAllowed(prices)
    ensures Generate(b, services, prices, start, end, due).RolledBack?
            <==> exists s :: s in ToBill(services) && InForce(prices, services[s].pkg, start).Some?
                             && !HasOpenInvoice(b.invoices, s, start, end)
                             && (end < start || HasVoidInvoice(b.invoices, s, start, end))
  {
    GenerateOutcome(b, services, prices, start, end, due);
    forall s: nat
      ensures Blocks(b, services, prices, s, start, end)
              <==> s in ToBill(services) && InForce(prices, services[s].pkg, start).Some?
                   && !HasOpenInvoice(b.invoices, s, start, end)
                   && (end < start || HasVoidInvoice(b.invoices, s, start, end))
    {
      OpenInvoiceServes(b.invoices, s, start, end);
      TakenOrVoid(b.invoices, s, start, end);
    }
  }

  ghost predicate HasVoidInvoice(invoices: seq<Invoice>, s: nat, start: Date, end: Date) {
    exists i :: 0 <= i < |invoices| && invoices[i].service == s && invoices[i].status == Void
                && invoices[i].periodStart == start && invoices[i].periodEnd == end
  }

  lemma TakenOrVoid(invoices: seq<Invoice>, s: nat, start: Date, end: Date)
    ensures Taken(invoices, s, start, end)
            <==> HasOpenInvoice(invoices, s, start, end) || HasVoidInvoice(invoices, s, start, end)
  {
    if Taken(invoices, s, start, end) {
      var i :| 0 <= i < |invoices| && SamePeriod(invoices[i], s, start, end);
      assert invoices[i].service == s;
    }
    forall i | 0 <= i < |invoices| && invoices[i].service == s && invoices[i].periodStart == start
               && invoices[i].periodEnd == end
      ensures SamePeriod(invoices[i], s, start, end)
    {
    }
  }
}
