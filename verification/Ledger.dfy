/** Invoices, payments, allocations and receipts: what posting and voiding do to the books. */
module Ledger {
  import opened Money

  // `overdue` is a view over due dates and is never stored.
  datatype InvoiceStatus = Unpaid | Partial | Paid | Void
  datatype PaymentStatus = Posted | Voided
  datatype PaymentMethod = Cash | ManualTransfer

  datatype Invoice = Invoice(service: nat, periodStart: int, periodEnd: int, sequence: nat, dueAt: int,
                             status: InvoiceStatus, subtotal: int, tax: int, total: int)
  datatype Line = Line(invoice: nat, unitPrice: int, taxPercent: int, subtotal: int, tax: int, total: int)
  datatype Payment = Payment(sequence: nat, amount: int, channel: PaymentMethod, status: PaymentStatus, receivedAt: int)
  datatype Allocation = Allocation(payment: nat, invoice: nat, amount: int)
  datatype Receipt = Receipt(payment: nat, sequence: nat)

  /** The tables of one tenant. Deleting financial rows is forbidden by trigger, so an id is a position. */
  datatype Books = Books(invoices: seq<Invoice>, lines: seq<Line>, payments: seq<Payment>,
                         allocations: seq<Allocation>, receipts: seq<Receipt>,
                         invoiceCounter: nat, paymentCounter: nat, receiptCounter: nat)

  const NO_BOOKS := Books([], [], [], [], [], 0, 0, 0)

  datatype LedgerError = NotFound | InvoiceClosed | OverAllocated | InvalidState
  datatype LedgerResult = Done(books: Books) | Failed(error: LedgerError)

  // ---------------------------------------------------------------- queries

  predicate CountsFor(a: Allocation, payments: seq<Payment>, i: nat) {
    a.invoice == i && a.payment < |payments| && payments[a.payment].status == Posted
  }

  /** `sum(pa.amount)` over allocations joined with posted payments, for one invoice. */
  function PostedSum(allocations: seq<Allocation>, payments: seq<Payment>, i: nat): int {
    if allocations == [] then 0
    else
      var (init, last) := (allocations[..|allocations| - 1], allocations[|allocations| - 1]);
      PostedSum(init, payments, i) + if CountsFor(last, payments, i) then last.amount else 0
  }

  function PostedTo(b: Books, i: nat): int {
    PostedSum(b.allocations, b.payments, i)
  }

  /** The void guard compares the posted sum's text with "0": a sum over no rows prints "0", a sum over
      rows of scale 2 never does. So it asks for the absence of posted rows. */
  predicate NoPostedRows(b: Books, i: nat) {
    forall k | 0 <= k < |b.allocations| :: !CountsFor(b.allocations[k], b.payments, i)
  }

  function StatusFor(total: int, posted: int): InvoiceStatus {
    if posted >= total then Paid else if posted > 0 then Partial else Unpaid
  }

  function AllocationOf(allocations: seq<Allocation>, p: nat): (k: Option<nat>)
    ensures k.Some? ==> k.value < |allocations| && allocations[k.value].payment == p
    ensures k.None? ==> forall j | 0 <= j < |allocations| :: allocations[j].payment != p
  {
    if allocations == [] then None
    else if allocations[|allocations| - 1].payment == p then Some(|allocations| - 1)
    else AllocationOf(allocations[..|allocations| - 1], p)
  }

  // ---------------------------------------------------------------- transactions

  function Recompute(b: Books, i: nat): Books
    requires i < |b.invoices|
  {
    if b.invoices[i].status == Void then b
    else b.(invoices := b.invoices[i := b.invoices[i].(status := StatusFor(b.invoices[i].total, PostedTo(b, i)))])
  }

  function CreatePayment(b: Books, i: nat, amount: int, channel: PaymentMethod, now: int): LedgerResult {
    if i >= |b.invoices| then Failed(NotFound)
    else if b.invoices[i].status == Void || b.invoices[i].status == Paid then Failed(InvoiceClosed)
    else if !(0 < amount <= b.invoices[i].total - PostedTo(b, i)) then Failed(OverAllocated)
    else
      var posted := b.(
        paymentCounter := b.paymentCounter + 1,
        receiptCounter := b.receiptCounter + 1,
        payments := b.payments + [Payment(b.paymentCounter + 1, amount, channel, Posted, now)],
        allocations := b.allocations + [Allocation(|b.payments|, i, amount)],
        receipts := b.receipts + [Receipt(|b.payments|, b.receiptCounter + 1)]);
      Done(Recompute(posted, i))
  }

  function MarkVoided(b: Books, p: nat): Books
    requires p < |b.payments|
  {
    b.(payments := b.payments[p := b.payments[p].(status := Voided)])
  }

  function VoidPayment(b: Books, p: nat): LedgerResult {
    var k := AllocationOf(b.allocations, p);
    if p >= |b.payments| || k.None? then Failed(NotFound)
    else if b.payments[p].status != Posted then Failed(InvalidState)
    else
      var i := b.allocations[k.value].invoice;
      var voided := MarkVoided(b, p);
      Done(if i < |b.invoices| then Recompute(voided, i) else voided)
  }

  function VoidInvoice(b: Books, i: nat): LedgerResult {
    if i >= |b.invoices| then Failed(NotFound)
    else if b.invoices[i].status == Void || !NoPostedRows(b, i) then Failed(InvalidState)
    else Done(b.(invoices := b.invoices[i := b.invoices[i].(status := Void)]))
  }

  // ---------------------------------------------------------------- invariant

  /** An invoice agrees with the money posted to it. Nothing can be posted to a zero total, so such an
      invoice stays unpaid. */
  predicate Settled(inv: Invoice, posted: int) {
    && 0 <= posted <= inv.total
    && (inv.status == Void ==> posted == 0)
    && (inv.status != Void ==> inv.status == if inv.total == 0 then Unpaid else StatusFor(inv.total, posted))
  }

  /** Tables refer to existing rows, a payment has exactly one allocation (of its own amount) and one
      receipt, and the three numberings are 1, 2, 3, ... without gap or repeat. */
  ghost predicate WellFormed(b: Books) {
    && |b.payments| == |b.allocations| == |b.receipts| == b.paymentCounter == b.receiptCounter
    && |b.lines| == |b.invoices| == b.invoiceCounter
    && (forall k | 0 <= k < |b.payments| ::
          && b.payments[k].sequence == k + 1
          && b.payments[k].amount > 0
          && b.allocations[k].payment == k
          && b.allocations[k].invoice < |b.invoices|
          && b.allocations[k].amount == b.payments[k].amount
          && b.receipts[k] == Receipt(k, k + 1))
    && (forall i | 0 <= i < |b.invoices| ::
          && b.invoices[i].sequence == i + 1
          && b.invoices[i].total == b.invoices[i].subtotal + b.invoices[i].tax
          && b.lines[i].invoice == i
          && b.lines[i].total == b.invoices[i].total)
  }

  predicate SamePeriod(a: Invoice, service: nat, periodStart: int, periodEnd: int) {
    a.service == service && a.periodStart == periodStart && a.periodEnd == periodEnd
  }

  ghost predicate ValidBooks(b: Books) {
    && WellFormed(b)
    && (forall i | 0 <= i < |b.invoices| :: Settled(b.invoices[i], PostedTo(b, i)))
    && (forall i, j | 0 <= i < j < |b.invoices| ::
          !SamePeriod(b.invoices[j], b.invoices[i].service, b.invoices[i].periodStart, b.invoices[i].periodEnd))
  }

  // ---------------------------------------------------------------- posted sums

  lemma {:induction false} PostedSumExtends(allocations: seq<Allocation>, payments: seq<Payment>, extra: Payment,
                                            i: nat)
    requires forall k | 0 <= k < |allocations| :: allocations[k].payment < |payments|
    ensures PostedSum(allocations, payments + [extra], i) == PostedSum(allocations, payments, i)
  {
    if allocations == [] {
    } else {
      PostedSumExtends(allocations[..|allocations| - 1], payments, extra, i);
    }
  }

  /** Voiding payment `p` takes away exactly what its allocation added. */
  lemma {:induction false} PostedSumAfterVoid(allocations: seq<Allocation>, payments: seq<Payment>, p: nat, i: nat)
    requires p < |payments| && payments[p].status == Posted
    requires forall k | 0 <= k < |allocations| :: allocations[k].payment == k
    ensures PostedSum(allocations, payments[p := payments[p].(status := Voided)], i)
            == PostedSum(allocations, payments, i)
               - if p < |allocations| && allocations[p].invoice == i then allocations[p].amount else 0
  {
    if allocations == [] {
    } else {
      PostedSumAfterVoid(allocations[..|allocations| - 1], payments, p, i);
    }
  }

  lemma {:induction false} PostedSumSign(allocations: seq<Allocation>, payments: seq<Payment>, i: nat)
    requires forall k | 0 <= k < |allocations| :: allocations[k].amount > 0
    ensures PostedSum(allocations, payments, i) >= 0
    ensures PostedSum(allocations, payments, i) == 0
            <==> forall k | 0 <= k < |allocations| :: !CountsFor(allocations[k], payments, i)
  {
    if allocations == [] {
    } else {
      var init := allocations[..|allocations| - 1];
      PostedSumSign(init, payments, i);
      assert forall k | 0 <= k < |init| :: init[k] == allocations[k];
      assert (forall k | 0 <= k < |allocations| :: !CountsFor(allocations[k], payments, i))
        <==> (forall k | 0 <= k < |init| :: !CountsFor(init[k], payments, i))
             && !CountsFor(allocations[|init|], payments, i);
    }
  }

  // ---------------------------------------------------------------- what each transaction keeps

  lemma CreatePaymentKeepsValid(b: Books, i: nat, amount: int, channel: PaymentMethod, now: int)
    requires ValidBooks(b) && CreatePayment(b, i, amount, channel, now).Done?
    ensures var b' := CreatePayment(b, i, amount, channel, now).books;
            ValidBooks(b') && forall j: nat :: PostedTo(b', j) == PostedTo(b, j) + if j == i then amount else 0
  {
    PaymentAdds(b, i, amount, channel, now);
    var b' := CreatePayment(b, i, amount, channel, now).books;
    assert forall j | 0 <= j < |b.invoices| && j != i ::
        b'.invoices[j] == b.invoices[j] && PostedTo(b', j) == PostedTo(b, j);
  }

  lemma PaymentAdds(b: Books, i: nat, amount: int, channel: PaymentMethod, now: int)
    requires WellFormed(b) && CreatePayment(b, i, amount, channel, now).Done?
    ensures var b' := CreatePayment(b, i, amount, channel, now).books;
            forall j: nat :: PostedTo(b', j) == PostedTo(b, j) + if j == i then amount else 0
  {
    var b' := CreatePayment(b, i, amount, channel, now).books;
    forall j: nat
      ensures PostedTo(b', j) == PostedTo(b, j) + if j == i then amount else 0
    {
      assert b'.allocations[..|b'.allocations| - 1] == b.allocations;
      PostedSumExtends(b.allocations, b.payments, b'.payments[|b.payments|], j);
    }
  }

  lemma VoidPaymentKeepsValid(b: Books, p: nat)
    requires ValidBooks(b) && VoidPayment(b, p).Done?
    ensures var b' := VoidPayment(b, p).books;
            && ValidBooks(b')
            && forall j: nat :: PostedTo(b', j)
                == PostedTo(b, j) - if j == b.allocations[p].invoice then b.payments[p].amount else 0
  {
    var b' := VoidPayment(b, p).books;
    VoidTakes(b, p);
    PostedSumSign(b'.allocations, b'.payments, b.allocations[p].invoice);
  }

  lemma VoidTakes(b: Books, p: nat)
    requires WellFormed(b) && VoidPayment(b, p).Done?
    ensures AllocationOf(b.allocations, p) == Some(p)
    ensures var b' := VoidPayment(b, p).books;
            forall j: nat :: PostedTo(b', j)
                == PostedTo(b, j) - if j == b.allocations[p].invoice then b.payments[p].amount else 0
  {
    var b' := VoidPayment(b, p).books;
    assert AllocationOf(b.allocations, p) == Some(p);
    forall j: nat
      ensures PostedTo(b', j) == PostedTo(b, j) - if j == b.allocations[p].invoice then b.payments[p].amount else 0
    {
      PostedSumAfterVoid(b.allocations, b.payments, p, j);
    }
  }

  lemma VoidInvoiceKeepsValid(b: Books, i: nat)
    requires ValidBooks(b) && VoidInvoice(b, i).Done?
    ensures var b' := VoidInvoice(b, i).books;
            ValidBooks(b') && forall j: nat :: PostedTo(b', j) == PostedTo(b, j)
  {
    PostedSumSign(b.allocations, b.payments, i);
  }

  // ---------------------------------------------------------------- meaning

  /** In valid books a payment is accepted exactly when it is positive and fits what is still owed on an
      invoice that is not void: the stored status closes the door on nothing else. */
  lemma PaymentAccepted(b: Books, i: nat, amount: int, channel: PaymentMethod, now: int)
    requires ValidBooks(b)
    ensures CreatePayment(b, i, amount, channel, now).Done?
            <==> i < |b.invoices| && b.invoices[i].status != Void && 0 < amount <= b.invoices[i].total - PostedTo(b, i)
  {
    if i < |b.invoices| {
      assert Settled(b.invoices[i], PostedTo(b, i));
    }
  }

  /** A payment of `raw` on invoice `i`, not necessarily of whole cents: it is accepted when it rounds to something
      and to no more than what is owed; the payment, its allocation and the growth of the posted sum are then the
      nearest cents, and paying what is owed settles the invoice. */
  ghost predicate RecordedInCents(b: Books, out: Books, accepted: bool, i: nat, raw: real, channel: PaymentMethod,
                                  now: int)
  {
    i < |b.invoices| ==>
      var (owed, n) := (b.invoices[i].total - PostedTo(b, i), |b.payments|);
      && (accepted <==> b.invoices[i].status != Void && 0.5 <= 100.0 * raw < owed as real + 0.5)
      && (accepted ==>
            && |out.payments| == n + 1 && i < |out.invoices|
            && var a := out.payments[n].amount;
            && out.payments == b.payments + [Payment(n + 1, a, channel, Posted, now)]
            && out.allocations == b.allocations + [Allocation(n, i, a)]
            && out.receipts == b.receipts + [Receipt(n, n + 1)] && out.lines == b.lines
            && out.invoices == b.invoices[i := b.invoices[i].(status := out.invoices[i].status)]
            && -0.5 <= 100.0 * raw - a as real < 0.5
            && PostedTo(out, i) == PostedTo(b, i) + a
            && (out.invoices[i].status == Paid <==> a == owed))
  }

  lemma PaymentRecorded(b: Books, i: nat, raw: real, channel: PaymentMethod, now: int)
    requires ValidBooks(b)
    ensures var r := CreatePayment(b, i, Cents(raw), channel, now);
            RecordedInCents(b, if r.Done? then r.books else b, r.Done?, i, raw, channel, now)
  {
    if i < |b.invoices| {
      assert Settled(b.invoices[i], PostedTo(b, i));
      PaymentAccepted(b, i, Cents(raw), channel, now);
      RecordedNearest(raw);
      AtMostUnits(raw, b.invoices[i].total - PostedTo(b, i));
      if CreatePayment(b, i, Cents(raw), channel, now).Done? {
        PaymentAdds(b, i, Cents(raw), channel, now);
      }
    }
  }

  /** An invoice can be voided exactly when it is not void and no money is posted to it. */
  lemma InvoiceVoidable(b: Books, i: nat)
    requires ValidBooks(b)
    ensures VoidInvoice(b, i).Done? <==> i < |b.invoices| && b.invoices[i].status != Void && PostedTo(b, i) == 0
  {
    PostedSumSign(b.allocations, b.payments, i);
  }

  /** Voiding a payment undoes it: every invoice is back to the row it was, whatever had been paid before,
      and the number of the payment is spent. */
  lemma VoidUndoesPayment(b: Books, i: nat, amount: int, channel: PaymentMethod, now: int)
    requires ValidBooks(b) && CreatePayment(b, i, amount, channel, now).Done?
    ensures var paid := CreatePayment(b, i, amount, channel, now).books;
            var undone := VoidPayment(paid, |b.payments|);
            && undone.Done?
            && undone.books.invoices == b.invoices
            && (forall j: nat :: PostedTo(undone.books, j) == PostedTo(b, j))
            && VoidPayment(undone.books, |b.payments|) == Failed(InvalidState)
            && undone.books.paymentCounter == b.paymentCounter + 1
  {
    var paid := CreatePayment(b, i, amount, channel, now).books;
    CreatePaymentKeepsValid(b, i, amount, channel, now);
    assert AllocationOf(paid.allocations, |b.payments|) == Some(|b.payments|);
    VoidPaymentKeepsValid(paid, |b.payments|);
    assert Settled(b.invoices[i], PostedTo(b, i));
    assert VoidPayment(paid, |b.payments|).books.invoices == b.invoices;
  }
}
