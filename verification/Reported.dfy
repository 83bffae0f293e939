/** What one more row of a table adds to the report, said of the row and of the calendar. */
module Reported {
  import opened Ledger
  import opened Money
  import opened Report

  // ---------------------------------------------------------------- the calendar

  /** Years of four, but for the hundreds that are not four hundreds. */
  function LeapYearsBefore(year: nat): nat {
    (year + 3) / 4 - (year + 99) / 100 + (year + 399) / 400
  }

  lemma OneYearMore(year: nat)
    ensures LeapYearsBefore(year + 1) == LeapYearsBefore(year)
            + if year % 4 == 0 && (year % 100 != 0 || year % 400 == 0) then 1 else 0
  {
    Fours(year);
    Hundreds(year);
    FourHundreds(year);
    Multiples(year);
  }

  lemma Fours(year: nat)
    ensures (year + 4) / 4 == (year + 3) / 4 + if year % 4 == 0 then 1 else 0
  {
  }

  lemma Hundreds(year: nat)
    ensures (year + 100) / 100 == (year + 99) / 100 + if year % 100 == 0 then 1 else 0
  {
  }

  lemma FourHundreds(year: nat)
    ensures (year + 400) / 400 == (year + 399) / 400 + if year % 400 == 0 then 1 else 0
  {
  }

  lemma Multiples(year: nat)
    ensures year % 400 == 0 ==> year % 100 == 0
    ensures year % 100 == 0 ==> year % 4 == 0
  {
    assert year % 400 == 0 ==> year == 100 * (4 * (year / 400));
    assert year % 100 == 0 ==> year == 4 * (25 * (year / 100));
  }

  /** Days before the first of each month in a common year. */
  const BEFORE_MONTH := [0, 31, 59, 90, 120, 151, 181, 212, 243, 273, 304, 334]

  function LeapDay(year: nat): nat {
    if year % 4 == 0 && (year % 100 != 0 || year % 400 == 0) then 1 else 0
  }

  function FirstOf(year: nat, m: nat): nat
    requires m < 12
  {
    365 * year + LeapYearsBefore(year) + BEFORE_MONTH[m] + if m >= 2 then LeapDay(year) else 0
  }

  /** The day number of the first of a month, counted from January of year 0, in closed form. */
  lemma {:induction false} MonthStartIs(month: nat)
    ensures MonthStart(month) == FirstOf(month / 12, month % 12)
  {
    if month == 0 {
      YearZero();
    } else {
      var before := month - 1;
      MonthStartIs(before);
      NextMonthStart(before);
      NextFirst(before);
    }
  }

  lemma YearZero()
    ensures FirstOf(0, 0) == 0
  {
  }

  lemma NextFirst(month: nat)
    ensures FirstOf((month + 1) / 12, (month + 1) % 12)
            == FirstOf(month / 12, month % 12) + Length(month / 12, month % 12)
  {
    FirstOfNext(month / 12, month % 12);
    NextInYear(month);
  }

  lemma NextInYear(month: nat)
    ensures month % 12 == 11 ==> (month + 1) / 12 == month / 12 + 1 && (month + 1) % 12 == 0
    ensures month % 12 != 11 ==> (month + 1) / 12 == month / 12 && (month + 1) % 12 == month % 12 + 1
  {
  }

  function Length(year: nat, m: nat): nat {
    if m == 1 then 28 + LeapDay(year) else if m == 3 || m == 5 || m == 8 || m == 10 then 30 else 31
  }

  lemma FirstOfNext(year: nat, m: nat)
    requires m < 12
    ensures FirstOf(year, m) + Length(year, m) == if m == 11 then FirstOf(year + 1, 0) else FirstOf(year, m + 1)
  {
    OneYearMore(year);
  }

  lemma NextMonthStart(month: nat)
    ensures MonthStart(month + 1) == MonthStart(month) + Length(month / 12, month % 12)
  {
  }

  // ---------------------------------------------------------------- one more invoice

  /** What the rows of a breakdown say of one group, 0 and 0 if there is none. */
  function CountFor<T(==)>(rows: seq<Metric<T>>, group: T): nat {
    if rows == [] then 0
    else
      CountFor(rows[..|rows| - 1], group) + if rows[|rows| - 1].group == group then rows[|rows| - 1].count else 0
  }

  function AmountFor<T(==)>(rows: seq<Metric<T>>, group: T): int {
    if rows == [] then 0
    else
      AmountFor(rows[..|rows| - 1], group) + if rows[|rows| - 1].group == group then rows[|rows| - 1].amount else 0
  }

  predicate Apart<T(==)>(order: seq<T>) {
    forall i, j | 0 <= i < j < |order| :: order[i] != order[j]
  }

  lemma ForOneMore<T>(rows: seq<Metric<T>>, row: Metric<T>, group: T)
    ensures CountFor(rows + [row], group) == CountFor(rows, group) + if row.group == group then row.count else 0
    ensures AmountFor(rows + [row], group) == AmountFor(rows, group) + if row.group == group then row.amount else 0
  {
    assert (rows + [row])[..|rows|] == rows;
  }

  lemma {:induction false} StatusRowsSay(invoices: seq<Invoice>, order: seq<EffectiveStatus>, lo: int, hi: int,
                                         now: int, g: EffectiveStatus)
    requires Apart(order)
    ensures var rows := StatusRows(invoices, order, lo, hi, now);
            && CountFor(rows, g) == (if g in order then CountOf(invoices, g, lo, hi, now) else 0)
            && AmountFor(rows, g) == (if g in order then AmountOf(invoices, g, lo, hi, now) else 0)
    decreases |order|
  {
    if order == [] {
    } else {
      var (init, last) := (order[..|order| - 1], order[|order| - 1]);
      StatusRowsSay(invoices, init, lo, hi, now, g);
      assert g in order <==> g in init || g == last;
      assert last !in init;
      var (rows, count) := (StatusRows(invoices, init, lo, hi, now), CountOf(invoices, last, lo, hi, now));
      if count == 0 {
        EmptyGroup(invoices, last, lo, hi, now);
      } else {
        ForOneMore(rows, Metric(last, count, AmountOf(invoices, last, lo, hi, now)), g);
      }
    }
  }

  lemma {:induction false} MethodRowsSay(payments: seq<Payment>, order: seq<PaymentMethod>, lo: int, hi: int,
                                         g: PaymentMethod)
    requires Apart(order)
    ensures var rows := MethodRows(payments, order, lo, hi);
            && CountFor(rows, g) == (if g in order then CountBy(payments, g, lo, hi) else 0)
            && AmountFor(rows, g) == (if g in order then PaidBy(payments, g, lo, hi) else 0)
    decreases |order|
  {
    if order == [] {
    } else {
      var (init, last) := (order[..|order| - 1], order[|order| - 1]);
      MethodRowsSay(payments, init, lo, hi, g);
      assert g in order <==> g in init || g == last;
      assert last !in init;
      var (rows, count) := (MethodRows(payments, init, lo, hi), CountBy(payments, last, lo, hi));
      if count == 0 {
        NobodyPaidBy(payments, last, lo, hi);
      } else {
        ForOneMore(rows, Metric(last, count, PaidBy(payments, last, lo, hi)), g);
      }
    }
  }

  /** The invoice is shown under this status. */
  predicate ShownAs(inv: Invoice, g: EffectiveStatus, now: int) {
    match g
    case ShownOverdue => (inv.status == Unpaid || inv.status == Partial) && inv.dueAt < now
    case ShownUnpaid => inv.status == Unpaid && now <= inv.dueAt
    case ShownPartial => inv.status == Partial && now <= inv.dueAt
    case ShownPaid => inv.status == Paid
    case ShownVoid => inv.status == Void
  }

  function With(b: Books, inv: Invoice): Books {
    b.(invoices := b.invoices + [inv])
  }

  lemma SumsWith(invoices: seq<Invoice>, inv: Invoice, lo: int, hi: int, now: int, g: EffectiveStatus)
    ensures var (more, falls) := (invoices + [inv], lo <= inv.periodStart < hi);
            && InvoicedIn(more, lo, hi)
                == InvoicedIn(invoices, lo, hi) + (if inv.status != Void && falls then inv.total else 0)
            && InvoicedCount(more, lo, hi)
                == InvoicedCount(invoices, lo, hi) + (if inv.status != Void && falls then 1 else 0)
            && CountOf(more, g, lo, hi, now)
               == CountOf(invoices, g, lo, hi, now) + (if falls && ShownAs(inv, g, now) then 1 else 0)
            && AmountOf(more, g, lo, hi, now)
               == AmountOf(invoices, g, lo, hi, now) + (if falls && ShownAs(inv, g, now) then inv.total else 0)
            && OverdueCount(more, now)
               == OverdueCount(invoices, now) + (if ShownAs(inv, ShownOverdue, now) then 1 else 0)
  {
    assert (invoices + [inv])[..|invoices|] == invoices;
  }

  lemma {:induction false} OwedBefore(b: Books, inv: Invoice, n: nat, now: int)
    requires n <= |b.invoices|
    ensures Outstanding(With(b, inv), n) == Outstanding(b, n) && Overdue(With(b, inv), n, now) == Overdue(b, n, now)
  {
    if n == 0 {
    } else {
      OwedBefore(b, inv, n - 1, now);
    }
  }

  /** One more invoice adds its total to what is invoiced if its period starts in the range and it is not void, and what
      is open of it to what is owed, overdue if its due date is past. */
  lemma InvoiceIsReported(b: Books, inv: Invoice, from: nat, to: nat, now: int)
    requires from <= to
    ensures var (r, more) := (SummaryOf(b, from, to, now), SummaryOf(With(b, inv), from, to, now));
            var counts := inv.status != Void && MonthStart(from) <= inv.periodStart < MonthStart(to + 1);
            var owed := if inv.status == Unpaid || inv.status == Partial then inv.total - PostedTo(b, |b.invoices|)
                else 0;
            && more.invoiced == r.invoiced + (if counts then inv.total else 0)
            && more.invoicedCount == r.invoicedCount + (if counts then 1 else 0)
            && more.collected == r.collected && more.collectedCount == r.collectedCount && more.byMethod == r.byMethod
            && more.outstanding == r.outstanding + owed
            && more.overdue == r.overdue + (if inv.dueAt < now then owed else 0)
            && more.overdueCount == r.overdueCount + (if ShownAs(inv, ShownOverdue, now) then 1 else 0)
  {
    SumsWith(b.invoices, inv, MonthStart(from), MonthStart(to + 1), now, ShownPaid);
    OwedBefore(b, inv, |b.invoices|, now);
  }

  /** It adds itself to the group it is shown under, if its period starts in the range... */
  lemma InvoiceIsInItsGroup(b: Books, inv: Invoice, from: nat, to: nat, now: int, g: EffectiveStatus)
    requires from <= to
    ensures var (r, more) := (SummaryOf(b, from, to, now), SummaryOf(With(b, inv), from, to, now));
            var shown := MonthStart(from) <= inv.periodStart < MonthStart(to + 1) && ShownAs(inv, g, now);
            && CountFor(more.byStatus, g) == CountFor(r.byStatus, g) + (if shown then 1 else 0)
            && AmountFor(more.byStatus, g) == AmountFor(r.byStatus, g) + (if shown then inv.total else 0)
  {
    var (lo, hi) := (MonthStart(from), MonthStart(to + 1));
    EveryStatus(g);
    StatusRowsSay(b.invoices, STATUS_ORDER, lo, hi, now, g);
    StatusRowsSay(b.invoices + [inv], STATUS_ORDER, lo, hi, now, g);
    SumsWith(b.invoices, inv, lo, hi, now, g);
  }

  /** ... and, if it is not void, to the one month its period starts in. */
  lemma InvoiceIsInItsMonth(b: Books, inv: Invoice, from: nat, to: nat, now: int, k: nat)
    requires from <= to && k < to + 1 - from
    ensures var (r, more) := (SummaryOf(b, from, to, now), SummaryOf(With(b, inv), from, to, now));
            && |r.monthly| == |more.monthly| == to + 1 - from && r.monthly[k].month == from + k
            && var falls := inv.status != Void && MonthStart(from + k) <= inv.periodStart < MonthStart(from + k + 1);
               more.monthly[k] == r.monthly[k].(invoiced := r.monthly[k].invoiced + if falls then inv.total else 0)
  {
    MonthlyAt(b, from, to, now, k);
    MonthlyAt(With(b, inv), from, to, now, k);
    MonthWith(b, inv, from + k);
  }

  lemma MonthlyAt(b: Books, from: nat, to: nat, now: int, k: nat)
    requires from <= to && k < to + 1 - from
    ensures var monthly := SummaryOf(b, from, to, now).monthly;
            |monthly| == to + 1 - from && monthly[k] == MonthRow(b, from + k)
  {
  }

  lemma MonthWith(b: Books, inv: Invoice, m: nat)
    ensures var falls := inv.status != Void && MonthStart(m) <= inv.periodStart < MonthStart(m + 1);
            MonthRow(With(b, inv), m)
            == MonthRow(b, m).(invoiced := MonthRow(b, m).invoiced + if falls then inv.total else 0)
  {
    SumsWith(b.invoices, inv, MonthStart(m), MonthStart(m + 1), 0, ShownPaid);
  }

  lemma EveryStatus(g: EffectiveStatus)
    ensures Apart(STATUS_ORDER) && g in STATUS_ORDER
  {
    assert STATUS_ORDER[0] == ShownOverdue && STATUS_ORDER[1] == ShownPaid && STATUS_ORDER[2] == ShownPartial;
    assert STATUS_ORDER[3] == ShownUnpaid && STATUS_ORDER[4] == ShownVoid;
  }

  // ---------------------------------------------------------------- one more payment

  function WithPayment(b: Books, p: Payment): Books {
    b.(payments := b.payments + [p])
  }

  /** Posted, and received from midnight of the first day of a month to before midnight of the first of another. */
  predicate FallsIn(p: Payment, first: nat, next: nat) {
    p.status == Posted && MonthStart(first) * 86_400 <= p.receivedAt < MonthStart(next) * 86_400
  }

  lemma PaidWith(payments: seq<Payment>, p: Payment, first: nat, next: nat, g: PaymentMethod)
    ensures var (more, lo, hi) := (payments + [p], MonthStart(first), MonthStart(next));
            var falls := FallsIn(p, first, next);
            && CollectedIn(more, lo, hi) == CollectedIn(payments, lo, hi) + (if falls then p.amount else 0)
            && CollectedCount(more, lo, hi) == CollectedCount(payments, lo, hi) + (if falls then 1 else 0)
            && CountBy(more, g, lo, hi) == CountBy(payments, g, lo, hi) + (if falls && p.channel == g then 1 else 0)
            && PaidBy(more, g, lo, hi)
                == PaidBy(payments, g, lo, hi) + (if falls && p.channel == g then p.amount else 0)
  {
    assert (payments + [p])[..|payments|] == payments;
  }

  lemma {:induction false} OwedAsBefore(b: Books, p: Payment, n: nat, now: int)
    requires n <= |b.invoices| && forall k | 0 <= k < |b.allocations| :: b.allocations[k].payment < |b.payments|
    ensures Outstanding(WithPayment(b, p), n) == Outstanding(b, n)
    ensures Overdue(WithPayment(b, p), n, now) == Overdue(b, n, now)
  {
    if n == 0 {
    } else {
      OwedAsBefore(b, p, n - 1, now);
      PostedSumExtends(b.allocations, b.payments, p, n - 1);
    }
  }

  /** One more payment adds its amount to what is collected if it is posted and received in the range, and nothing else
      until it is allocated. */
  lemma PaymentIsReported(b: Books, p: Payment, from: nat, to: nat, now: int)
    requires from <= to && forall k | 0 <= k < |b.allocations| :: b.allocations[k].payment < |b.payments|
    ensures var (r, more) := (SummaryOf(b, from, to, now), SummaryOf(WithPayment(b, p), from, to, now));
            && more.collected == r.collected + (if FallsIn(p, from, to + 1) then p.amount else 0)
            && more.collectedCount == r.collectedCount + (if FallsIn(p, from, to + 1) then 1 else 0)
            && more.invoiced == r.invoiced && more.invoicedCount == r.invoicedCount && more.byStatus == r.byStatus
            && more.outstanding == r.outstanding && more.overdue == r.overdue && more.overdueCount == r.overdueCount
  {
    PaidWith(b.payments, p, from, to + 1, Cash);
    OwedAsBefore(b, p, |b.invoices|, now);
  }

  lemma PaymentIsInItsGroup(b: Books, p: Payment, from: nat, to: nat, now: int, g: PaymentMethod)
    requires from <= to
    ensures var (r, more) := (SummaryOf(b, from, to, now), SummaryOf(WithPayment(b, p), from, to, now));
            var counts := FallsIn(p, from, to + 1) && p.channel == g;
            && CountFor(more.byMethod, g) == CountFor(r.byMethod, g) + (if counts then 1 else 0)
            && AmountFor(more.byMethod, g) == AmountFor(r.byMethod, g) + (if counts then p.amount else 0)
  {
    var (lo, hi) := (MonthStart(from), MonthStart(to + 1));
    assert METHOD_ORDER[0] == Cash && METHOD_ORDER[1] == ManualTransfer;
    MethodRowsSay(b.payments, METHOD_ORDER, lo, hi, g);
    MethodRowsSay(b.payments + [p], METHOD_ORDER, lo, hi, g);
    PaidWith(b.payments, p, from, to + 1, g);
  }

  lemma PaymentIsInItsMonth(b: Books, p: Payment, from: nat, to: nat, now: int, k: nat)
    requires from <= to && k < to + 1 - from
    ensures var (r, more) := (SummaryOf(b, from, to, now), SummaryOf(WithPayment(b, p), from, to, now));
            && |r.monthly| == |more.monthly| == to + 1 - from
            && more.monthly[k] == r.monthly[k].(collected := r.monthly[k].collected
                                                   + if FallsIn(p, from + k, from + k + 1) then p.amount else 0)
  {
    MonthlyAt(b, from, to, now, k);
    MonthlyAt(WithPayment(b, p), from, to, now, k);
    MonthWithPayment(b, p, from + k);
  }

  lemma MonthWithPayment(b: Books, p: Payment, m: nat)
    ensures MonthRow(WithPayment(b, p), m)
            == MonthRow(b, m).(collected := MonthRow(b, m).collected + if FallsIn(p, m, m + 1) then p.amount else 0)
  {
    PaidWith(b.payments, p, m, m + 1, Cash);
  }

  // ---------------------------------------------------------------- one more allocation

  /** Money allocated from a posted payment to an invoice that is unpaid or partial lowers what is owed by as much. */
  lemma {:induction false} AllocationLowersOwed(b: Books, a: Allocation, n: nat, now: int)
    requires n <= |b.invoices|
    ensures var more := b.(allocations := b.allocations + [a]);
            var lowers := a.invoice < n && a.payment < |b.payments| && b.payments[a.payment].status == Posted
                          && (b.invoices[a.invoice].status == Unpaid || b.invoices[a.invoice].status == Partial);
            && Outstanding(more, n) == Outstanding(b, n) - (if lowers then a.amount else 0)
            && Overdue(more, n, now)
               == Overdue(b, n, now) - (if lowers && b.invoices[a.invoice].dueAt < now then a.amount else 0)
  {
    if n == 0 {
    } else {
      AllocationLowersOwed(b, a, n - 1, now);
      assert (b.allocations + [a])[..|b.allocations|] == b.allocations;
    }
  }

  /** From empty books the report is empty. */
  lemma {:induction false} NothingIsReported(from: nat, to: nat, now: int)
    requires from <= to
    ensures var r := SummaryOf(NO_BOOKS, from, to, now);
            && r.invoiced == r.collected == r.outstanding == r.overdue == 0
            && r.invoicedCount == r.collectedCount == r.overdueCount == 0 && r.byStatus == [] && r.byMethod == []
            && forall k | 0 <= k < |r.monthly| :: r.monthly[k] == Month(from + k, 0, 0)
  {
    NoRows(STATUS_ORDER, METHOD_ORDER, MonthStart(from), MonthStart(to + 1), now);
    forall k | 0 <= k < |SummaryOf(NO_BOOKS, from, to, now).monthly|
      ensures SummaryOf(NO_BOOKS, from, to, now).monthly[k] == Month(from + k, 0, 0)
    {
      MonthlyAt(NO_BOOKS, from, to, now, k);
    }
  }

  lemma {:induction false} NoRows(statuses: seq<EffectiveStatus>, methods: seq<PaymentMethod>, lo: int, hi: int,
                                  now: int)
    ensures StatusRows([], statuses, lo, hi, now) == [] && MethodRows([], methods, lo, hi) == []
    decreases |statuses| + |methods|
  {
    if statuses != [] {
      NoRows(statuses[..|statuses| - 1], methods, lo, hi, now);
    } else if methods != [] {
      NoRows(statuses, methods[..|methods| - 1], lo, hi, now);
    }
  }
}
