/** The financial summary: totals over a month range, and the accounting identities behind them. */
module Report {
  import opened Ledger

  // ---------------------------------------------------------------- calendar

  const SECONDS_PER_DAY := 86_400

  predicate LeapYear(year: nat) {
    year % 4 == 0 && (year % 100 != 0 || year % 400 == 0)
  }

  /** Months are numbered from January of year 0. */
  function DaysIn(month: nat): (days: nat)
    ensures 28 <= days <= 31
  {
    var m := month % 12;
    if m == 1 then (if LeapYear(month / 12) then 29 else 28)
    else if m in {3, 5, 8, 10} then 30
    else 31
  }

  /** The day number of the first of a month. */
  function MonthStart(month: nat): nat {
    if month == 0 then 0 else MonthStart(month - 1) + DaysIn(month - 1)
  }

  lemma {:induction false} MonthsInOrder(a: nat, b: nat)
    requires a <= b
    ensures MonthStart(a) + 28 * (b - a) <= MonthStart(b)
  {
    if a < b {
      MonthsInOrder(a, b - 1);
    }
  }

  // ---------------------------------------------------------------- aggregates

  predicate StartsIn(inv: Invoice, lo: int, hi: int) {
    lo <= inv.periodStart < hi
  }

  /** `sum(i.total)` of invoices that are not void and whose period starts in `[lo, hi)`. */
  function InvoicedIn(invoices: seq<Invoice>, lo: int, hi: int): int {
    if invoices == [] then 0
    else
      var last := invoices[|invoices| - 1];
      InvoicedIn(invoices[..|invoices| - 1], lo, hi) + if last.status != Void && StartsIn(last, lo, hi) then last.total
          else 0
  }

  predicate ReceivedIn(p: Payment, lo: int, hi: int) {
    p.status == Posted && lo * SECONDS_PER_DAY <= p.receivedAt < hi * SECONDS_PER_DAY
  }

  /** `sum(pay.amount)` of posted payments received in `[lo, hi)`, both days counted from midnight. */
  function CollectedIn(payments: seq<Payment>, lo: int, hi: int): int {
    if payments == [] then 0
    else
      var last := payments[|payments| - 1];
      CollectedIn(payments[..|payments| - 1], lo, hi) + if ReceivedIn(last, lo, hi) then last.amount else 0
  }

  predicate Open(inv: Invoice) {
    inv.status == Unpaid || inv.status == Partial
  }

  /** `sum(i.total - paid)` over the first `n` invoices that are unpaid or partial. */
  function Outstanding(b: Books, n: nat): int
    requires n <= |b.invoices|
  {
    if n == 0 then 0
    else Outstanding(b, n - 1) + if Open(b.invoices[n - 1]) then b.invoices[n - 1].total - PostedTo(b, n - 1) else 0
  }

  function Overdue(b: Books, n: nat, now: int): int
    requires n <= |b.invoices|
  {
    if n == 0 then 0
    else Overdue(b, n - 1, now)
         + if Open(b.invoices[n - 1]) && b.invoices[n - 1].dueAt < now then b.invoices[n - 1].total - PostedTo(b, n - 1)
             else 0
  }

  datatype EffectiveStatus = ShownUnpaid | ShownPartial | ShownPaid | ShownVoid | ShownOverdue

  /** The view that shows an open invoice past its due date as overdue. */
  function Effective(inv: Invoice, now: int): EffectiveStatus {
    if Open(inv) && inv.dueAt < now then ShownOverdue
    else match inv.status
      case Unpaid => ShownUnpaid
      case Partial => ShownPartial
      case Paid => ShownPaid
      case Void => ShownVoid
  }

  /** One group of the status breakdown. */
  function AmountOf(invoices: seq<Invoice>, status: EffectiveStatus, lo: int, hi: int, now: int): int {
    if invoices == [] then 0
    else
      var last := invoices[|invoices| - 1];
      AmountOf(invoices[..|invoices| - 1], status, lo, hi, now)
      + if StartsIn(last, lo, hi) && Effective(last, now) == status then last.total else 0
  }

  function InvoicedCount(invoices: seq<Invoice>, lo: int, hi: int): nat {
    if invoices == [] then 0
    else
      var last := invoices[|invoices| - 1];
      InvoicedCount(invoices[..|invoices| - 1], lo, hi) + if last.status != Void && StartsIn(last, lo, hi) then 1 else 0
  }

  function CollectedCount(payments: seq<Payment>, lo: int, hi: int): nat {
    if payments == [] then 0
    else
      CollectedCount(payments[..|payments| - 1], lo, hi) + if ReceivedIn(payments[|payments| - 1], lo, hi) then 1 else 0
  }

  function OverdueCount(invoices: seq<Invoice>, now: int): nat {
    if invoices == [] then 0
    else
      var last := invoices[|invoices| - 1];
      OverdueCount(invoices[..|invoices| - 1], now) + if Open(last) && last.dueAt < now then 1 else 0
  }

  function CountOf(invoices: seq<Invoice>, status: EffectiveStatus, lo: int, hi: int, now: int): nat {
    if invoices == [] then 0
    else
      var last := invoices[|invoices| - 1];
      CountOf(invoices[..|invoices| - 1], status, lo, hi, now)
      + if StartsIn(last, lo, hi) && Effective(last, now) == status then 1 else 0
  }

  /** One group of the method breakdown. */
  function PaidBy(payments: seq<Payment>, channel: PaymentMethod, lo: int, hi: int): int {
    if payments == [] then 0
    else
      var last := payments[|payments| - 1];
      PaidBy(payments[..|payments| - 1], channel, lo, hi)
      + if ReceivedIn(last, lo, hi) && last.channel == channel then last.amount else 0
  }

  function CountBy(payments: seq<Payment>, channel: PaymentMethod, lo: int, hi: int): nat {
    if payments == [] then 0
    else
      var last := payments[|payments| - 1];
      CountBy(payments[..|payments| - 1], channel, lo, hi)
      + if ReceivedIn(last, lo, hi) && last.channel == channel then 1 else 0
  }

  /** A row of a breakdown. */
  datatype Metric<T> = Metric(group: T, count: nat, amount: int)

  /** The groups in the order of their names. */
  const STATUS_ORDER := [ShownOverdue, ShownPaid, ShownPartial, ShownUnpaid, ShownVoid]
  const METHOD_ORDER := [Cash, ManualTransfer]

  /** GROUP BY: the groups among `order` that have a row at all. */
  function StatusRows(invoices: seq<Invoice>, order: seq<EffectiveStatus>, lo: int, hi: int, now: int)
    : seq<Metric<EffectiveStatus>>
  {
    if order == [] then []
    else
      var (rest, status) := (StatusRows(invoices, order[..|order| - 1], lo, hi, now), order[|order| - 1]);
      var count := CountOf(invoices, status, lo, hi, now);
      if count == 0 then rest else rest + [Metric(status, count, AmountOf(invoices, status, lo, hi, now))]
  }

  function MethodRows(payments: seq<Payment>, order: seq<PaymentMethod>, lo: int, hi: int): seq<Metric<PaymentMethod>> {
    if order == [] then []
    else
      var (rest, channel) := (MethodRows(payments, order[..|order| - 1], lo, hi), order[|order| - 1]);
      var count := CountBy(payments, channel, lo, hi);
      if count == 0 then rest else rest + [Metric(channel, count, PaidBy(payments, channel, lo, hi))]
  }

  /** The sum of the rows of a breakdown whose group is none of `without`. */
  function RowsAmount<T(==)>(rows: seq<Metric<T>>, without: set<T>): int {
    if rows == [] then 0
    else
      var last := rows[|rows| - 1];
      RowsAmount(rows[..|rows| - 1], without) + if last.group in without then 0 else last.amount
  }

  function RowsCount<T(==)>(rows: seq<Metric<T>>, without: set<T>): nat {
    if rows == [] then 0
    else
      var last := rows[|rows| - 1];
      RowsCount(rows[..|rows| - 1], without) + if last.group in without then 0 else last.count
  }

  datatype Month = Month(month: nat, invoiced: int, collected: int)

  function MonthRow(b: Books, month: nat): Month {
    var (lo, hi) := (MonthStart(month), MonthStart(month + 1));
    Month(month, InvoicedIn(b.invoices, lo, hi), CollectedIn(b.payments, lo, hi))
  }

  /** The rows of the months `from, from + 1, ...`, `count` of them. */
  function Monthly(b: Books, from: nat, count: nat): (rows: seq<Month>)
    ensures |rows| == count
  {
    seq(count, i requires 0 <= i < count => MonthRow(b, from + i))
  }

  datatype ReportSummary = ReportSummary(
    invoiced: int, invoicedCount: nat, collected: int, collectedCount: nat,
    outstanding: int, overdue: int, overdueCount: nat,
    byStatus: seq<Metric<EffectiveStatus>>, byMethod: seq<Metric<PaymentMethod>>, monthly: seq<Month>)

  /** The report of the months `from` to `to`. */
  function SummaryOf(b: Books, from: nat, to: nat, now: int): ReportSummary
    requires from <= to
  {
    var (lo, hi) := (MonthStart(from), MonthStart(to + 1));
    ReportSummary(
      InvoicedIn(b.invoices, lo, hi), InvoicedCount(b.invoices, lo, hi),
      CollectedIn(b.payments, lo, hi), CollectedCount(b.payments, lo, hi),
      Outstanding(b, |b.invoices|), Overdue(b, |b.invoices|, now), OverdueCount(b.invoices, now),
      StatusRows(b.invoices, STATUS_ORDER, lo, hi, now), MethodRows(b.payments, METHOD_ORDER, lo, hi),
      Monthly(b, from, to + 1 - from))
  }

  function SumInvoiced(rows: seq<Month>): int {
    if rows == [] then 0 else SumInvoiced(rows[..|rows| - 1]) + rows[|rows| - 1].invoiced
  }

  function SumCollected(rows: seq<Month>): int {
    if rows == [] then 0 else SumCollected(rows[..|rows| - 1]) + rows[|rows| - 1].collected
  }

  // ---------------------------------------------------------------- months add up

  lemma {:induction false} InvoicedSplits(invoices: seq<Invoice>, lo: int, mid: int, hi: int)
    requires lo <= mid <= hi
    ensures InvoicedIn(invoices, lo, hi) == InvoicedIn(invoices, lo, mid) + InvoicedIn(invoices, mid, hi)
  {
    if invoices == [] {
    } else {
      InvoicedSplits(invoices[..|invoices| - 1], lo, mid, hi);
    }
  }

  lemma {:induction false} CollectedSplits(payments: seq<Payment>, lo: int, mid: int, hi: int)
    requires lo <= mid <= hi
    ensures CollectedIn(payments, lo, hi) == CollectedIn(payments, lo, mid) + CollectedIn(payments, mid, hi)
  {
    if payments == [] {
    } else {
      CollectedSplits(payments[..|payments| - 1], lo, mid, hi);
    }
  }

  lemma {:induction false} NothingInEmptyRange(b: Books, day: int)
    ensures InvoicedIn(b.invoices, day, day) == 0 && CollectedIn(b.payments, day, day) == 0
  {
    InvoicedSplits(b.invoices, day, day, day);
    CollectedSplits(b.payments, day, day, day);
  }

  lemma LastMonth(b: Books, from: nat, count: nat, last: Month)
    requires count > 0 && last == MonthRow(b, from + count - 1)
    ensures SumInvoiced(Monthly(b, from, count)) == SumInvoiced(Monthly(b, from, count - 1)) + last.invoiced
    ensures SumCollected(Monthly(b, from, count)) == SumCollected(Monthly(b, from, count - 1)) + last.collected
  {
    assert Monthly(b, from, count)[..count - 1] == Monthly(b, from, count - 1);
    assert Monthly(b, from, count)[count - 1] == last;
  }

  /** Sums over the days up to `mid`, and those of one more row, are the sums over the days up to `hi`. */
  lemma RangeGrows(b: Books, lo: int, mid: int, hi: int, invoiced: int, collected: int, last: Month)
    requires lo <= mid <= hi
    requires invoiced == InvoicedIn(b.invoices, lo, mid) && collected == CollectedIn(b.payments, lo, mid)
    requires last.invoiced == InvoicedIn(b.invoices, mid, hi) && last.collected == CollectedIn(b.payments, mid, hi)
    ensures invoiced + last.invoiced == InvoicedIn(b.invoices, lo, hi)
    ensures collected + last.collected == CollectedIn(b.payments, lo, hi)
  {
    InvoicedSplits(b.invoices, lo, mid, hi);
    CollectedSplits(b.payments, lo, mid, hi);
  }

  /** `rows` add up to what lies in `[lo, hi)`. */
  predicate AddUp(b: Books, rows: seq<Month>, lo: int, hi: int) {
    SumInvoiced(rows) == InvoicedIn(b.invoices, lo, hi) && SumCollected(rows) == CollectedIn(b.payments, lo, hi)
  }

  lemma OneMoreMonth(b: Books, from: nat, count: nat, lo: int, mid: int, hi: int)
    requires lo <= mid <= hi && AddUp(b, Monthly(b, from, count), lo, mid)
    requires MonthRow(b, from + count)
             == Month(from + count, InvoicedIn(b.invoices, mid, hi), CollectedIn(b.payments, mid, hi))
    ensures AddUp(b, Monthly(b, from, count + 1), lo, hi)
  {
    var (last, before) := (MonthRow(b, from + count), Monthly(b, from, count));
    LastMonth(b, from, count + 1, last);
    RangeGrows(b, lo, mid, hi, SumInvoiced(before), SumCollected(before), last);
  }

  lemma RowOf(b: Books, month: nat, mid: int, hi: int)
    requires mid == MonthStart(month) && hi == MonthStart(month + 1)
    ensures mid <= hi
    ensures MonthRow(b, month) == Month(month, InvoicedIn(b.invoices, mid, hi), CollectedIn(b.payments, mid, hi))
  {
    assert hi == mid + DaysIn(month);
  }

  lemma NextMonth(b: Books, from: nat, count: nat, lo: int, mid: int, hi: int)
    requires lo == MonthStart(from) && mid == MonthStart(from + count) && hi == MonthStart(from + count + 1)
    requires AddUp(b, Monthly(b, from, count), lo, mid)
    ensures AddUp(b, Monthly(b, from, count + 1), lo, hi)
  {
    MonthsInOrder(from, from + count);
    RowOf(b, from + count, mid, hi);
    OneMoreMonth(b, from, count, lo, mid, hi);
  }

  /** The monthly rows add up to the range totals, for any books and any range. */
  lemma {:induction false} MonthlyRowsSumToTotals(b: Books, from: nat, count: nat)
    ensures AddUp(b, Monthly(b, from, count), MonthStart(from), MonthStart(from + count))
  {
    if count == 0 {
      NothingInEmptyRange(b, MonthStart(from));
      assert Monthly(b, from, count) == [];
    } else {
      var before := count - 1;
      MonthlyRowsSumToTotals(b, from, before);
      NextMonth(b, from, before, MonthStart(from), MonthStart(from + before), MonthStart(from + before + 1));
      assert from + before + 1 == from + count;
    }
  }

  // ---------------------------------------------------------------- breakdowns add up

  /** The amounts of the groups of `order` other than void. */
  function GroupsAmount(invoices: seq<Invoice>, order: seq<EffectiveStatus>, lo: int, hi: int, now: int): int {
    if order == [] then 0
    else
      var status := order[|order| - 1];
      GroupsAmount(invoices, order[..|order| - 1], lo, hi, now)
      + if status == ShownVoid then 0 else AmountOf(invoices, status, lo, hi, now)
  }

  function GroupsCount(invoices: seq<Invoice>, order: seq<EffectiveStatus>, lo: int, hi: int, now: int): nat {
    if order == [] then 0
    else
      var status := order[|order| - 1];
      GroupsCount(invoices, order[..|order| - 1], lo, hi, now)
      + if status == ShownVoid then 0 else CountOf(invoices, status, lo, hi, now)
  }

  lemma {:induction false} EmptyGroup(invoices: seq<Invoice>, status: EffectiveStatus, lo: int, hi: int, now: int)
    requires CountOf(invoices, status, lo, hi, now) == 0
    ensures AmountOf(invoices, status, lo, hi, now) == 0
  {
    if invoices == [] {
    } else {
      EmptyGroup(invoices[..|invoices| - 1], status, lo, hi, now);
    }
  }

  lemma {:induction false} RowsAreGroups(invoices: seq<Invoice>, order: seq<EffectiveStatus>, lo: int, hi: int,
                                         now: int)
    ensures var rows := StatusRows(invoices, order, lo, hi, now);
            && RowsAmount(rows, {ShownVoid}) == GroupsAmount(invoices, order, lo, hi, now)
            && RowsCount(rows, {ShownVoid}) == GroupsCount(invoices, order, lo, hi, now)
  {
    if order == [] {
    } else {
      var (init, status) := (order[..|order| - 1], order[|order| - 1]);
      RowsAreGroups(invoices, init, lo, hi, now);
      var rows := StatusRows(invoices, order, lo, hi, now);
      if CountOf(invoices, status, lo, hi, now) == 0 {
        EmptyGroup(invoices, status, lo, hi, now);
      } else {
        assert rows[..|rows| - 1] == StatusRows(invoices, init, lo, hi, now);
      }
    }
  }

  /** An invoice lies in one group. */
  lemma OneMoreInvoice(invoices: seq<Invoice>, lo: int, hi: int, now: int)
    requires invoices != []
    ensures var (init, last) := (invoices[..|invoices| - 1], invoices[|invoices| - 1]);
            var counts := last.status != Void && StartsIn(last, lo, hi);
            && FourAmounts(invoices, lo, hi, now) == FourAmounts(init, lo, hi, now) + (if counts then last.total else 0)
            && FourCounts(invoices, lo, hi, now) == FourCounts(init, lo, hi, now) + (if counts then 1 else 0)
  {
  }

  function FourAmounts(invoices: seq<Invoice>, lo: int, hi: int, now: int): int {
    AmountOf(invoices, ShownOverdue, lo, hi, now) + AmountOf(invoices, ShownPaid, lo, hi, now)
    + AmountOf(invoices, ShownPartial, lo, hi, now) + AmountOf(invoices, ShownUnpaid, lo, hi, now)
  }

  function FourCounts(invoices: seq<Invoice>, lo: int, hi: int, now: int): nat {
    CountOf(invoices, ShownOverdue, lo, hi, now) + CountOf(invoices, ShownPaid, lo, hi, now)
    + CountOf(invoices, ShownPartial, lo, hi, now) + CountOf(invoices, ShownUnpaid, lo, hi, now)
  }

  lemma {:induction false} FourAreAll(invoices: seq<Invoice>, lo: int, hi: int, now: int)
    ensures FourAmounts(invoices, lo, hi, now) == InvoicedIn(invoices, lo, hi)
    ensures FourCounts(invoices, lo, hi, now) == InvoicedCount(invoices, lo, hi)
  {
    if invoices == [] {
    } else {
      FourAreAll(invoices[..|invoices| - 1], lo, hi, now);
      OneMoreInvoice(invoices, lo, hi, now);
    }
  }

  lemma FourGroups(invoices: seq<Invoice>, lo: int, hi: int, now: int)
    ensures GroupsAmount(invoices, STATUS_ORDER, lo, hi, now) == FourAmounts(invoices, lo, hi, now)
    ensures GroupsCount(invoices, STATUS_ORDER, lo, hi, now) == FourCounts(invoices, lo, hi, now)
  {
    assert STATUS_ORDER == [ShownOverdue] + [ShownPaid] + [ShownPartial] + [ShownUnpaid] + [ShownVoid];
    OneMoreGroup(invoices, [], ShownOverdue, lo, hi, now);
    OneMoreGroup(invoices, [ShownOverdue], ShownPaid, lo, hi, now);
    OneMoreGroup(invoices, [ShownOverdue] + [ShownPaid], ShownPartial, lo, hi, now);
    OneMoreGroup(invoices, [ShownOverdue] + [ShownPaid] + [ShownPartial], ShownUnpaid, lo, hi, now);
    OneMoreGroup(invoices, [ShownOverdue] + [ShownPaid] + [ShownPartial] + [ShownUnpaid], ShownVoid, lo, hi, now);
    assert [] + [ShownOverdue] == [ShownOverdue];
  }

  lemma OneMoreGroup(invoices: seq<Invoice>, order: seq<EffectiveStatus>, status: EffectiveStatus, lo: int, hi: int,
                     now: int)
    ensures GroupsAmount(invoices, order + [status], lo, hi, now)
            == GroupsAmount(invoices, order, lo, hi, now)
               + if status == ShownVoid then 0 else AmountOf(invoices, status, lo, hi, now)
    ensures GroupsCount(invoices, order + [status], lo, hi, now)
            == GroupsCount(invoices, order, lo, hi, now)
               + if status == ShownVoid then 0 else CountOf(invoices, status, lo, hi, now)
  {
    assert (order + [status])[..|order|] == order;
  }

  /** The rows of the status breakdown other than void add up to the invoiced amount and count. */
  lemma BreakdownSumsToInvoiced(invoices: seq<Invoice>, lo: int, hi: int, now: int)
    ensures var rows := StatusRows(invoices, STATUS_ORDER, lo, hi, now);
            && RowsAmount(rows, {ShownVoid}) == InvoicedIn(invoices, lo, hi)
            && RowsCount(rows, {ShownVoid}) == InvoicedCount(invoices, lo, hi)
  {
    RowsAreGroups(invoices, STATUS_ORDER, lo, hi, now);
    FourGroups(invoices, lo, hi, now);
    FourAreAll(invoices, lo, hi, now);
  }

  lemma {:induction false} NobodyPaidBy(payments: seq<Payment>, channel: PaymentMethod, lo: int, hi: int)
    requires CountBy(payments, channel, lo, hi) == 0
    ensures PaidBy(payments, channel, lo, hi) == 0
  {
    if payments == [] {
    } else {
      NobodyPaidBy(payments[..|payments| - 1], channel, lo, hi);
    }
  }

  lemma {:induction false} TwoMethods(payments: seq<Payment>, lo: int, hi: int)
    ensures PaidBy(payments, Cash, lo, hi) + PaidBy(payments, ManualTransfer, lo, hi) == CollectedIn(payments, lo, hi)
    ensures CountBy(payments, Cash, lo, hi) + CountBy(payments, ManualTransfer, lo, hi)
            == CollectedCount(payments, lo, hi)
  {
    if payments == [] {
    } else {
      TwoMethods(payments[..|payments| - 1], lo, hi);
    }
  }

  /** The rows of the method breakdown add up to the collected amount and count. */
  lemma MethodsSumToCollected(payments: seq<Payment>, lo: int, hi: int)
    ensures var rows := MethodRows(payments, METHOD_ORDER, lo, hi);
            && RowsAmount(rows, {}) == CollectedIn(payments, lo, hi)
            && RowsCount(rows, {}) == CollectedCount(payments, lo, hi)
  {
    assert METHOD_ORDER == [] + [Cash] + [ManualTransfer];
    OneMoreMethod(payments, [], Cash, lo, hi);
    OneMoreMethod(payments, [] + [Cash], ManualTransfer, lo, hi);
    TwoMethods(payments, lo, hi);
  }

  lemma OneMoreMethod(payments: seq<Payment>, order: seq<PaymentMethod>, channel: PaymentMethod, lo: int, hi: int)
    ensures var (rows, more) := (MethodRows(payments, order, lo, hi), MethodRows(payments, order + [channel], lo, hi));
            && RowsAmount(more, {}) == RowsAmount(rows, {}) + PaidBy(payments, channel, lo, hi)
            && RowsCount(more, {}) == RowsCount(rows, {}) + CountBy(payments, channel, lo, hi)
  {
    assert (order + [channel])[..|order|] == order;
    var (rows, more) := (MethodRows(payments, order, lo, hi), MethodRows(payments, order + [channel], lo, hi));
    if CountBy(payments, channel, lo, hi) == 0 {
      NobodyPaidBy(payments, channel, lo, hi);
    } else {
      assert more[..|more| - 1] == rows;
    }
  }

  // ---------------------------------------------------------------- conservation

  function AllInvoiced(invoices: seq<Invoice>): int {
    if invoices == [] then 0
    else
      var last := invoices[|invoices| - 1];
      AllInvoiced(invoices[..|invoices| - 1]) + if last.status != Void then last.total else 0
  }

  function AllCollected(payments: seq<Payment>): int {
    if payments == [] then 0
    else
      var last := payments[|payments| - 1];
      AllCollected(payments[..|payments| - 1]) + if last.status == Posted then last.amount else 0
  }

  /** Money posted to any of the first `n` invoices. */
  function PostedToFirst(allocations: seq<Allocation>, payments: seq<Payment>, n: nat): int {
    if n == 0 then 0 else PostedToFirst(allocations, payments, n - 1) + PostedSum(allocations, payments, n - 1)
  }

  lemma {:induction false} OneMoreAllocation(allocations: seq<Allocation>, a: Allocation, payments: seq<Payment>,
                                             n: nat)
    ensures PostedToFirst(allocations + [a], payments, n)
            == PostedToFirst(allocations, payments, n) + if a.invoice < n && CountsFor(a, payments, a.invoice)
                then a.amount else 0
  {
    if n == 0 {
    } else {
      OneMoreAllocation(allocations, a, payments, n - 1);
      assert (allocations + [a])[..|allocations|] == allocations;
    }
  }

  lemma {:induction false} NoAllocations(payments: seq<Payment>, n: nat)
    ensures PostedToFirst([], payments, n) == 0
  {
    if n == 0 {
    } else {
      NoAllocations(payments, n - 1);
    }
  }

  /** Summing by invoice or by payment is the same, since each payment has one allocation of its amount. */
  lemma {:induction false} PostedByInvoiceOrPayment(b: Books, k: nat)
    requires WellFormed(b) && k <= |b.payments|
    ensures PostedToFirst(b.allocations[..k], b.payments, |b.invoices|) == AllCollected(b.payments[..k])
  {
    if k == 0 {
      NoAllocations(b.payments, |b.invoices|);
    } else {
      PostedByInvoiceOrPayment(b, k - 1);
      assert b.allocations[..k] == b.allocations[..k - 1] + [b.allocations[k - 1]];
      assert b.payments[..k][..k - 1] == b.payments[..k - 1];
      OneMoreAllocation(b.allocations[..k - 1], b.allocations[k - 1], b.payments, |b.invoices|);
    }
  }

  lemma {:induction false} OwedOrPosted(b: Books, n: nat)
    requires ValidBooks(b) && n <= |b.invoices|
    ensures AllInvoiced(b.invoices[..n]) == PostedToFirst(b.allocations, b.payments, n) + Outstanding(b, n)
  {
    if n == 0 {
    } else {
      OwedOrPosted(b, n - 1);
      assert b.invoices[..n][..n - 1] == b.invoices[..n - 1];
      assert Settled(b.invoices[n - 1], PostedTo(b, n - 1));
    }
  }

  /** Every cent invoiced and not voided is either collected by a posted payment or outstanding. */
  lemma InvoicedIsCollectedPlusOutstanding(b: Books)
    requires ValidBooks(b)
    ensures AllInvoiced(b.invoices) == AllCollected(b.payments) + Outstanding(b, |b.invoices|)
  {
    OwedOrPosted(b, |b.invoices|);
    PostedByInvoiceOrPayment(b, |b.payments|);
    assert b.invoices[..|b.invoices|] == b.invoices;
    assert b.allocations[..|b.payments|] == b.allocations && b.payments[..|b.payments|] == b.payments;
  }

  /** Overdue is a part of outstanding, and both are amounts owed, never credit. */
  lemma {:induction false} OverdueWithinOutstanding(b: Books, n: nat, now: int)
    requires ValidBooks(b) && n <= |b.invoices|
    ensures 0 <= Overdue(b, n, now) <= Outstanding(b, n)
  {
    if n == 0 {
    } else {
      OverdueWithinOutstanding(b, n - 1, now);
      assert Settled(b.invoices[n - 1], PostedTo(b, n - 1));
    }
  }

  predicate OverdueAt(b: Books, i: nat, now: int)
    requires i < |b.invoices|
  {
    Open(b.invoices[i]) && b.invoices[i].dueAt < now && b.invoices[i].total > 0
  }

  /** There is an overdue amount if and only if an open invoice over more than nothing is past its due date. */
  lemma {:induction false} OverdueIsOwed(b: Books, n: nat, now: int)
    requires ValidBooks(b) && n <= |b.invoices|
    ensures Overdue(b, n, now) > 0 <==> exists i | 0 <= i < n :: OverdueAt(b, i, now)
  {
    if n == 0 {
    } else {
      OverdueIsOwed(b, n - 1, now);
      OverdueWithinOutstanding(b, n - 1, now);
      assert Settled(b.invoices[n - 1], PostedTo(b, n - 1));
      assert OverdueAt(b, n - 1, now) ==> Overdue(b, n, now) > 0;
    }
  }
}
