/** Packages and their price history: the `packages` and `package_prices` tables. */
module Pricing {
  import opened Money

  type Date = int

  datatype Price = Price(amount: int, tax: int)

  /** A row of `package_prices`; `until` is inclusive, `None` for a price still running. */
  datatype PriceRow = PriceRow(pkg: nat, price: Price, from: Date, until: Option<Date>)

  predicate Covers(r: PriceRow, p: nat, d: Date) {
    r.pkg == p && r.from <= d && (r.until.Some? ==> d <= r.until.value)
  }

  /** The lookup of billing and of the plan list: rows covering `d`, `ORDER BY valid_from DESC LIMIT 1`. */
  function Latest(rows: seq<PriceRow>, p: nat, d: Date): (r: Option<PriceRow>)
    ensures r.None? ==> forall i | 0 <= i < |rows| :: !Covers(rows[i], p, d)
    ensures r.Some? ==> r.value in rows && Covers(r.value, p, d)
                        && forall i | 0 <= i < |rows| && Covers(rows[i], p, d) :: rows[i].from <= r.value.from
  {
    if rows == [] then None
    else
      var last := rows[|rows| - 1];
      var best := Latest(rows[..|rows| - 1], p, d);
      if Covers(last, p, d) && (best.None? || best.value.from < last.from) then Some(last) else best
  }

  /** A price and the day it took effect. */
  datatype Quote = Quote(since: Date, price: Price)

  function InForce(rows: seq<PriceRow>, p: nat, d: Date): Option<Quote> {
    match Latest(rows, p, d)
    case None => None
    case Some(r) => Some(Quote(r.from, r.price))
  }

  // ---------------------------------------------------------------- statements

  /** `UPDATE package_prices SET valid_until = CURRENT_DATE - 1 ...` on one row. */
  function Closed(r: PriceRow, p: nat, today: Date): PriceRow {
    if r.pkg == p && r.from < today && (r.until.Some? ==> today <= r.until.value)
    then r.(until := Some(today - 1))
    else r
  }

  function Close(rows: seq<PriceRow>, p: nat, today: Date): (out: seq<PriceRow>)
    ensures |out| == |rows|
    ensures forall i | 0 <= i < |rows| :: out[i] == Closed(rows[i], p, today)
  {
    seq(|rows|, i requires 0 <= i < |rows| => Closed(rows[i], p, today))
  }

  predicate Opens(r: PriceRow, p: nat, today: Date) {
    r.pkg == p && r.from == today
  }

  /** `INSERT ... ON CONFLICT (tenant_id, package_id, valid_from) DO UPDATE`: plan updates overwrite the
      tax of today's row, the router sync passes `None` and keeps it. */
  function Upsert(rows: seq<PriceRow>, p: nat, amount: int, insertTax: int, conflictTax: Option<int>, today: Date)
    : (out: seq<PriceRow>)
    ensures |rows| <= |out| <= |rows| + 1
    ensures forall i | 0 <= i < |rows| ::
              if Opens(rows[i], p, today)
              then out[i] == rows[i].(price :=
                                      Price(amount, if conflictTax.Some? then conflictTax.value else rows[i].price.tax))
              else out[i] == rows[i]
    ensures (|out| == |rows|) == exists i :: 0 <= i < |rows| && Opens(rows[i], p, today)
    ensures |out| > |rows| ==> out[|rows|] == PriceRow(p, Price(amount, insertTax), today, None)
  {
    if exists i :: 0 <= i < |rows| && Opens(rows[i], p, today) then
      seq(|rows|, i requires 0 <= i < |rows| =>
        if Opens(rows[i], p, today)
        then rows[i].(price := Price(amount, if conflictTax.Some? then conflictTax.value else rows[i].price.tax))
        else rows[i])
    else
      rows + [PriceRow(p, Price(amount, insertTax), today, None)]
  }

  /** The two statements of a plan update. */
  function SetPrice(rows: seq<PriceRow>, p: nat, price: Price, today: Date): seq<PriceRow> {
    Upsert(Close(rows, p, today), p, price.amount, price.tax, Some(price.tax), today)
  }

  /** The router sync writes only when no row covering today carries the amount already. */
  predicate SyncChanges(rows: seq<PriceRow>, p: nat, amount: int, today: Date) {
    !exists i :: 0 <= i < |rows| && Covers(rows[i], p, today) && rows[i].price.amount == amount
  }

  function SyncPrice(rows: seq<PriceRow>, p: nat, amount: int, today: Date): seq<PriceRow> {
    if SyncChanges(rows, p, amount, today)
    then Upsert(Close(rows, p, today), p, amount, 0, None, today)
    else rows
  }

  // ---------------------------------------------------------------- what every run keeps

  /** Two validity intervals share no day. */
  predicate Disjoint(a: PriceRow, b: PriceRow) {
    (a.until.Some? && a.until.value < b.from) || (b.until.Some? && b.until.value < a.from)
  }

  /** A history as of `today`: nothing starts later than today, a closed interval is non-empty and over,
      and the intervals of one package are pairwise disjoint (so at most one is open). */
  ghost predicate ValidHistory(rows: seq<PriceRow>, today: Date) {
    && (forall i | 0 <= i < |rows| ::
          rows[i].from <= today && (rows[i].until.Some? ==> rows[i].from <= rows[i].until.value < today))
    && (forall i, j | 0 <= i < j < |rows| && rows[i].pkg == rows[j].pkg :: Disjoint(rows[i], rows[j]))
  }

  /** Disjoint intervals leave the lookup no choice. */
  lemma TheOnlyCover(rows: seq<PriceRow>, today: Date, p: nat, d: Date, i: nat)
    requires ValidHistory(rows, today) && i < |rows| && Covers(rows[i], p, d)
    ensures Latest(rows, p, d) == Some(rows[i])
  {
    var r := Latest(rows, p, d);
    assert r.Some?;
    var j :| 0 <= j < |rows| && rows[j] == r.value;
    assert i < j ==> Disjoint(rows[i], rows[j]);
    assert j < i ==> Disjoint(rows[j], rows[i]);
  }

  lemma WriteKeepsHistory(rows: seq<PriceRow>, was: Date, p: nat, amount: int, insertTax: int, conflictTax: Option<int>,
                          today: Date)
    requires ValidHistory(rows, was) && was <= today
    ensures ValidHistory(Upsert(Close(rows, p, today), p, amount, insertTax, conflictTax, today), today)
  {
    var closed := Close(rows, p, today);
    var out := Upsert(closed, p, amount, insertTax, conflictTax, today);
    forall i, j | 0 <= i < j < |out| && out[i].pkg == out[j].pkg
      ensures Disjoint(out[i], out[j])
    {
      if j < |rows| {
        assert Disjoint(rows[i], rows[j]);
      } else {
        assert !Opens(closed[i], p, today);
      }
    }
  }

  /** The tax a write on `today` leaves: that of a price already set today if the conflict clause keeps it. */
  function TaxAfter(inForce: Option<Quote>, insertTax: int, conflictTax: Option<int>, today: Date): int {
    match inForce
    case Some(q) => if q.since != today then insertTax else if conflictTax.Some? then conflictTax.value else q.price.tax
    case None => insertTax
  }

  /** What writing a price means: the price of `p` from today on. */
  lemma WriteSetsPrice(rows: seq<PriceRow>, was: Date, p: nat, amount: int, insertTax: int, conflictTax: Option<int>,
                       today: Date, d: Date)
    requires ValidHistory(rows, was) && was <= today <= d
    ensures InForce(Upsert(Close(rows, p, today), p, amount, insertTax, conflictTax, today), p, d)
            == Some(Quote(today, Price(amount, TaxAfter(InForce(rows, p, today), insertTax, conflictTax, today))))
  {
    var closed := Close(rows, p, today);
    var out := Upsert(closed, p, amount, insertTax, conflictTax, today);
    WriteKeepsHistory(rows, was, p, amount, insertTax, conflictTax, today);
    if i :| 0 <= i < |rows| && Opens(rows[i], p, today) {
      assert Opens(closed[i], p, today) && closed[i] == rows[i];
      TheOnlyCover(out, today, p, d, i);
      TheOnlyCover(rows, was, p, today, i);
    } else {
      forall i | 0 <= i < |rows|
        ensures !Opens(closed[i], p, today)
      {
        assert !Opens(rows[i], p, today);
      }
      TheOnlyCover(out, today, p, d, |rows|);
      var r := Latest(rows, p, today);
      if r.Some? {
        var i :| 0 <= i < |rows| && rows[i] == r.value;
        assert !Opens(rows[i], p, today);
      }
    }
  }

  /** ... and all it changes: other packages, and every earlier day, keep the price they had. */
  lemma WriteChangesNothingElse(rows: seq<PriceRow>, was: Date, p: nat, amount: int, insertTax: int,
                                conflictTax: Option<int>, today: Date, q: nat, d: Date)
    requires ValidHistory(rows, was) && was <= today && (q != p || d < today)
    ensures InForce(Upsert(Close(rows, p, today), p, amount, insertTax, conflictTax, today), q, d)
            == InForce(rows, q, d)
  {
    var closed := Close(rows, p, today);
    var out := Upsert(closed, p, amount, insertTax, conflictTax, today);
    WriteKeepsHistory(rows, was, p, amount, insertTax, conflictTax, today);
    var r := Latest(rows, q, d);
    if r.Some? {
      var i :| 0 <= i < |rows| && rows[i] == r.value;
      assert Covers(closed[i], q, d) && !Opens(closed[i], p, today);
      TheOnlyCover(out, today, q, d, i);
    } else {
      forall i | 0 <= i < |out|
        ensures !Covers(out[i], q, d)
      {
        if i < |rows| { assert !Covers(rows[i], q, d); }
      }
    }
  }

  /** The guard of the router sync asks about rows; it is about the price in force. */
  lemma SyncChangesMeaning(rows: seq<PriceRow>, was: Date, p: nat, amount: int, today: Date)
    requires ValidHistory(rows, was) && was <= today
    ensures SyncChanges(rows, p, amount, today)
            <==> (InForce(rows, p, today).None? || InForce(rows, p, today).value.price.amount != amount)
  {
    if i :| 0 <= i < |rows| && Covers(rows[i], p, today) {
      TheOnlyCover(rows, was, p, today, i);
      forall j | 0 <= j < |rows| && Covers(rows[j], p, today)
        ensures rows[j] == rows[i]
      {
        TheOnlyCover(rows, was, p, today, j);
      }
    }
  }
}
