/** Rounding of PostgreSQL `numeric` values, as the billing SQL uses it: half away from zero. */
module Money {

  datatype Option<+T> = None | Some(value: T)

  /** `round(x)` on numeric: the nearest integer, ties away from zero. */
  function RoundHalfAway(x: real): (n: int)
    ensures x >= 0.0 ==> n >= 0 && -0.5 <= x - n as real < 0.5
    ensures x < 0.0 ==> n <= 0 && -0.5 < x - n as real <= 0.5
  {
    if x >= 0.0 then (x + 0.5).Floor else -((0.5 - x).Floor)
  }

  /** `round(x, 2)` of an amount, counted in cents. */
  function Cents(x: real): int {
    RoundHalfAway(x * 100.0)
  }

  /** `round(x, 4)` of a tax percentage, counted in ten-thousandths of a percent. */
  function TaxUnits(x: real): int {
    RoundHalfAway(x * 10000.0)
  }

  /** Both record the nearest unit, ties away from zero, and what is a whole number of units exactly. */
  lemma RecordedNearest(x: real)
    ensures -0.5 <= 100.0 * x - Cents(x) as real <= 0.5 && -0.5 <= 10000.0 * x - TaxUnits(x) as real <= 0.5
    ensures x >= 0.0 ==> 100.0 * x - Cents(x) as real < 0.5 && 10000.0 * x - TaxUnits(x) as real < 0.5
    ensures x <= 0.0 ==> 100.0 * x - Cents(x) as real > -0.5 && 10000.0 * x - TaxUnits(x) as real > -0.5
    ensures Cents(x) > 0 <==> 100.0 * x >= 0.5
    ensures Cents(x) < 0 <==> 100.0 * x <= -0.5
    ensures TaxUnits(x) < 0 <==> 10000.0 * x <= -0.5
  {
    assert x * 100.0 == 100.0 * x && x * 10000.0 == 10000.0 * x;
  }

  lemma AtMostUnits(x: real, most: int)
    requires most >= 0
    ensures Cents(x) <= most <==> 100.0 * x < most as real + 0.5
    ensures TaxUnits(x) <= most <==> 10000.0 * x < most as real + 0.5
  {
    RecordedNearest(x);
  }

  const TAX_SCALE := 1_000_000  // ten-thousandths of a percent per whole

  /** `round(round(amount, 2) * tax / 100, 2)`, in cents. */
  function TaxOf(subtotal: int, tax: int): int {
    RoundHalfAway((subtotal * tax) as real / TAX_SCALE as real)
  }

  /** For every price and rate the schema admits, the tax is a whole number of cents between 0 and the
      subtotal, off by at most half a cent, and it is monotone in the subtotal: a dearer plan never
      carries less tax. */
  lemma TaxIsSound(subtotal: int, dearer: int, tax: int)
    requires 0 <= subtotal <= dearer && 0 <= tax <= TAX_SCALE
    ensures 0 <= TaxOf(subtotal, tax) <= subtotal
    ensures -TAX_SCALE <= 2 * (subtotal * tax - TaxOf(subtotal, tax) * TAX_SCALE) <= TAX_SCALE
    ensures TaxOf(subtotal, tax) <= TaxOf(dearer, tax)
  {
    Products(subtotal, dearer, tax);
    Rounded(subtotal * tax, subtotal);
    RoundingIsMonotone((subtotal * tax) as real / TAX_SCALE as real, (dearer * tax) as real / TAX_SCALE as real);
  }

  lemma Products(subtotal: int, dearer: int, tax: int)
    requires 0 <= subtotal <= dearer && 0 <= tax <= TAX_SCALE
    ensures 0 <= subtotal * tax <= subtotal * TAX_SCALE && subtotal * tax <= dearer * tax
  {
  }

  /** Rounding a non-negative quotient by the scale. */
  lemma Rounded(n: int, most: int)
    requires 0 <= n <= most * TAX_SCALE
    ensures var r := RoundHalfAway(n as real / TAX_SCALE as real);
            0 <= r <= most && -TAX_SCALE <= 2 * (n - r * TAX_SCALE) <= TAX_SCALE
  {
  }

  lemma RoundingIsMonotone(x: real, y: real)
    requires 0.0 <= x <= y
    ensures RoundHalfAway(x) <= RoundHalfAway(y)
  {
    assert (x + 0.5).Floor <= (y + 0.5).Floor;
  }
}
