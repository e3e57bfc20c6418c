/** Proleptic Gregorian dates as Python's `datetime.date` has them (years 1 to
    9999), reduced to what the header stores: a year and a day of the year. */
module Calendar {

  import opened Wrappers

  const MIN_YEAR: nat := 1
  const MAX_YEAR: nat := 9999

  predicate IsLeap(y: nat) {
    y % 4 == 0 && (y % 100 != 0 || y % 400 == 0)
  }

  function DaysInYear(y: nat): nat {
    if IsLeap(y) then 366 else 365
  }

  /** Days in the years 1 to y - 1: the ordinal of 1 January of year y, less one. */
  function DaysBefore(y: nat): nat {
    if y <= 1 then 0 else DaysBefore(y - 1) + DaysInYear(y - 1)
  }

  /** The ordinal of 31 December 9999, the last day `date` can hold. */
  function MaxOrdinal(): nat {
    DaysBefore(MAX_YEAR + 1)
  }

  /** A `date`: a year in range and a day within that year. */
  datatype Date = Date(year: nat, dayOfYear: nat)

  predicate Valid(d: Date) {
    MIN_YEAR <= d.year <= MAX_YEAR && 1 <= d.dayOfYear <= DaysInYear(d.year)
  }

  /** `date.toordinal()`: 1 January of year 1 is day 1. */
  function Ordinal(d: Date): nat {
    DaysBefore(d.year) + d.dayOfYear
  }

  lemma {:induction false} DaysBeforeMonotone(x: nat, y: nat)
    requires 1 <= x <= y
    ensures DaysBefore(x) + 365 * (y - x) <= DaysBefore(y)
    decreases y - x
  {
    if x < y {
      DaysBeforeMonotone(x, y - 1);
    }
  }

  /** The year holding ordinal `o`, searched from year `y` upwards. */
  function YearFrom(o: nat, y: nat): (r: nat)
    requires MIN_YEAR <= y <= MAX_YEAR && DaysBefore(y) < o <= MaxOrdinal()
    ensures y <= r <= MAX_YEAR && DaysBefore(r) < o <= DaysBefore(r + 1)
    decreases MAX_YEAR - y
  {
    if o <= DaysBefore(y + 1) then y else YearFrom(o, y + 1)
  }

  /** `date.fromordinal(o)`, as a year and a day of the year. */
  function FromOrdinal(o: nat): (d: Date)
    requires 1 <= o <= MaxOrdinal()
    ensures Valid(d) && Ordinal(d) == o
  {
    var y := YearFrom(o, MIN_YEAR);
    Date(y, o - DaysBefore(y))
  }

  lemma {:induction false} YearFromFinds(d: Date, y: nat)
    requires Valid(d) && MIN_YEAR <= y <= d.year
    requires DaysBefore(y) < Ordinal(d) <= MaxOrdinal()
    ensures YearFrom(Ordinal(d), y) == d.year
    decreases d.year - y
  {
    var o := Ordinal(d);
    DaysBeforeMonotone(y, d.year);
    if y < d.year {
      DaysBeforeMonotone(y + 1, d.year);
      YearFromFinds(d, y + 1);
    }
  }

  /** Every valid date lies within the range `date` covers. */
  lemma OrdinalInRange(d: Date)
    requires Valid(d)
    ensures 1 <= Ordinal(d) <= MaxOrdinal()
  {
    DaysBeforeMonotone(d.year + 1, MAX_YEAR + 1);
  }

  /** The ordinal determines the date. */
  lemma FromOrdinalOrdinal(d: Date)
    requires Valid(d)
    ensures 1 <= Ordinal(d) <= MaxOrdinal() && FromOrdinal(Ordinal(d)) == d
  {
    OrdinalInRange(d);
    YearFromFinds(d, MIN_YEAR);
  }

  /** What `read_from` makes of the stored day and year:
      `date(year, 1, 1) + timedelta(day - 1)`. A year outside 1 to 9999 makes
      `date` raise ValueError, which is caught and gives no date; a day that
      carries the sum outside the range raises OverflowError, which is not. */
  function FromStored(dayOfYear: nat, year: nat): (r: Result<Option<Date>>)
    ensures r.Ok? && r.value.Some? ==> Valid(r.value.value)
    ensures r.Ok? && r.value.None? <==> !(MIN_YEAR <= year <= MAX_YEAR)
    ensures r.Ok? && r.value.Some? ==> Ordinal(r.value.value) == DaysBefore(year) + dayOfYear
  {
    if !(MIN_YEAR <= year <= MAX_YEAR) then Ok(None)
    else
      var o := DaysBefore(year) + dayOfYear;
      if o < 1 || o > MaxOrdinal() then Err(DateOverflow)
      else Ok(Some(FromOrdinal(o)))
  }

  /** A date written as its day of the year and year reads back as itself. */
  lemma FromStoredValid(d: Date)
    requires Valid(d)
    ensures FromStored(d.dayOfYear, d.year) == Ok(Some(d))
  {
    FromOrdinalOrdinal(d);
  }

  /** An out-of-range day of the year is carried into the following years. */
  lemma FromStoredCarries(year: nat)
    requires MIN_YEAR <= year < MAX_YEAR
    ensures FromStored(DaysInYear(year) + 1, year) == Ok(Some(Date(year + 1, 1)))
  {
    FromOrdinalOrdinal(Date(year + 1, 1));
  }

  /** Day 0 of year 1 is before the first date and raises. */
  lemma FromStoredBeforeFirst()
    ensures FromStored(0, 1) == Err(DateOverflow)
  {
  }
}
