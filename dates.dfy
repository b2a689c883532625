/**
  The part of java.time.LocalDate the filters use: ISO calendar dates,
  `isBefore`, `compareTo` and `minusYears`.
 */
module Dates {

  datatype Date = Date(year: int, month: int, day: int)

  /** IsoChronology.isLeapYear (proleptic years; only zero tests of remainders, so sign conventions agree). */
  predicate IsLeapYear(year: int) {
    year % 4 == 0 && (year % 100 != 0 || year % 400 == 0)
  }

  /** LocalDate.lengthOfMonth. */
  function LengthOfMonth(year: int, month: int): int {
    if month == 2 then (if IsLeapYear(year) then 29 else 28)
    else if month == 4 || month == 6 || month == 9 || month == 11 then 30
    else 31
  }

  /** A date LocalDate can represent (the year range limit is not modelled). */
  predicate Valid(d: Date) {
    1 <= d.month <= 12 && 1 <= d.day <= LengthOfMonth(d.year, d.month)
  }

  /** LocalDate.isBefore: year, then month, then day. */
  predicate Before(a: Date, b: Date): (r: bool)
    ensures r ==> a != b && a.year <= b.year
    ensures a.year < b.year ==> r
  {
    a.year < b.year
    || (a.year == b.year && (a.month < b.month || (a.month == b.month && a.day < b.day)))
  }

  /** LocalDate.compareTo, reduced to its sign. */
  function Compare(a: Date, b: Date): int {
    if Before(a, b) then -1 else if a == b then 0 else 1
  }

  /**
    LocalDate.minusYears: the same month and day `years` years earlier; a day
    the target month lacks (February 29 in a common year) becomes the last
    day of that month.
   */
  function MinusYears(d: Date, years: int): (r: Date)
    ensures r.year == d.year - years && r.month == d.month
    ensures r.day <= d.day
  {
    var year := d.year - years;
    var last := LengthOfMonth(year, d.month);
    Date(year, d.month, if d.day > last then last else d.day)
  }

  /** Subtracting at least one year gives a strictly earlier date. */
  lemma MinusYearsIsEarlier(d: Date, years: int)
    requires years >= 1
    ensures Before(MinusYears(d, years), d)
  {
  }

  /** Subtracting more years never gives a later date. */
  lemma MinusYearsAntitone(d: Date, fewer: int, more: int)
    requires fewer <= more
    ensures !Before(MinusYears(d, fewer), MinusYears(d, more))
  {
  }

  /** A valid date stays valid. */
  lemma MinusYearsValid(d: Date, years: int)
    requires Valid(d)
    ensures Valid(MinusYears(d, years))
  {
  }

  /** Only February 29 moves: every other valid date keeps its month and day. */
  lemma MinusYearsKeepsDay(d: Date, years: int)
    requires Valid(d) && !(d.month == 2 && d.day == 29)
    ensures MinusYears(d, years) == Date(d.year - years, d.month, d.day)
  {
  }

  /** February 29 becomes February 28 when the target year is a common year, and stays otherwise. */
  lemma MinusYearsLeapDay(d: Date, years: int)
    requires d.month == 2 && d.day == 29
    ensures MinusYears(d, years) == Date(d.year - years, 2, if IsLeapYear(d.year - years) then 29 else 28)
  {
  }

  lemma MinusYearsLeapDayExamples()
    ensures MinusYears(Date(2024, 2, 29), 1) == Date(2023, 2, 28)
    ensures MinusYears(Date(2024, 2, 29), 4) == Date(2020, 2, 29)
  {
  }

  /** `Compare` is a total order whose zero is equality. */
  lemma CompareFacts(a: Date, b: Date, c: Date)
    ensures Compare(a, b) == -Compare(b, a)
    ensures Compare(a, b) == 0 <==> a == b
    ensures Compare(a, b) < 0 <==> Before(a, b)
    ensures Compare(a, b) <= 0 && Compare(b, c) <= 0 ==> Compare(a, c) <= 0
  {
  }
}
