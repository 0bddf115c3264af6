/** Calendar dates of the proleptic Gregorian calendar, as Python's
    `datetime.date` has them. The log keys are ISO strings "YYYY-MM-DD"; for
    years 1..9999 the lexicographic order of those strings is the order
    `Before` below, so a date is kept as its (year, month, day) triple. */
module Dates {

  datatype Date = Date(year: int, month: int, day: int)

  /** A calendar month, the key `dt.strftime("%Y-%m")` of the monthly trend. */
  datatype YearMonth = YearMonth(year: int, month: int)

  const MIN_YEAR := 1
  const MAX_YEAR := 9999
  /** `date.min`: stepping back one day from it raises OverflowError. */
  const MIN_DATE := Date(1, 1, 1)

  predicate IsLeapYear(y: int) {
    y % 4 == 0 && (y % 100 != 0 || y % 400 == 0)
  }

  /** Days in month `m` of year `y` (31 for a month outside 1..12, which no
      valid date has). */
  function DaysInMonth(y: int, m: int): (n: int)
    ensures 28 <= n <= 31
    ensures n == 29 <==> m == 2 && IsLeapYear(y)
  {
    if m == 2 then (if IsLeapYear(y) then 29 else 28)
    else if m == 4 || m == 6 || m == 9 || m == 11 then 30
    else 31
  }

  /** The dates `date(year, month, day)` accepts without ValueError. */
  predicate ValidDate(d: Date) {
    MIN_YEAR <= d.year <= MAX_YEAR && 1 <= d.month <= 12 && 1 <= d.day <= DaysInMonth(d.year, d.month)
  }

  /** Strict chronological order, which is ISO-string order. */
  predicate Before(a: Date, b: Date) {
    a.year < b.year || (a.year == b.year && (a.month < b.month || (a.month == b.month && a.day < b.day)))
  }

  /** The day before `d`: `d - timedelta(days=1)` (defined on all triples;
      the overflow below `MIN_DATE` is handled by the caller). */
  function Prev(d: Date): (p: Date)
    ensures Before(p, d)
  {
    if d.day > 1 then Date(d.year, d.month, d.day - 1)
    else if d.month > 1 then Date(d.year, d.month - 1, DaysInMonth(d.year, d.month - 1))
    else Date(d.year - 1, 12, 31)
  }

  /** `Prev` is the immediate calendar predecessor: it is a valid date and no
      valid date lies strictly between it and `d`. */
  lemma PrevIsPredecessor(d: Date, x: Date)
    requires ValidDate(d) && d != MIN_DATE && ValidDate(x)
    ensures ValidDate(Prev(d))
    ensures Before(x, d) ==> x == Prev(d) || Before(x, Prev(d))
  {
  }

  /** The date `n` days before `d`. */
  function DaysBack(d: Date, n: nat): Date
  {
    if n == 0 then d else Prev(DaysBack(d, n - 1))
  }

  function MonthOf(d: Date): YearMonth {
    YearMonth(d.year, d.month)
  }

  /** Order of year-month keys, which is the string order of "YYYY-MM". */
  predicate MonthBefore(a: YearMonth, b: YearMonth) {
    a.year < b.year || (a.year == b.year && a.month < b.month)
  }

  predicate MonthAtMost(a: YearMonth, b: YearMonth) {
    a == b || MonthBefore(a, b)
  }

  /** The month order is the date order coarsened to months. */
  lemma MonthOfMonotonic(a: Date, b: Date)
    requires Before(a, b)
    ensures MonthAtMost(MonthOf(a), MonthOf(b))
  {
  }
}
