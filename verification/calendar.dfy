/**
 * Calendar dates without a time of day. The components compare a release date
 * with the start of today and add one year with `setFullYear(year + 1)`; both
 * are stated here on (year, month, day) triples.
 */
module Calendar {

  datatype Date = Date(year: int, month: int, day: int)

  predicate IsLeapYear(y: int) {
    (y % 4 == 0 && y % 100 != 0) || y % 400 == 0
  }

  function DaysInMonth(y: int, m: int): (n: int)
    requires 1 <= m <= 12
    ensures 28 <= n <= 31
    ensures n == 29 <==> m == 2 && IsLeapYear(y)
  {
    if m == 2 then (if IsLeapYear(y) then 29 else 28)
    else if m == 4 || m == 6 || m == 9 || m == 11 then 30
    else 31
  }

  /** A real day of the proleptic Gregorian calendar. */
  predicate Valid(d: Date) {
    1 <= d.month <= 12 && 1 <= d.day <= DaysInMonth(d.year, d.month)
  }

  /** `a` is strictly earlier than `b` (date-only comparison). */
  predicate Before(a: Date, b: Date) {
    || a.year < b.year
    || (a.year == b.year && a.month < b.month)
    || (a.year == b.year && a.month == b.month && a.day < b.day)
  }

  /**
   * How `Date.setFullYear` treats a day that does not exist in its month:
   * the surplus days roll over into the following month.
   */
  function RollOver(y: int, m: int, d: int): Date
    requires 1 <= m <= 12 && 1 <= d <= 31
  {
    if d <= DaysInMonth(y, m) then Date(y, m, d)
    else if m < 12 then Date(y, m + 1, d - DaysInMonth(y, m))
    else Date(y + 1, 1, d - DaysInMonth(y, m))
  }

  /**
   * The revision date: the same month and day one year later. The 29th of
   * February has no such day, and becomes the 1st of March.
   */
  function AddOneYear(d: Date): (r: Date)
    requires Valid(d)
    ensures Valid(r)
    ensures r.year == d.year + 1
    ensures r.month == d.month && r.day == d.day <==> !(d.month == 2 && d.day == 29)
    ensures d.month == 2 && d.day == 29 ==> r.month == 3 && r.day == 1
    ensures Before(d, r)
  {
    if d.month == 2 && d.day == 29 then Date(d.year + 1, 3, 1) else Date(d.year + 1, d.month, d.day)
  }

  /** Two consecutive years are never both leap years. */
  lemma NoConsecutiveLeapYears(y: int)
    requires IsLeapYear(y)
    ensures !IsLeapYear(y + 1)
  {
  }

  /** `AddOneYear` is exactly what `setFullYear(year + 1)` computes. */
  lemma AddOneYearIsSetFullYear(d: Date)
    requires Valid(d)
    ensures AddOneYear(d) == RollOver(d.year + 1, d.month, d.day)
  {
    if d.month == 2 && d.day == 29 {
      NoConsecutiveLeapYears(d.year);
    }
  }

  /** Only the 29th of February and the 1st of March meet after adding a year. */
  lemma AddOneYearCollision(a: Date, b: Date)
    requires Valid(a) && Valid(b) && a != b
    requires AddOneYear(a) == AddOneYear(b)
    ensures a.year == b.year
    ensures (a.month == 2 && a.day == 29 && b.month == 3 && b.day == 1)
         || (b.month == 2 && b.day == 29 && a.month == 3 && a.day == 1)
  {
  }
}
