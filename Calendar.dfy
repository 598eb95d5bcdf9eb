/**
 * Calendar dates as the age gate uses .NET's `DateTime`: a year, a month and
 * a day with no time of day, the Gregorian calendar, the range 0001-01-01 to
 * 9999-12-31, ordering by year, then month, then day, and `AddYears`.
 */
module Calendar {

  datatype Date = Date(year: int, month: int, day: int)

  /** `default(DateTime)`: 0001-01-01. */
  const DefaultDate := Date(1, 1, 1)

  /** The Gregorian rule: every fourth year, except centuries not divisible by 400. */
  predicate IsLeapYear(year: int)
    ensures IsLeapYear(year) ==> year % 4 == 0
    ensures year % 400 == 0 ==> IsLeapYear(year)
  {
    FourDividesFourHundred(year);
    year % 4 == 0 && (year % 100 != 0 || year % 400 == 0)
  }

  /** A multiple of 400 is a multiple of 4. */
  lemma FourDividesFourHundred(year: int)
    ensures year % 400 == 0 ==> year % 4 == 0
  {
    if year % 400 == 0 {
      assert year == ((year / 400) * 100) * 4;
    }
  }

  /** The length of a month; only February depends on the year. */
  function DaysInMonth(year: int, month: int): (n: int)
    requires 1 <= month <= 12
    ensures 28 <= n <= 31
    ensures n == 29 <==> month == 2 && IsLeapYear(year)
    ensures n == 28 <==> month == 2 && !IsLeapYear(year)
  {
    if month == 2 then (if IsLeapYear(year) then 29 else 28)
    else if month == 4 || month == 6 || month == 9 || month == 11 then 30
    else 31
  }

  /** The (year, month, day) triples `new DateTime(year, month, day)` accepts. */
  predicate IsValidDate(d: Date)
    ensures IsValidDate(d) ==> 1 <= d.month <= 12 && 1 <= d.day <= 31
    ensures IsValidDate(d) && d.month == 2 && d.day == 29 ==> IsLeapYear(d.year)
  {
    1 <= d.year <= 9999 && 1 <= d.month <= 12 && 1 <= d.day <= DaysInMonth(d.year, d.month)
  }

  /** `a < b` on dates: a strict total order, year first, then month, then day. */
  predicate Before(a: Date, b: Date)
    ensures Before(a, b) ==> a != b && a.year <= b.year
  {
    a.year < b.year ||
    (a.year == b.year && (a.month < b.month || (a.month == b.month && a.day < b.day)))
  }

  /** `a <= b` on dates: `a < b` or equal, and antisymmetric. */
  predicate AtOrBefore(a: Date, b: Date)
    ensures AtOrBefore(a, b) <==> Before(a, b) || a == b
  {
    !Before(b, a)
  }

  /** Any two dates are ordered one way, the other way, or equal, and never both ways. */
  lemma DateOrderTotal(a: Date, b: Date)
    ensures a == b || Before(a, b) || Before(b, a)
    ensures !(Before(a, b) && Before(b, a))
    ensures AtOrBefore(a, b) && AtOrBefore(b, a) ==> a == b
  {
  }

  /**
   * `d.AddYears(n)`: the same month and day n years later, except that
   * February 29 becomes February 28 when the target year is not a leap
   * year. A target year outside 1..9999 throws, so it is required here.
   */
  function AddYears(d: Date, n: int): (r: Date)
    requires IsValidDate(d) && 1 <= d.year + n <= 9999
    ensures IsValidDate(r)
    ensures r.year == d.year + n && r.month == d.month
    ensures r.day == d.day || (d.month == 2 && d.day == 29 && r.day == 28 && !IsLeapYear(r.year))
  {
    var y := d.year + n;
    var last := DaysInMonth(y, d.month);
    Date(y, d.month, if d.day > last then last else d.day)
  }

  /** The day after d. */
  function NextDay(d: Date): (r: Date)
    requires IsValidDate(d) && d != Date(9999, 12, 31)
    ensures IsValidDate(r) && Before(d, r)
  {
    if d.day < DaysInMonth(d.year, d.month) then Date(d.year, d.month, d.day + 1)
    else if d.month < 12 then Date(d.year, d.month + 1, 1)
    else Date(d.year + 1, 1, 1)
  }

  /** No valid date lies strictly between a date and the next one. */
  lemma NothingBetweenDays(d: Date, x: Date)
    requires IsValidDate(d) && d != Date(9999, 12, 31) && IsValidDate(x)
    ensures Before(d, x) <==> AtOrBefore(NextDay(d), x)
  {
  }

  /** Adding the same number of years keeps the order of two dates. */
  lemma AddYearsMonotone(a: Date, b: Date, n: int)
    requires IsValidDate(a) && IsValidDate(b) && AtOrBefore(a, b)
    requires 1 <= a.year + n <= 9999 && 1 <= b.year + n <= 9999
    ensures AtOrBefore(AddYears(a, n), AddYears(b, n))
  {
  }
}
