/**
 * The adult test of the keypad flow (`AgeVerification.IsOlderThan18`): a
 * birth date passes when it is on or before today's date moved back 18
 * years with `AddYears(-18)`. "Today" is passed in instead of read from the
 * clock.
 */
module AgeCutoff {
  import opened Calendar

  const AdultAge := 18

  /** A clock date for which `today.AddYears(-18)` does not throw. */
  predicate IsCutoffToday(today: Date) {
    IsValidDate(today) && today.year > AdultAge
  }

  /** `today.AddYears(-18)`: the latest birth date that counts as 18 or older. */
  function Cutoff(today: Date): (c: Date)
    requires IsCutoffToday(today)
    ensures IsValidDate(c) && c.year == today.year - AdultAge && c.month == today.month
  {
    AddYears(today, -AdultAge)
  }

  /** `IsOlderThan18(date)`: `date <= today.AddYears(-18)`. */
  predicate IsOlderThan18(date: Date, today: Date)
    requires IsCutoffToday(today)
    ensures IsOlderThan18(date, today) ==> date.year <= today.year - AdultAge
    ensures date.year < today.year - AdultAge ==> IsOlderThan18(date, today)
  {
    AtOrBefore(date, Cutoff(today))
  }

  /**
   * The boundary: a birth date exactly on the cutoff counts as 18 or older,
   * the day after it does not, and neither does any later date.
   */
  lemma CutoffBoundary(today: Date, date: Date)
    requires IsCutoffToday(today) && IsValidDate(date)
    ensures IsOlderThan18(Cutoff(today), today)
    ensures !IsOlderThan18(NextDay(Cutoff(today)), today)
    ensures IsOlderThan18(date, today) <==> Before(date, NextDay(Cutoff(today)))
  {
    NothingBetweenDays(Cutoff(today), date);
  }

  /**
   * A birthday on February 29 reaches 18 on March 1, since 18 years after a
   * leap year is never a leap year.
   */
  lemma LeapDayBirthday(birthYear: int)
    requires 1 <= birthYear && birthYear + AdultAge <= 9999 && IsLeapYear(birthYear)
    ensures !IsOlderThan18(Date(birthYear, 2, 29), Date(birthYear + AdultAge, 2, 28))
    ensures IsOlderThan18(Date(birthYear, 2, 29), Date(birthYear + AdultAge, 3, 1))
  {
  }

  /**
   * The clamp of `AddYears(-18)` on a February 29 today: the cutoff is
   * February 28 of the year 18 back, so a birthday on that day passes and
   * one on March 1 does not.
   */
  lemma LeapDayToday(year: int)
    requires AdultAge < year <= 9999 && IsLeapYear(year)
    ensures Cutoff(Date(year, 2, 29)) == Date(year - AdultAge, 2, 28)
    ensures IsOlderThan18(Date(year - AdultAge, 2, 28), Date(year, 2, 29))
    ensures !IsOlderThan18(Date(year - AdultAge, 3, 1), Date(year, 2, 29))
  {
  }

  /** Whoever is 18 or older today is still 18 or older on every later day. */
  lemma OlderThan18StaysTrue(date: Date, today: Date, later: Date)
    requires IsCutoffToday(today) && IsCutoffToday(later) && AtOrBefore(today, later)
    requires IsOlderThan18(date, today)
    ensures IsOlderThan18(date, later)
  {
    AddYearsMonotone(today, later, -AdultAge);
  }

  /** December 31 of a year: the latest date in it. */
  function Dec31(year: int): (d: Date)
    ensures IsValidDate(d) <==> 1 <= year <= 9999
    ensures forall x :: IsValidDate(x) && x.year == year ==> AtOrBefore(x, d)
  {
    Date(year, 12, 31)
  }

  /** January 1 of a year: the earliest date in it. */
  function Jan1(year: int): (d: Date)
    ensures IsValidDate(d) <==> 1 <= year <= 9999
    ensures forall x :: IsValidDate(x) && x.year == year ==> AtOrBefore(d, x)
  {
    Date(year, 1, 1)
  }

  /**
   * The year test's first case: every date of a year counts as 18 or older
   * exactly when December 31 of that year does.
   */
  lemma WholeYearAdultIffDec31(year: int, today: Date)
    requires IsCutoffToday(today) && 1 <= year <= 9999
    ensures (forall d :: IsValidDate(d) && d.year == year ==> IsOlderThan18(d, today))
        <==> IsOlderThan18(Dec31(year), today)
  {
    assert IsValidDate(Dec31(year));
  }

  /**
   * The year test's other cases: no date of a year counts as 18 or older
   * exactly when January 1 of that year does not; so when December 31 fails
   * and January 1 passes, the year holds both kinds of dates.
   */
  lemma WholeYearMinorIffJan1(year: int, today: Date)
    requires IsCutoffToday(today) && 1 <= year <= 9999
    ensures (forall d :: IsValidDate(d) && d.year == year ==> !IsOlderThan18(d, today))
        <==> !IsOlderThan18(Jan1(year), today)
  {
    assert IsValidDate(Jan1(year));
  }
}
