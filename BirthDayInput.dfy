/**
 * The older dropdown flow (`BirthDayInputManager`): an integer age with a
 * verdict, and the list of day options rebuilt whenever the month changes.
 * The year text, the parse of "year-month-day" and the clock are inputs;
 * the option list is the `DayDropDown.options` list the methods change.
 */
module BirthDayInput {
  import opened Wrappers
  import opened Decimal
  import opened Calendar
  import opened AgeCutoff

  /** The two messages `GetResult` can show. */
  datatype Verdict = Denied | AskMonthAndDay

  /**
   * The age computed in `YearCalculation`: the difference of the years, one
   * less when the birthday, moved to today's year by `AddYears`, is still
   * ahead.
   */
  function Age(birth: Date, today: Date): (age: int)
    requires IsValidDate(birth) && IsValidDate(today)
    ensures age == today.year - birth.year || age == today.year - birth.year - 1
  {
    var age := today.year - birth.year;
    if Before(AddYears(today, -age), birth) then age - 1 else age
  }

  /**
   * The age is the number of whole years lived: it reaches k exactly when the
   * birth date is on or before today moved back k years.
   */
  lemma AgeReachesIffCutoff(birth: Date, today: Date, k: int)
    requires IsValidDate(birth) && IsValidDate(today) && 1 <= today.year - k <= 9999
    ensures Age(birth, today) >= k <==> AtOrBefore(birth, AddYears(today, -k))
  {
    var a := today.year - birth.year;
    if a > k {
      assert Age(birth, today) >= k;
      assert birth.year < today.year - k;
    } else if a < k {
      assert Age(birth, today) < k;
      assert birth.year > today.year - k;
    }
  }

  /** The integer age reaches 18 exactly when the keypad flow's `IsOlderThan18` holds. */
  lemma AgeAtLeast18IffOlderThan18(birth: Date, today: Date)
    requires IsValidDate(birth) && IsCutoffToday(today)
    ensures Age(birth, today) >= 18 <==> IsOlderThan18(birth, today)
  {
    AgeReachesIffCutoff(birth, today, AdultAge);
  }

  /**
   * `GetResult`: an age of 18 or less is denied. It differs from the verdict
   * its message describes only at an age of exactly 18.
   */
  function GetResult(age: int): (v: Verdict)
    ensures v == GetResultCorrected(age) <==> age != AdultAge
  {
    if age <= AdultAge then Denied else AskMonthAndDay
  }

  /**
   * `YearCalculation` with the year already read from the text field: a
   * (year, month, day) that does not form a date gives no verdict at all.
   */
  function YearCalculation(year: int, month: int, day: int, today: Date): (r: Option<Verdict>)
    requires IsValidDate(today)
    ensures r.None? <==> !IsValidDate(Date(year, month, day))
    ensures r.Some? && today.year - year > AdultAge + 1 ==> r == Some(AskMonthAndDay)
    ensures r.Some? && today.year - year <= AdultAge ==> r == Some(Denied)
  {
    var birth := Date(year, month, day);
    if IsValidDate(birth) then Some(GetResult(Age(birth, today))) else None
  }

  /**
   * What the verdict means: no verdict exactly for an impossible date, and
   * "enter month and day" exactly when the birth date lies on or before
   * today moved back 19 years, so that 18 whole years are not enough.
   */
  lemma YearCalculationMeaning(year: int, month: int, day: int, today: Date)
    requires IsValidDate(today) && today.year > 19
    ensures YearCalculation(year, month, day, today).None? <==> !IsValidDate(Date(year, month, day))
    ensures YearCalculation(year, month, day, today) == Some(AskMonthAndDay) <==>
      IsValidDate(Date(year, month, day)) && AtOrBefore(Date(year, month, day), AddYears(today, -19))
  {
    var birth := Date(year, month, day);
    if IsValidDate(birth) {
      AgeReachesIffCutoff(birth, today, 19);
    }
  }

  /**
   * As written, an age of exactly 18 is denied although the denial message
   * asks for "18 years or older": on 2024-06-15 someone born on 2006-06-15
   * passes the keypad flow's test and is denied here.
   */
  lemma ExactlyEighteenIsDenied()
    ensures IsOlderThan18(Date(2006, 6, 15), Date(2024, 6, 15))
    ensures Age(Date(2006, 6, 15), Date(2024, 6, 15)) == 18
    ensures YearCalculation(2006, 6, 15, Date(2024, 6, 15)) == Some(Denied)
  {
  }

  /** The verdict as its message describes it: only an age under 18 is denied. */
  function GetResultCorrected(age: int): Verdict {
    if age < AdultAge then Denied else AskMonthAndDay
  }

  /** The corrected verdict denies exactly the birth dates the keypad flow calls under 18. */
  lemma CorrectedVerdictMatchesCutoff(birth: Date, today: Date)
    requires IsValidDate(birth) && IsCutoffToday(today)
    ensures GetResultCorrected(Age(birth, today)) == Denied <==> !IsOlderThan18(birth, today)
  {
    AgeAtLeast18IffOlderThan18(birth, today);
  }

  /**
   * The largest day `ChangedMonth` offers for a dropdown month, with the year
   * text's parse (None when `int.Parse` throws): 31 or 30 by month, 29 or 28
   * in February by a bare divisibility-by-four test, and no list for month 0,
   * any month outside 1..12, or February with an unparsable year.
   */
  function MaxDayAsWritten(month: int, year: Option<int>): (r: Option<int>)
    ensures r.Some? <==> 1 <= month <= 12 && (month != 2 || year.Some?)
    ensures r.Some? ==> 28 <= r.value <= 31
    ensures 1 <= month <= 12 && month != 2 ==>
      r.Some? && forall y :: r.value == DaysInMonth(y, month)
  {
    if month == 1 || month == 3 || month == 5 || month == 7 || month == 8 || month == 10 || month == 12 then Some(31)
    else if month == 4 || month == 6 || month == 9 || month == 11 then Some(30)
    else if month == 2 && year.Some? then Some(if year.value % 4 == 0 then 29 else 28)
    else None
  }

  /**
   * Against the Gregorian calendar, the day count as written is right for
   * every month and year except February of a century year not divisible by
   * 400 (1900, 2100, ...), where it offers a 29th day that does not exist.
   */
  lemma MaxDayAsWrittenVersusCalendar(month: int, year: int)
    requires 1 <= month <= 12
    ensures MaxDayAsWritten(month, Some(year)) == Some(DaysInMonth(year, month)) <==>
      !(month == 2 && year % 100 == 0 && year % 400 != 0)
  {
    if month == 2 && year % 100 == 0 {
      assert year % 4 == 0 by {
        assert year == (year / 100) * 100;
        assert year == ((year / 100) * 25) * 4;
      }
    }
  }

  /** The discrepancy on 1900: 29 days offered, and 1900-02-29 is not a date. */
  lemma February1900AsWritten()
    ensures MaxDayAsWritten(2, Some(1900)) == Some(29)
    ensures !IsValidDate(Date(1900, 2, 29))
  {
  }

  /**
   * The day count as the Gregorian calendar has it, which the date
   * validity of both flows uses: the offered days 1..n are exactly the days
   * that form a date with the month and year.
   */
  function MaxDayCorrected(month: int, year: Option<int>): Option<int> {
    if month == 2 && year.Some? then Some(if IsLeapYear(year.value) then 29 else 28)
    else MaxDayAsWritten(month, year)
  }

  lemma CorrectedDaysAreExactlyDates(month: int, year: int, day: int)
    requires 1 <= month <= 12 && 1 <= year <= 9999
    ensures MaxDayCorrected(month, Some(year)).Some?
    ensures 1 <= day <= MaxDayCorrected(month, Some(year)).value <==> IsValidDate(Date(year, month, day))
  {
  }

  /** The option texts "0", "1", ..., "n" that `DayOptionSet(n)` appends. */
  function DayLabels(maxValue: int): (labels: seq<seq<char>>)
    ensures |labels| == if maxValue < 0 then 0 else maxValue + 1
  {
    if maxValue < 0 then [] else seq(maxValue + 1, i requires 0 <= i => ToDecimal(i))
  }

  /** The labels count up from 0: the i-th option reads as the number i. */
  lemma DayLabelsCountUp(maxValue: int, i: int)
    requires 0 <= i <= maxValue
    ensures IsNumeric(DayLabels(maxValue)[i]) && Value(DayLabels(maxValue)[i]) == i
  {
    ValueOfToDecimal(i);
  }

  class BirthDayInputManager {
    /** `DayDropDown.options`, by their texts. */
    var dayOptions: seq<seq<char>>

    /** `Start`: the day list holds only the placeholder "-". */
    constructor Start()
      ensures dayOptions == ["-"]
    {
      dayOptions := [];
      dayOptions := dayOptions + ["-"];
    }

    /**
     * `ChangedMonth`: clears the day list and refills it for the month;
     * `thrown` says that `int.Parse` of the year text threw in February,
     * which leaves the list empty.
     */
    method ChangedMonth(month: int, parsedYear: Option<int>) returns (thrown: bool)
      modifies this
      ensures thrown <==> month == 2 && parsedYear.None?
      ensures MaxDayAsWritten(month, parsedYear).None? ==> dayOptions == []
      ensures MaxDayAsWritten(month, parsedYear).Some? ==>
        dayOptions == DayLabels(MaxDayAsWritten(month, parsedYear).value)
    {
      dayOptions := [];
      thrown := false;
      if month == 1 || month == 3 || month == 5 || month == 7 || month == 8 || month == 10 || month == 12 {
        DayOptionSet(31);
      } else if month == 4 || month == 6 || month == 9 || month == 11 {
        DayOptionSet(30);
      } else if month == 2 {
        if parsedYear.None? {
          thrown := true;
          return;
        }
        DayOptionSet(if parsedYear.value % 4 == 0 then 29 else 28);
      }
    }

    /** `DayOptionSet(maxValue)`: appends the options "0" through "maxValue", in order. */
    method DayOptionSet(maxValue: int)
      modifies this
      ensures dayOptions == old(dayOptions) + DayLabels(maxValue)
    {
      var i := 0;
      while i <= maxValue
        invariant if maxValue < 0 then i == 0 else 0 <= i <= maxValue + 1
        invariant dayOptions == old(dayOptions) + DayLabels(i - 1)
      {
        dayOptions := dayOptions + [ToDecimal(i)];
        i := i + 1;
      }
    }
  }
}
