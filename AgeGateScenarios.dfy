/**
 * Runs of the keypad flow derived from the handlers' contracts alone: a
 * whole year typed into an empty buffer, and the two example runs with
 * today fixed at 2024-06-15.
 */
module AgeGateScenarios {
  import opened Decimal
  import opened Calendar
  import opened YearInput
  import opened AgeCutoff
  import opened AgeGate

  /** Pressing the four digits of a year from 1900 to the current year, one after the other. */
  method TypeYear(gate: AgeVerification, typed: seq<char>, today: Date)
    requires gate.Valid() && IsClockToday(today) && gate.yearInput == []
    requires |typed| == 4 && IsValidYearInput(typed, today.year)
    modifies gate
    ensures gate.Valid() && gate.yearInput == typed
    ensures MinYear <= Value(typed) <= today.year
    ensures gate.YearEvaluated(Value(typed), old(gate.dateOfBirth), today)
  {
    ValidInputIsPrefixClosed(typed, today.year);
    for i := 0 to 3
      invariant gate.Valid() && gate.yearInput == typed[..i]
      invariant gate.dateOfBirth == old(gate.dateOfBirth)
      invariant gate.currentState == old(gate.currentState) && gate.activeDialog == old(gate.activeDialog)
    {
      PrefixStep(typed, i);
      gate.OnNumberButtonClicked(typed[i], today);
    }
    PrefixStep(typed, 3);
    gate.OnNumberButtonClicked(typed[3], today);
  }

  /** The prefix of length i + 1 is the prefix of length i and the next character. */
  lemma PrefixStep(s: seq<char>, i: nat)
    requires i < |s|
    ensures s[..i + 1] == s[..i] + [s[i]]
    ensures i + 1 == |s| ==> s[..i + 1] == s
  {
  }

  lemma ValueOfFour(a: char, b: char, c: char, d: char)
    requires IsDigit(a) && IsDigit(b) && IsDigit(c) && IsDigit(d)
    ensures AllDigits([a, b, c, d])
    ensures Value([a, b, c, d]) == ((DigitValue(a) * 10 + DigitValue(b)) * 10 + DigitValue(c)) * 10 + DigitValue(d)
  {
    ValueAppend([], a);
    assert [] + [a] == [a];
    ValueAppend([a], b);
    assert [a] + [b] == [a, b];
    ValueAppend([a, b], c);
    assert [a, b] + [c] == [a, b, c];
    ValueAppend([a, b, c], d);
    assert [a, b, c] + [d] == [a, b, c, d];
  }

  /** Typing 1990 ends at once as 18 or older, with December 31, 1990 as the birth date. */
  method TypeAdultYear() {
    var today := Date(2024, 6, 15);
    var gate := new AgeVerification();
    gate.Start(DefaultDate, today);
    ValueOfFour('1', '9', '9', '0');
    FullYearInRange(['1', '9', '9', '0'], today.year);
    TypeYear(gate, ['1', '9', '9', '0'], today);
    assert gate.currentState == DateOfBirthGreaterThan18 && gate.dateOfBirth == Date(1990, 12, 31);
  }

  /**
   * Typing 2006 needs confirmation; after confirming, February 30 is
   * rejected, and June 20 gives a birth date after the cutoff 2006-06-15,
   * so the final confirmation denies.
   */
  method TypeAmbiguousYearThenMinorDate() {
    var today := Date(2024, 6, 15);
    var gate := new AgeVerification();
    gate.Start(DefaultDate, today);
    ValueOfFour('2', '0', '0', '6');
    FullYearInRange(['2', '0', '0', '6'], today.year);
    TypeYear(gate, ['2', '0', '0', '6'], today);
    assert !IsOlderThan18(Dec31(2006), today);
    assert gate.currentState == ConfirmingBirthYear && gate.activeDialog == ConfirmationDialog;
    ConfirmYearThenMinorDate(gate, today);
    assert gate.currentState == DateOfBirthLessThan18 && gate.activeDialog == DeniedDialog;
  }

  /** The second half of the 2006 run: from the year confirmation to the denial. */
  method ConfirmYearThenMinorDate(gate: AgeVerification, today: Date)
    requires today == Date(2024, 6, 15) && gate.Valid() && gate.yearInput == ['2', '0', '0', '6']
    requires gate.currentState == ConfirmingBirthYear
    modifies gate
    ensures gate.currentState == DateOfBirthLessThan18 && gate.activeDialog == DeniedDialog
  {
    ValueOfFour('2', '0', '0', '6');
    gate.OnConfirmDialogConfirm(today);
    assert gate.currentState == EnteringBirthMonthAndDay;
    assert !IsValidDate(Date(2006, 2, 30)) && IsValidDate(Date(2006, 6, 20));
    gate.OnMonthDaySubmit(2, 30);
    assert gate.currentState == EnteringBirthMonthAndDay;
    gate.OnMonthDaySubmit(6, 20);
    assert gate.currentState == ConfirmingBirthMonthAndDay && gate.dateOfBirth == Date(2006, 6, 20);
    assert !IsOlderThan18(Date(2006, 6, 20), today);
    gate.OnConfirmDialogConfirm(today);
  }
}
