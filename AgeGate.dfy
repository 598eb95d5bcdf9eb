/**
 * The keypad age gate (`AgeVerification`): the year buffer, the birth date
 * and the verification state, changed in place by the button handlers.
 * Showing a dialog is modelled as setting `activeDialog`; texts, widgets
 * and the clock are left out, and "today" is a parameter of each handler
 * that reads the clock.
 */
module AgeGate {
  import opened Decimal
  import opened Calendar
  import opened YearInput
  import opened AgeCutoff

  datatype DialogType = None | YearDialog | MonthAndDayDialog | DeniedDialog | ConfirmationDialog

  datatype AgeVerificationState =
    | DateOfBirthLessThan18
    | DateOfBirthGreaterThan18
    | EnteringBirthYear
    | ConfirmingBirthYear
    | EnteringBirthMonthAndDay
    | ConfirmingBirthMonthAndDay

  /** A clock reading the handlers can work with: a four-digit year, so that the prefix check and `AddYears(-18)` do not throw. */
  predicate IsClockToday(today: Date) {
    IsCutoffToday(today) && IsFourDigitYear(today.year)
  }

  class AgeVerification {
    var yearInput: seq<char>
    var dateOfBirth: Date
    var currentState: AgeVerificationState
    var activeDialog: DialogType

    /** The buffer only ever holds digits, at most four of them. */
    ghost predicate Valid()
      reads this
    {
      |yearInput| <= 4 && AllDigits(yearInput)
    }

    /** The dialog on screen is the one that belongs to the current state. */
    ghost predicate DialogMatchesState()
      reads this
    {
      match currentState
      case DateOfBirthLessThan18 => activeDialog == DeniedDialog
      case DateOfBirthGreaterThan18 => activeDialog == DialogType.None
      case EnteringBirthYear => activeDialog == YearDialog
      case ConfirmingBirthYear => activeDialog == ConfirmationDialog
      case EnteringBirthMonthAndDay => activeDialog == MonthAndDayDialog
      case ConfirmingBirthMonthAndDay => activeDialog == ConfirmationDialog
    }

    /** The field initialisers: empty buffer, `default(DateTime)`, the enum's first value. */
    constructor ()
      ensures Valid()
      ensures yearInput == [] && dateOfBirth == DefaultDate
      ensures currentState == DateOfBirthLessThan18 && activeDialog == DialogType.None
    {
      yearInput := [];
      dateOfBirth := DefaultDate;
      currentState := DateOfBirthLessThan18;
      activeDialog := DialogType.None;
    }

    /**
     * `Start`: a saved birth date (anything but `default(DateTime)`) decides
     * at once; without one, year entry begins with an empty buffer.
     */
    method Start(savedDate: Date, today: Date)
      requires Valid() && IsCutoffToday(today)
      modifies this
      ensures Valid() && DialogMatchesState() && dateOfBirth == old(dateOfBirth)
      ensures savedDate != DefaultDate && IsOlderThan18(savedDate, today) ==>
        currentState == DateOfBirthGreaterThan18 && activeDialog == DialogType.None &&
        yearInput == old(yearInput)
      ensures savedDate != DefaultDate && !IsOlderThan18(savedDate, today) ==>
        currentState == DateOfBirthLessThan18 && activeDialog == DeniedDialog &&
        yearInput == old(yearInput)
      ensures savedDate == DefaultDate ==>
        currentState == EnteringBirthYear && activeDialog == YearDialog && yearInput == []
    {
      if savedDate != DefaultDate {
        if IsOlderThan18(savedDate, today) {
          currentState := DateOfBirthGreaterThan18;
          activeDialog := DialogType.None;
        } else {
          currentState := DateOfBirthLessThan18;
          activeDialog := DeniedDialog;
        }
        return;
      }
      currentState := EnteringBirthYear;
      ResetYearInput();
      activeDialog := YearDialog;
    }

    /**
     * The outcome of evaluating a complete year: December 31 of it decides
     * "18 or older" at once; otherwise the year goes to confirmation.
     */
    ghost predicate YearEvaluated(year: int, oldDateOfBirth: Date, today: Date)
      requires IsCutoffToday(today)
      reads this
      ensures YearEvaluated(year, oldDateOfBirth, today) ==>
        DialogMatchesState() &&
        (currentState == DateOfBirthGreaterThan18 || currentState == ConfirmingBirthYear)
      ensures YearEvaluated(year, oldDateOfBirth, today) && currentState == DateOfBirthGreaterThan18 ==>
        dateOfBirth.year == year && IsOlderThan18(dateOfBirth, today)
    {
      if IsOlderThan18(Dec31(year), today) then
        dateOfBirth == Dec31(year) && currentState == DateOfBirthGreaterThan18 &&
        activeDialog == DialogType.None
      else
        dateOfBirth == oldDateOfBirth && currentState == ConfirmingBirthYear &&
        activeDialog == ConfirmationDialog
    }

    /**
     * `OnNumberButtonClicked`: a digit is appended only when the buffer has
     * fewer than four characters and the longer buffer passes the prefix
     * check; the fourth digit triggers the year evaluation.
     */
    method OnNumberButtonClicked(digit: char, today: Date)
      requires Valid() && IsClockToday(today)
      modifies this
      ensures Valid()
      ensures |old(yearInput)| >= 4 || !IsValidYearInput(old(yearInput) + [digit], today.year) ==>
        yearInput == old(yearInput) && dateOfBirth == old(dateOfBirth) &&
        currentState == old(currentState) && activeDialog == old(activeDialog)
      ensures |old(yearInput)| < 4 && IsValidYearInput(old(yearInput) + [digit], today.year) ==>
        yearInput == old(yearInput) + [digit] && IsDigit(digit)
      ensures |old(yearInput)| < 3 ==>
        dateOfBirth == old(dateOfBirth) && currentState == old(currentState) &&
        activeDialog == old(activeDialog)
      ensures |old(yearInput)| == 3 && IsValidYearInput(old(yearInput) + [digit], today.year) ==>
        MinYear <= Value(yearInput) <= today.year &&
        YearEvaluated(Value(yearInput), old(dateOfBirth), today)
      ensures currentState == DateOfBirthLessThan18 ==> old(currentState) == DateOfBirthLessThan18
      ensures old(DialogMatchesState()) ==> DialogMatchesState()
      ensures YearBufferOk(old(yearInput), today.year) ==> YearBufferOk(yearInput, today.year)
    {
      if |yearInput| >= 4 {
        return;
      }
      if !IsValidYearInput(yearInput + [digit], today.year) {
        return;
      }
      yearInput := yearInput + [digit];
      ValidInputIsPrefixClosed(yearInput, today.year);
      if |yearInput| == 4 {
        EvaluateYearInput(today);
      }
    }

    /** `OnDeleteButtonClicked`: removes the last character of a non-empty buffer. */
    method OnDeleteButtonClicked()
      requires Valid()
      modifies this`yearInput
      ensures Valid()
      ensures old(yearInput) == [] ==> yearInput == []
      ensures old(yearInput) != [] ==> yearInput == old(yearInput)[..|old(yearInput)| - 1]
      ensures forall year :: IsFourDigitYear(year) && YearBufferOk(old(yearInput), year) ==>
        YearBufferOk(yearInput, year)
    {
      if |yearInput| > 0 {
        forall year | IsFourDigitYear(year) && YearBufferOk(yearInput, year)
          ensures YearBufferOk(yearInput[..|yearInput| - 1], year)
        {
          DropLastKeepsYearBuffer(yearInput, year);
        }
        yearInput := yearInput[..|yearInput| - 1];
      }
    }

    /** `ResetYearInput`: empties the buffer. */
    method ResetYearInput()
      modifies this`yearInput
      ensures yearInput == []
    {
      yearInput := [];
    }

    /**
     * `EvaluateYearInput`, called on a complete buffer that passed the
     * prefix check: December 31 of the year decides "18 or older"; whether
     * January 1 passes or not, any other year goes to confirmation.
     */
    method EvaluateYearInput(today: Date)
      requires IsClockToday(today) && |yearInput| == 4 && IsValidYearInput(yearInput, today.year)
      modifies this`dateOfBirth, this`currentState, this`activeDialog
      ensures MinYear <= Value(yearInput) <= today.year
      ensures YearEvaluated(Value(yearInput), old(dateOfBirth), today)
    {
      FullYearInRange(yearInput, today.year);
      var enteredYear := Value(yearInput);
      var dec31 := Dec31(enteredYear);
      var jan1 := Jan1(enteredYear);
      var dec31Is18OrOlder := IsOlderThan18(dec31, today);
      var jan1Is18OrOlder := IsOlderThan18(jan1, today);
      if dec31Is18OrOlder {
        dateOfBirth := dec31;
        activeDialog := DialogType.None;
        currentState := DateOfBirthGreaterThan18;
        return;
      }
      if !dec31Is18OrOlder && jan1Is18OrOlder {
        currentState := ConfirmingBirthYear;
        activeDialog := ConfirmationDialog;
        return;
      }
      currentState := ConfirmingBirthYear;
      activeDialog := ConfirmationDialog;
    }

    /**
     * `OnConfirmDialogConfirm`: a confirmed year moves on to month and day;
     * a confirmed full date gives the verdict; in any other state nothing happens.
     */
    method OnConfirmDialogConfirm(today: Date)
      requires Valid() && IsCutoffToday(today)
      modifies this`currentState, this`activeDialog
      ensures Valid()
      ensures old(currentState) == ConfirmingBirthYear ==>
        currentState == EnteringBirthMonthAndDay && activeDialog == MonthAndDayDialog
      ensures old(currentState) == ConfirmingBirthMonthAndDay && IsOlderThan18(dateOfBirth, today) ==>
        currentState == DateOfBirthGreaterThan18 && activeDialog == DialogType.None
      ensures old(currentState) == ConfirmingBirthMonthAndDay && !IsOlderThan18(dateOfBirth, today) ==>
        currentState == DateOfBirthLessThan18 && activeDialog == DeniedDialog
      ensures old(currentState) != ConfirmingBirthYear && old(currentState) != ConfirmingBirthMonthAndDay ==>
        currentState == old(currentState) && activeDialog == old(activeDialog)
      ensures old(DialogMatchesState()) ==> DialogMatchesState()
    {
      if currentState == ConfirmingBirthYear {
        currentState := EnteringBirthMonthAndDay;
        activeDialog := MonthAndDayDialog;
      } else if currentState == ConfirmingBirthMonthAndDay {
        if IsOlderThan18(dateOfBirth, today) {
          currentState := DateOfBirthGreaterThan18;
          activeDialog := DialogType.None;
        } else {
          currentState := DateOfBirthLessThan18;
          activeDialog := DeniedDialog;
        }
      }
    }

    /**
     * `OnConfirmDialogEdit`: back to year entry with an empty buffer, or
     * back to month and day entry; in any other state nothing happens.
     */
    method OnConfirmDialogEdit()
      requires Valid()
      modifies this`currentState, this`activeDialog, this`yearInput
      ensures Valid()
      ensures old(currentState) == ConfirmingBirthYear ==>
        currentState == EnteringBirthYear && activeDialog == YearDialog && yearInput == []
      ensures old(currentState) == ConfirmingBirthMonthAndDay ==>
        currentState == EnteringBirthMonthAndDay && activeDialog == MonthAndDayDialog &&
        yearInput == old(yearInput)
      ensures old(currentState) != ConfirmingBirthYear && old(currentState) != ConfirmingBirthMonthAndDay ==>
        currentState == old(currentState) && activeDialog == old(activeDialog) &&
        yearInput == old(yearInput)
      ensures old(DialogMatchesState()) ==> DialogMatchesState()
    {
      if currentState == ConfirmingBirthYear {
        currentState := EnteringBirthYear;
        ResetYearInput();
        activeDialog := YearDialog;
      } else if currentState == ConfirmingBirthMonthAndDay {
        currentState := EnteringBirthMonthAndDay;
        activeDialog := MonthAndDayDialog;
      }
    }

    /**
     * `OnMonthDaySubmit` with the two dropdown values: the typed year with
     * that month and day becomes the birth date, awaiting confirmation; an
     * unparsable buffer or an impossible calendar date changes nothing.
     */
    method OnMonthDaySubmit(month: int, day: int)
      requires Valid()
      modifies this`dateOfBirth, this`currentState, this`activeDialog
      ensures Valid()
      ensures !IsNumeric(yearInput) || !IsValidDate(Date(Value(yearInput), month, day)) ==>
        dateOfBirth == old(dateOfBirth) && currentState == old(currentState) &&
        activeDialog == old(activeDialog)
      ensures IsNumeric(yearInput) && IsValidDate(Date(Value(yearInput), month, day)) ==>
        dateOfBirth == Date(Value(yearInput), month, day) &&
        currentState == ConfirmingBirthMonthAndDay && activeDialog == ConfirmationDialog
      ensures old(DialogMatchesState()) ==> DialogMatchesState()
    {
      if !IsNumeric(yearInput) {
        return;
      }
      var enteredYear := Value(yearInput);
      var finalDate := Date(enteredYear, month, day);
      if !IsValidDate(finalDate) {
        return;
      }
      dateOfBirth := finalDate;
      currentState := ConfirmingBirthMonthAndDay;
      activeDialog := ConfirmationDialog;
    }
  }
}
