# Age gate of InputMyBirthDay, modelled in Dafny

The Unity project asks a player for a birth date before letting them play. It has two scripts that do this.

**`AgeVerification`** is a keypad flow. The player types a birth year digit by digit. Each prefix is range-checked against 1900 and the current year as it is typed. A complete year is then handled one of two ways:
- If December 31 of that year is at least 18 years ago, it passes at once.
- Otherwise the player confirms the year and gives the month and day. The full date is confirmed and judged against the cutoff `today.AddYears(-18)`.

**`BirthDayInputManager`** is an older dropdown flow. It computes an integer age and shows a verdict. It also rebuilds the day dropdown whenever the month changes.

This project models both scripts without their widgets:
- **`Decimal`**: the year's text, `Substring(0, n)` and `int.TryParse`, on digit strings.
- **`Calendar`**: the parts of `DateTime` the scripts use. That is a (year, month, day) record with the Gregorian calendar, the 1..9999 year range, ordering and `AddYears`. `AddYears` clamps February 29 to February 28 in a non-leap target year.
- **`YearInput`**: `IsValidYearInput` and what it guarantees about the year buffer.
- **`AgeCutoff`**: `IsOlderThan18` and the rules of the year evaluation.
- **`AgeGate`**: the `AgeVerification` component as a class. Its fields `yearInput`, `dateOfBirth` and `currentState` are changed in place by one method per handler. Showing a dialog sets the field `activeDialog`.
- **`BirthDayInput`**: the age and verdict, and the `BirthDayInputManager` class whose `dayOptions` list is cleared and refilled.
- **`AgeGateScenarios`**: two example runs of the keypad flow, derived from the handlers' contracts. They use today = 2024-06-15:
  - typing 1990 passes at once;
  - typing 2006 goes through confirmation, then month and day. February 30 is rejected, and June 20 is denied.

"Today" is never read from a clock. It is passed to every handler that uses `DateTime.Now` or `DateTime.Today`.

The two scripts keep their own rules:
- The keypad flow accepts a birth date on or before the cutoff.
- The dropdown flow denies an age of 18 or less.
- The dropdown uses a bare divisibility-by-four leap rule.
- Date validity everywhere uses the Gregorian rule of `DateTime`.

The keypad handlers are modelled as written, with no state guards:
- A digit, a delete or a month/day submit is processed in whatever state the component is in. In the application, only the buttons of the active dialog can be pressed.
- The model proves `DialogMatchesState`: every handler keeps the active dialog the one that belongs to the state.
- A month/day submit with a valid date moves to `ConfirmingBirthMonthAndDay` from any state.
- Confirm and edit change nothing outside the two confirming states.

A year never leads to `DateOfBirthLessThan18` by itself. A year whose December 31 is after the cutoff always goes to confirmation. This holds whether or not its January 1 passes, because the source's second and third branches do the same thing.

## Model

| member | source | states |
|---|---|---|
| `Decimal.ToDecimal` | Assets/Scripts/AgeVerification.cs:132-133 | the text of a year is a non-empty digit string with exactly as many digits as the number has |
| `Decimal.ValueOfToDecimal` | Assets/Scripts/AgeVerification.cs:132-136 | parsing a number's text gives the number back |
| `Decimal.ValueOfPrefix` | Assets/Scripts/AgeVerification.cs:132-136 | cutting a digit string to its first k characters divides its value by 10 to the power of the digits removed |
| `Decimal.Value` | Assets/Scripts/AgeVerification.cs:129 | an n-digit string parses to a number below 10^n |
| `YearInput.IsValidYearInput` | Assets/Scripts/AgeVerification.cs:124-139 | the prefix check: only a non-empty digit string is accepted (the model treats only ASCII digit strings as numeric; the keypad produces nothing else); its numeric bounds are `ValidYearInputRange` |
| `YearInput.LeadingDigitsOfYear` | Assets/Scripts/AgeVerification.cs:132-136 | the first n characters of a four-digit year's text parse to the year's first n digits |
| `YearInput.ValidYearInputRange` | Assets/Scripts/AgeVerification.cs:124-139 | a prefix of n characters is accepted iff it is numeric and its value lies between the first n digits of 1900 and of the current year, inclusive |
| `YearInput.FullYearInRange` | Assets/Scripts/AgeVerification.cs:124-139 | a four-character input is accepted iff it is a year from 1900 to the current year |
| `YearInput.FirstDigitOneOrTwo` | Assets/Scripts/AgeVerification.cs:119-124 | in the years 2000-2999, "1" and "2" are the only accepted one-character inputs; non-digits are rejected |
| `YearInput.ValidYearInputPrefix` | Assets/Scripts/AgeVerification.cs:124-139 | every prefix of an accepted input is accepted |
| `YearInput.ValidInputIsPrefixClosed` | Assets/Scripts/AgeVerification.cs:146-149 | a buffer accepted as a whole has every non-empty prefix accepted, and conversely |
| `YearInput.DropLastKeepsYearBuffer` | Assets/Scripts/AgeVerification.cs:159-164 | deleting the last character keeps every prefix of the buffer accepted |
| `YearInput.ValidYearInputLaterYear` | Assets/Scripts/AgeVerification.cs:126 | an accepted input stays accepted when the clock reaches a later year |
| `YearInput.EveryYearInRangeCanBeTyped` | Assets/Scripts/AgeVerification.cs:142-149 | every prefix of every year from 1900 to the current year is accepted, so each such year can be typed |
| `YearInput.AcceptedPrefixExtends` | Assets/Scripts/AgeVerification.cs:142-149 | an accepted prefix shorter than four characters always has a digit that extends it to an accepted prefix |
| `Calendar.IsLeapYear` | Assets/Scripts/AgeVerification.cs:218 | the Gregorian leap rule that `AddYears` and `new DateTime` apply: a leap year is divisible by 4, and every year divisible by 400 is leap |
| `Calendar.DaysInMonth` | Assets/Scripts/AgeVerification.cs:291-299 | a month has 28 to 31 days; it has 29 exactly for February of a Gregorian leap year and 28 exactly for February of any other year |
| `Calendar.IsValidDate` | Assets/Scripts/AgeVerification.cs:291-299 | a date `new DateTime` accepts has a month 1..12 and a day 1..31, and February 29 only in a leap year |
| `Calendar.Before` | Assets/Scripts/BirthDayInputManager.cs:46 | the `>` of `birthDate > today.AddYears(-age)`, as `DateTime` compares midnight dates: an earlier date differs from the later one and is in the same or an earlier year |
| `Calendar.AtOrBefore` | Assets/Scripts/AgeVerification.cs:219 | the `<=` of `date <= eighteenYearsAgo`: strictly before or equal |
| `Calendar.DateOrderTotal` | Assets/Scripts/AgeVerification.cs:219 | the order on (year, month, day) is lexicographic and total: two dates are equal or ordered exactly one way, and `<=` both ways means equal |
| `Calendar.AddYears` | Assets/Scripts/AgeVerification.cs:218 | `AddYears(n)` gives a valid date with the same month, the year moved by n, and the same day unless February 29 is clamped to 28 in a non-leap year |
| `AgeCutoff.Cutoff` | Assets/Scripts/AgeVerification.cs:217-218 | the cutoff is a valid date 18 years before today, in today's month |
| `AgeCutoff.IsOlderThan18` | Assets/Scripts/AgeVerification.cs:215-220 | a date passes only if its year is at most today's year minus 18, and every earlier year passes |
| `AgeCutoff.CutoffBoundary` | Assets/Scripts/AgeVerification.cs:215-220 | the cutoff date itself passes; the day after it does not; a date passes iff it is before that next day |
| `AgeCutoff.LeapDayBirthday` | Assets/Scripts/AgeVerification.cs:218-219 | someone born on February 29 passes on March 1, not February 28, of the year 18 later, which is never a leap year |
| `AgeCutoff.LeapDayToday` | Assets/Scripts/AgeVerification.cs:217-219 | on February 29 of a leap year, `AddYears(-18)` clamps the cutoff to February 28 of the year 18 back: that day passes, March 1 does not |
| `AgeCutoff.OlderThan18StaysTrue` | Assets/Scripts/AgeVerification.cs:215-220 | a date that passes today passes on every later day |
| `AgeCutoff.Dec31` | Assets/Scripts/AgeVerification.cs:184 | `new DateTime(year, 12, 31)` is a date exactly for years 1..9999 and is on or after every date of its year |
| `AgeCutoff.Jan1` | Assets/Scripts/AgeVerification.cs:187 | `new DateTime(year, 1, 1)` is a date exactly for years 1..9999 and is on or before every date of its year |
| `AgeCutoff.WholeYearAdultIffDec31` | Assets/Scripts/AgeVerification.cs:183-200 | every date of a year passes iff December 31 of it passes |
| `AgeCutoff.WholeYearMinorIffJan1` | Assets/Scripts/AgeVerification.cs:186-213 | no date of a year passes iff January 1 of it does not |
| `AgeGate.AgeVerification.constructor` | Assets/Scripts/AgeVerification.cs:52-54 | a new component has an empty buffer, the default date and the enum's first state |
| `AgeGate.AgeVerification.Start` | Assets/Scripts/AgeVerification.cs:76-100 | a saved date decides "18 or older" (no dialog) or "under 18" (denied dialog); without one, year entry starts with an empty buffer; the dialog matches the state |
| `AgeGate.AgeVerification.OnNumberButtonClicked` | Assets/Scripts/AgeVerification.cs:142-157 | when the buffer is full or the longer prefix is rejected, nothing changes; otherwise exactly that digit is appended, and the fourth one evaluates the year; the buffer stays at most four digits, every prefix stays accepted, and the state never becomes "under 18" |
| `AgeGate.AgeVerification.OnDeleteButtonClicked` | Assets/Scripts/AgeVerification.cs:159-166 | exactly the last character of a non-empty buffer is removed; an empty buffer stays empty; every prefix that was accepted stays accepted |
| `AgeGate.AgeVerification.ResetYearInput` | Assets/Scripts/AgeVerification.cs:168-172 | the buffer becomes empty |
| `AgeGate.AgeVerification.EvaluateYearInput` | Assets/Scripts/AgeVerification.cs:179-213 | a year whose December 31 passes sets the birth date to that day and the state to "18 or older"; any other year goes to year confirmation |
| `AgeGate.AgeVerification.YearEvaluated` | Assets/Scripts/AgeVerification.cs:193-212 | after a year is evaluated, the state is "18 or older" or "confirming the year", with its dialog shown; in the first case the birth date lies in that year and passes the cutoff |
| `AgeGate.AgeVerification.OnConfirmDialogConfirm` | Assets/Scripts/AgeVerification.cs:230-253 | a confirmed year leads to month/day entry; a confirmed date leads to "18 or older" iff it passes the cutoff, else to "under 18"; other states are unchanged |
| `AgeGate.AgeVerification.OnConfirmDialogEdit` | Assets/Scripts/AgeVerification.cs:256-271 | editing a year returns to year entry with an empty buffer; editing a date returns to month/day entry; other states are unchanged |
| `AgeGate.AgeVerification.OnMonthDaySubmit` | Assets/Scripts/AgeVerification.cs:281-307 | a numeric buffer with a month and day that form a date sets the birth date and awaits its confirmation; otherwise nothing changes |
| `AgeGateScenarios.TypeYear` | Assets/Scripts/AgeVerification.cs:142-157 | pressing the four digits of an accepted year fills the buffer with it and evaluates it |
| `BirthDayInput.Age` | Assets/Scripts/BirthDayInputManager.cs:44-49 | the age is the year difference or one less |
| `BirthDayInput.AgeReachesIffCutoff` | Assets/Scripts/BirthDayInputManager.cs:44-49 | the age reaches k iff the birth date is on or before today moved back k years |
| `BirthDayInput.AgeAtLeast18IffOlderThan18` | Assets/Scripts/BirthDayInputManager.cs:44-49 | the age reaches 18 iff the keypad flow's `IsOlderThan18` holds |
| `BirthDayInput.YearCalculation` | Assets/Scripts/BirthDayInputManager.cs:39-52 | no verdict exactly for an impossible date; a birth year more than 19 years back always asks for month and day, and one at most 18 years back is always denied |
| `BirthDayInput.YearCalculationMeaning` | Assets/Scripts/BirthDayInputManager.cs:39-65 | an impossible date gives no verdict; the verdict asks for month and day iff the birth date is on or before today moved back 19 years, and denies otherwise |
| `BirthDayInput.GetResult` | Assets/Scripts/BirthDayInputManager.cs:54-66 | the verdict agrees with "deny only an age under 18" at every age except exactly 18 |
| `BirthDayInput.ExactlyEighteenIsDenied` | Assets/Scripts/BirthDayInputManager.cs:54-59 | on 2024-06-15, a birth date of 2006-06-15 passes the keypad cutoff, has age 18, and is denied |
| `BirthDayInput.CorrectedVerdictMatchesCutoff` | Assets/Scripts/BirthDayInputManager.cs:54-65 | with "under 18 is denied", the verdict denies exactly the dates the keypad flow calls under 18 |
| `BirthDayInput.MaxDayAsWritten` | Assets/Scripts/BirthDayInputManager.cs:76-103 | a day count exists exactly for months 1..12, except February with an unparsable year; it lies between 28 and 31, and outside February it is the calendar's |
| `BirthDayInput.MaxDayAsWrittenVersusCalendar` | Assets/Scripts/BirthDayInputManager.cs:73-104 | the day count is 31 or 30 by month, and 29/28 by the divisibility-by-four rule in February; it equals the Gregorian count iff the month is not the February of a century year not divisible by 400 |
| `BirthDayInput.February1900AsWritten` | Assets/Scripts/BirthDayInputManager.cs:96-98 | February 1900 is offered 29 days, and 1900-02-29 is not a date |
| `BirthDayInput.CorrectedDaysAreExactlyDates` | Assets/Scripts/BirthDayInputManager.cs:96-98 | with the Gregorian rule, the offered days 1..n are exactly the days that form a date |
| `BirthDayInput.DayLabels` | Assets/Scripts/BirthDayInputManager.cs:106-113 | n+1 option texts for n >= 0, none for a negative n |
| `BirthDayInput.DayLabelsCountUp` | Assets/Scripts/BirthDayInputManager.cs:106-113 | the i-th option text is numeric and reads as i |
| `BirthDayInput.BirthDayInputManager.Start` | Assets/Scripts/BirthDayInputManager.cs:18-23 | the day list holds only the placeholder "-" |
| `BirthDayInput.BirthDayInputManager.ChangedMonth` | Assets/Scripts/BirthDayInputManager.cs:73-104 | the list is cleared, then filled with "0".."31" or "0".."30" by month, or "0".."29"/"0".."28" in February by the divisibility-by-four rule; month 0 and months outside 1..12 leave it empty; a year text that does not parse in February throws and leaves it empty |
| `BirthDayInput.BirthDayInputManager.DayOptionSet` | Assets/Scripts/BirthDayInputManager.cs:106-114 | exactly the options "0" through "n" are appended, in ascending order |

## Left out

- Unity plumbing is not modelled, because it is presentation:
  - `Awake` listener wiring and `Update`;
  - `GameObject.SetActive` and the TMP text fields and dropdown widgets;
  - `UpdateYearTextField`, `ShowErrorMessage` and `Debug.Log`.
- `ShowDialog` is modelled only as the `activeDialog` field. Before `Start` the model assumes no dialog is shown; in the application that is scene configuration.
- Message texts are not modelled: the year and date confirmation messages, the `MM/dd/yyyy` format, and the two `GetResult` messages. Only which verdict is shown is modelled (`Verdict`).
- `ResetMonthDayDialog` only resets two dropdown widgets. It is not modelled; the dropdown values are parameters of `OnMonthDaySubmit`.
- `GetSavedDateOfBirth` is a persistence placeholder. The saved date is a parameter of `Start` instead. `default(DateTime)` (0001-01-01) stands for "none", as in the source, so a real saved date of 0001-01-01 also counts as none.
- The clock (`DateTime.Now`, `DateTime.Today`) is not read. "Today" is a parameter of each handler that uses it, and its year is the current year of the prefix check.
- Throwing preconditions are required away rather than modelled:
  - `Start` and `OnConfirmDialogConfirm` require today's year to be above 18, so that `AddYears(-18)` does not throw;
  - `OnNumberButtonClicked` also requires a four-digit year (1000-9999), so that `Substring(0, n)` of its text does not throw;
  - `IsValidYearInput` requires at most four characters, which the only caller guarantees.
- A digit button passes one character, `'0'` to `'9'`, as the ten buttons wired by `Awake` do. `OnNumberButtonClicked` takes it as a `char`.
- `IsValidYearInput` treats a string as numeric only when it is all ASCII digits. `int.TryParse` also accepts a sign or surrounding white space. The keypad only ever produces digits, so this never matters here.
- `EvaluateYearInput` omits its `int.TryParse` failure branch. The model requires a four-character buffer that passed the prefix check, which is how its only caller invokes it, and such a buffer always parses.
- `DateTime.TryParse` in `YearCalculation` and `int.Parse` in `ChangedMonth` are not modelled as string parsing:
  - `YearCalculation` takes the year as a number, and its month and day as the dropdown values. Whether they form a date is `IsValidDate`. Culture-dependent forms, such as a two-digit year, are not modelled.
  - `ChangedMonth` takes the parse of the year text as an `Option`. `None` means `int.Parse` threw, which ends the handler with the list cleared. The model reports that as `thrown`.
- `DateTime` has no time of day or time zone here. Every date the scripts compare is at midnight, so only (year, month, day) matters.
- Both scripts are modelled, each with its own threshold and leap rule.
- Digit, delete and month/day submit have no state guard in the code. In the application only the active dialog's buttons are on screen, because `ShowDialog` hides the other dialogs with `SetActive(false)`. That hiding is not modelled, so the handlers accept input in every state.
- The dropdown's February length keeps the code's divisibility-by-four rule, not the Gregorian one (see Findings).

## Findings

| source | as written | input that shows it | evidently intended | confidence | as-written member | corrected member |
|---|---|---|---|---|---|---|
| Assets/Scripts/BirthDayInputManager.cs:56 | `age <= 18` denies, so someone exactly 18 is told they must be "18 years or older" | today 2024-06-15, birth 2006-06-15: age 18, denied; the keypad flow accepts the same date | deny only an age under 18, which agrees with `IsOlderThan18` | medium, not executed | `BirthDayInput.ExactlyEighteenIsDenied` | `BirthDayInput.CorrectedVerdictMatchesCutoff` |
| Assets/Scripts/BirthDayInputManager.cs:98 | February gets 29 days whenever the year is divisible by 4 | year 1900, month 2: day 29 is offered (options "0" to "29"), yet 1900-02-29 does not exist, so picking it gives no verdict at all | the Gregorian rule, as `DateTime` uses it for date validity | high, not executed | `BirthDayInput.February1900AsWritten` | `BirthDayInput.CorrectedDaysAreExactlyDates` |
