/**
 * The keypad's year check (`AgeVerification.IsValidYearInput`): a typed
 * prefix of a year is accepted when its value lies between the same number
 * of leading digits of 1900 and of the current year.
 */
module YearInput {
  import opened Decimal

  /** The earliest birth year the keypad lets through. */
  const MinYear := 1900

  /** The clock years whose text has the four characters the prefix check cuts from. */
  predicate IsFourDigitYear(y: int) {
    1000 <= y <= 9999
  }

  /**
   * `IsValidYearInput(testInput)` with `DateTime.Now.Year` passed in as
   * `currentYear`. A string `int.TryParse` rejects is invalid; otherwise the
   * texts of both bounds are cut to the input's length and compared as numbers.
   * Callers never pass more than four characters (a longer numeric input
   * would make `Substring` throw).
   */
  predicate IsValidYearInput(testInput: seq<char>, currentYear: int)
    requires |testInput| <= 4 && IsFourDigitYear(currentYear)
    ensures IsValidYearInput(testInput, currentYear) ==> IsNumeric(testInput)
  {
    FourDigitYear(currentYear);
    FourDigitYear(MinYear);
    IsNumeric(testInput) &&
    var maxTruncated := Value(ToDecimal(currentYear)[..|testInput|]);
    var minTruncated := Value(ToDecimal(MinYear)[..|testInput|]);
    minTruncated <= Value(testInput) <= maxTruncated
  }

  /** The number formed by the first n of the four digits of y. */
  function Leading(y: nat, n: nat): int
    requires n <= 4
  {
    y / Pow10(4 - n)
  }

  /** Cutting a four-digit year's text to n characters keeps its first n digits. */
  lemma LeadingDigitsOfYear(y: nat, n: nat)
    requires IsFourDigitYear(y) && n <= 4
    ensures |ToDecimal(y)| == 4 && AllDigits(ToDecimal(y)[..n])
    ensures Value(ToDecimal(y)[..n]) == Leading(y, n)
  {
    FourDigitYear(y);
    ValueOfPrefix(ToDecimal(y), n);
    ValueOfToDecimal(y);
  }

  /**
   * The check in numbers: an input of n digits passes exactly when its value
   * lies between the first n digits of 1900 and the first n digits of the
   * current year.
   */
  lemma ValidYearInputRange(testInput: seq<char>, currentYear: int)
    requires |testInput| <= 4 && IsFourDigitYear(currentYear)
    ensures IsValidYearInput(testInput, currentYear) <==>
      IsNumeric(testInput) &&
      Leading(MinYear, |testInput|) <= Value(testInput) <= Leading(currentYear, |testInput|)
  {
    LeadingDigitsOfYear(currentYear, |testInput|);
    LeadingDigitsOfYear(MinYear, |testInput|);
  }

  /** A complete four-digit input passes exactly when it is a year from 1900 to the current year. */
  lemma FullYearInRange(testInput: seq<char>, currentYear: int)
    requires |testInput| == 4 && IsFourDigitYear(currentYear)
    ensures IsValidYearInput(testInput, currentYear) <==>
      IsNumeric(testInput) && MinYear <= Value(testInput) <= currentYear
  {
    ValidYearInputRange(testInput, currentYear);
  }

  /**
   * The check is permissive at length one: when the current year is 2000 or
   * later both "1" and "2" pass, and no other single character does.
   */
  lemma FirstDigitOneOrTwo(c: char, currentYear: int)
    requires 2000 <= currentYear < 3000
    ensures IsValidYearInput([c], currentYear) <==> c == '1' || c == '2'
  {
    ValidYearInputRange([c], currentYear);
    if IsDigit(c) {
      assert [c][..0] == [];
    }
  }

  /** Every prefix of an accepted input is accepted too. */
  lemma ValidYearInputPrefix(testInput: seq<char>, currentYear: int, k: nat)
    requires |testInput| <= 4 && IsFourDigitYear(currentYear)
    requires IsValidYearInput(testInput, currentYear) && 1 <= k <= |testInput|
    ensures IsValidYearInput(testInput[..k], currentYear)
  {
    var n := |testInput|;
    var v := Value(testInput);
    var p := Pow10(n - k);
    ValidYearInputRange(testInput, currentYear);
    ValidYearInputRange(testInput[..k], currentYear);
    ValueOfPrefix(testInput, k);
    DivMonotone(Leading(MinYear, n), v, p);
    DivMonotone(v, Leading(currentYear, n), p);
    LeadingOfLeading(MinYear, n, k);
    LeadingOfLeading(currentYear, n, k);
  }

  /** Cutting n leading digits down to k leading digits. */
  lemma LeadingOfLeading(y: nat, n: nat, k: nat)
    requires k <= n <= 4
    ensures Leading(y, n) / Pow10(n - k) == Leading(y, k)
  {
    DivPow10Sum(y, 4 - n, n - k);
  }

  /**
   * The buffer invariant of the year keypad: at most four characters, and
   * every non-empty prefix passes the check.
   */
  predicate YearBufferOk(buffer: seq<char>, currentYear: int)
    requires IsFourDigitYear(currentYear)
  {
    |buffer| <= 4 &&
    forall k :: 1 <= k <= |buffer| ==> IsValidYearInput(buffer[..k], currentYear)
  }

  /** A buffer that passes the check as a whole satisfies the prefix invariant. */
  lemma ValidInputIsPrefixClosed(buffer: seq<char>, currentYear: int)
    requires |buffer| <= 4 && IsFourDigitYear(currentYear)
    ensures buffer != [] && IsValidYearInput(buffer, currentYear) ==> YearBufferOk(buffer, currentYear)
    ensures YearBufferOk(buffer, currentYear) && buffer != [] ==> IsValidYearInput(buffer, currentYear)
  {
    if buffer != [] && IsValidYearInput(buffer, currentYear) {
      forall k | 1 <= k <= |buffer|
        ensures IsValidYearInput(buffer[..k], currentYear)
      {
        ValidYearInputPrefix(buffer, currentYear, k);
      }
    }
    if YearBufferOk(buffer, currentYear) && buffer != [] {
      assert buffer[..|buffer|] == buffer;
    }
  }

  /** Removing the last character keeps the prefix invariant. */
  lemma DropLastKeepsYearBuffer(buffer: seq<char>, currentYear: int)
    requires IsFourDigitYear(currentYear) && YearBufferOk(buffer, currentYear) && buffer != []
    ensures YearBufferOk(buffer[..|buffer| - 1], currentYear)
  {
    var shorter := buffer[..|buffer| - 1];
    forall k | 1 <= k <= |shorter|
      ensures IsValidYearInput(shorter[..k], currentYear)
    {
      assert shorter[..k] == buffer[..k];
    }
  }

  /** An accepted input stays accepted as the clock moves on to later years. */
  lemma ValidYearInputLaterYear(testInput: seq<char>, currentYear: int, laterYear: int)
    requires |testInput| <= 4 && IsFourDigitYear(currentYear) && IsFourDigitYear(laterYear)
    requires currentYear <= laterYear && IsValidYearInput(testInput, currentYear)
    ensures IsValidYearInput(testInput, laterYear)
  {
    ValidYearInputRange(testInput, currentYear);
    ValidYearInputRange(testInput, laterYear);
    DivMonotone(currentYear, laterYear, Pow10(4 - |testInput|));
  }

  /**
   * Every year from 1900 to the current year can be typed digit by digit:
   * each of its prefixes passes the check.
   */
  lemma EveryYearInRangeCanBeTyped(y: nat, currentYear: int, k: nat)
    requires MinYear <= y <= currentYear <= 9999 && 1 <= k <= 4
    ensures |ToDecimal(y)| == 4 && IsValidYearInput(ToDecimal(y)[..k], currentYear)
  {
    FourDigitYear(y);
    ValueOfToDecimal(y);
    assert IsValidYearInput(ToDecimal(y), currentYear) by {
      FullYearInRange(ToDecimal(y), currentYear);
    }
    ValidYearInputPrefix(ToDecimal(y), currentYear, k);
  }

  /**
   * The keypad never gets stuck: when the current year is 1900 or later,
   * every accepted prefix shorter than four characters has a digit that
   * extends it to an accepted prefix.
   */
  lemma AcceptedPrefixExtends(prefix: seq<char>, currentYear: int) returns (d: char)
    requires MinYear <= currentYear <= 9999 && |prefix| < 4
    requires IsValidYearInput(prefix, currentYear)
    ensures IsDigit(d) && IsValidYearInput(prefix + [d], currentYear)
  {
    var n := |prefix|;
    ValidYearInputRange(prefix, currentYear);
    NextLeadingDigit(currentYear, n);
    var k := ChooseDigit(Value(prefix), Leading(MinYear, n + 1), Leading(currentYear, n + 1));
    d := DigitChar(k);
    ValueAppend(prefix, d);
    ValidYearInputRange(prefix + [d], currentYear);
  }

  /**
   * One more leading digit: the first n digits are the first n + 1 digits
   * divided by ten, and the bounds stay ordered.
   */
  lemma NextLeadingDigit(currentYear: int, n: nat)
    requires MinYear <= currentYear <= 9999 && n < 4
    ensures Leading(MinYear, n) == Leading(MinYear, n + 1) / 10
    ensures Leading(currentYear, n) == Leading(currentYear, n + 1) / 10
    ensures Leading(MinYear, n + 1) <= Leading(currentYear, n + 1)
  {
    var j := 3 - n;
    assert 4 - (n + 1) == j && 4 - n == j + 1;
    TruncateOnce(MinYear, j);
    TruncateOnce(currentYear, j);
    DivMonotone(MinYear, currentYear, Pow10(j));
  }

  /** Between lo and hi there is a number whose tenth is v, when v lies between their tenths. */
  lemma ChooseDigit(v: int, lo: int, hi: int) returns (k: nat)
    requires lo / 10 <= v <= hi / 10 && lo <= hi
    ensures k <= 9 && lo <= v * 10 + k <= hi
  {
    if v == lo / 10 {
      k := lo % 10;
    } else {
      k := 0;
      TimesTenBetween(v, lo, hi);
    }
  }

  /** A value strictly above lo / 10 and at most hi / 10, followed by a 0, lies between lo and hi. */
  lemma TimesTenBetween(v: int, lo: int, hi: int)
    requires lo / 10 < v <= hi / 10
    ensures lo <= v * 10 <= hi
  {
    MultipleGap(v, lo / 10, 10);
    MultipleGap(hi / 10 + 1, v, 10);
  }
}
