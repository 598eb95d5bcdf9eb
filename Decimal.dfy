/**
 * Decimal digit strings: what `int.ToString()`, `Substring(0, n)` and
 * `int.TryParse` do to the small non-negative numbers of the age gate.
 * Strings are `seq<char>`; a number's text is its digits, most significant first.
 */
module Decimal {

  predicate IsDigit(c: char) {
    '0' <= c <= '9'
  }

  function DigitValue(c: char): (d: nat)
    requires IsDigit(c)
    ensures d <= 9
  {
    c as int - '0' as int
  }

  function DigitChar(d: nat): (c: char)
    requires d <= 9
    ensures IsDigit(c) && DigitValue(c) == d
  {
    ('0' as int + d) as char
  }

  predicate AllDigits(s: seq<char>) {
    forall i :: 0 <= i < |s| ==> IsDigit(s[i])
  }

  /** The strings `int.TryParse` turns into a number here: a non-empty run of ASCII digits. */
  predicate IsNumeric(s: seq<char>) {
    |s| > 0 && AllDigits(s)
  }

  function Pow10(k: nat): (p: nat)
    ensures p >= 1
  {
    if k == 0 then 1 else 10 * Pow10(k - 1)
  }

  /** The number a digit string denotes (the value `int.TryParse` produces). */
  function Value(s: seq<char>): (n: nat)
    requires AllDigits(s)
    ensures n < Pow10(|s|)
    decreases |s|
  {
    if s == [] then 0 else Value(s[..|s| - 1]) * 10 + DigitValue(s[|s| - 1])
  }

  /** `n.ToString()` for a non-negative `n`: no sign, no leading zeros. */
  function ToDecimal(n: nat): (s: seq<char>)
    ensures IsNumeric(s)
    ensures n < Pow10(|s|)
    ensures |s| > 1 ==> Pow10(|s| - 1) <= n
    decreases n
  {
    if n < 10 then [DigitChar(n)] else ToDecimal(n / 10) + [DigitChar(n % 10)]
  }

  /** Division with remainder determines quotient and remainder. */
  lemma DivModUnique(a: int, d: int, q: int, r: int)
    requires d > 0 && 0 <= r < d && a == q * d + r
    ensures a / d == q && a % d == r
  {
    var q0 := a / d;
    if q > q0 {
      MultipleGap(q, q0, d);
    } else if q < q0 {
      MultipleGap(q0, q, d);
    }
  }

  /** Distinct multiples of d lie at least d apart. */
  lemma MultipleGap(x: int, y: int, d: int)
    requires x > y && d > 0
    ensures x * d >= y * d + d
  {
    assert x * d == (x - y - 1) * d + y * d + d;
  }

  /** Dropping the last digit of a number divides it by ten. */
  lemma ValueDropLast(s: seq<char>)
    requires AllDigits(s) && s != []
    ensures Value(s[..|s| - 1]) == Value(s) / 10
  {
    DivModUnique(Value(s), 10, Value(s[..|s| - 1]), DigitValue(s[|s| - 1]));
  }

  /** Appending a digit multiplies by ten and adds the digit. */
  lemma ValueAppend(s: seq<char>, c: char)
    requires AllDigits(s) && IsDigit(c)
    ensures AllDigits(s + [c]) && Value(s + [c]) == Value(s) * 10 + DigitValue(c)
  {
    assert (s + [c])[..|s|] == s;
  }

  /** Dividing by p * q is dividing by p and then by q. */
  lemma DivDiv(a: nat, p: nat, q: nat)
    requires p > 0 && q > 0
    ensures p * q > 0 && a / (p * q) == (a / p) / q
  {
    var b, r := a / p, a % p;
    var c, t := b / q, b % q;
    assert a == b * p + r;
    assert b == c * q + t;
    Regroup(c, q, t, p, r);
    RemainderBelow(t, q, p, r);
    DivModUnique(a, p * q, c, t * p + r);
  }

  /** Regrouping (c * q + t) * p + r by multiples of p * q. */
  lemma Regroup(c: int, q: int, t: int, p: int, r: int)
    ensures (c * q + t) * p + r == c * (p * q) + (t * p + r)
  {
    calc {
      (c * q + t) * p + r;
      (c * q) * p + t * p + r;
      c * (p * q) + (t * p + r);
    }
  }

  /** A remainder modulo q, scaled by p, plus a remainder modulo p stays below p * q. */
  lemma RemainderBelow(t: int, q: int, p: int, r: int)
    requires 0 <= t < q && 0 <= r < p
    ensures p * q > 0 && t * p + r < p * q
  {
    MultipleGap(q, t, p);
    MultipleGap(t, -1, p);
    assert p * q == q * p;
  }

  /** 10^(i+j) is 10^i times 10^j. */
  lemma {:induction false} Pow10Add(i: nat, j: nat)
    ensures Pow10(i + j) == Pow10(i) * Pow10(j)
    decreases j
  {
    if j > 0 {
      Pow10Add(i, j - 1);
      assert Pow10(i + j) == 10 * Pow10(i + (j - 1));
      assert Pow10(i) * Pow10(j) == Pow10(i) * (10 * Pow10(j - 1)) == 10 * (Pow10(i) * Pow10(j - 1));
    }
  }

  /** Dividing by 10^(i+j) is dividing by 10^i and then by 10^j. */
  lemma DivPow10Sum(a: nat, i: nat, j: nat)
    ensures a / Pow10(i + j) == (a / Pow10(i)) / Pow10(j)
  {
    Pow10Add(i, j);
    DivDiv(a, Pow10(i), Pow10(j));
  }

  /** Dividing by 10^(j+1) is dividing by 10^j and then by ten. */
  lemma TruncateOnce(a: nat, j: nat)
    ensures a / Pow10(j + 1) == (a / Pow10(j)) / 10
  {
    DivPow10Sum(a, j, 1);
  }

  /** `ToString()` round-trips through `TryParse`. */
  lemma {:induction false} ValueOfToDecimal(n: nat)
    ensures Value(ToDecimal(n)) == n
    decreases n
  {
    var s := ToDecimal(n);
    if n < 10 {
      assert s[..0] == [];
    } else {
      var t := ToDecimal(n / 10);
      assert s == t + [DigitChar(n % 10)];
      ValueOfToDecimal(n / 10);
      ValueAppend(t, DigitChar(n % 10));
    }
  }

  /**
   * The first k characters of a digit string denote its value with the last
   * |s| - k digits cut off: `Substring(0, k)` is division by 10^(|s|-k).
   */
  lemma {:induction false} ValueOfPrefix(s: seq<char>, k: nat)
    requires AllDigits(s) && k <= |s|
    ensures AllDigits(s[..k]) && Value(s[..k]) == Value(s) / Pow10(|s| - k)
    decreases |s| - k
  {
    if k == |s| {
      assert s[..k] == s;
    } else {
      ValueOfPrefix(s, k + 1);
      var t := s[..k + 1];
      assert t[..|t| - 1] == s[..k];
      ValueDropLast(t);
      TruncateOnce(Value(s), |s| - k - 1);
    }
  }

  /** The text of every year from 1000 to 9999 has exactly four characters. */
  lemma FourDigitYear(y: nat)
    requires 1000 <= y <= 9999
    ensures |ToDecimal(y)| == 4
  {
    var s := ToDecimal(y);
    if |s| < 4 {
      Pow10Monotone(|s|, 3);
    } else if |s| > 4 {
      Pow10Monotone(4, |s| - 1);
    }
  }

  lemma {:induction false} Pow10Monotone(i: nat, j: nat)
    requires i <= j
    ensures Pow10(i) <= Pow10(j)
    decreases j
  {
    if i < j {
      Pow10Monotone(i, j - 1);
    }
  }

  /** Integer division by a positive number keeps the order of its dividends. */
  lemma DivMonotone(a: int, b: int, d: int)
    requires d > 0 && a <= b
    ensures a / d <= b / d
  {
    if a / d > b / d {
      MultipleGap(a / d, b / d, d);
    }
  }
}
