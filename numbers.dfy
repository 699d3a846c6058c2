/**
 * A simplified model of Python's `int()` and `float()` on cleaned cell text.
 * Accepted: an optional sign, then decimal digits, for `int()`; an optional
 * sign, then digits with at most one `.` and at least one digit, for
 * `float()`. Python's surrounding whitespace, `_` separators, exponents,
 * `inf`, `nan` and non-ASCII digits are not modelled.
 */
module Numbers {
  import opened Wrappers

  predicate IsDigit(c: char) {
    '0' <= c <= '9'
  }

  predicate AllDigits(s: string) {
    forall i | 0 <= i < |s| :: IsDigit(s[i])
  }

  /** The value of a string of decimal digits, most significant first. */
  function DigitsValue(s: string): nat
    requires AllDigits(s)
  {
    if s == [] then 0
    else DigitsValue(s[..|s| - 1]) * 10 + (s[|s| - 1] as int - '0' as int)
  }

  function Pow10(n: nat): (p: nat)
    ensures p >= 1
  {
    if n == 0 then 1 else 10 * Pow10(n - 1)
  }

  lemma {:induction false} DigitsValueBound(s: string)
    requires AllDigits(s)
    ensures DigitsValue(s) < Pow10(|s|)
  {
    if s != [] { DigitsValueBound(s[..|s| - 1]); }
  }

  function SignOf(s: string): int {
    if |s| > 0 && s[0] == '-' then -1 else 1
  }

  /** The text after an optional leading sign. */
  function Unsigned(s: string): (u: string)
    ensures |u| <= |s|
  {
    if |s| > 0 && (s[0] == '+' || s[0] == '-') then s[1..] else s
  }

  /** `int(s)`; None stands for the ValueError. */
  function ParseInt(s: string): Option<int> {
    var u := Unsigned(s);
    if u != [] && AllDigits(u) then Some(SignOf(s) * DigitsValue(u)) else None
  }

  function IndexOf(s: string, c: char): (i: nat)
    requires c in s
    ensures i < |s| && s[i] == c && c !in s[..i]
  {
    if s[0] == c then 0 else 1 + IndexOf(s[1..], c)
  }

  /** The value of `digits[.digits]` without sign; None when the text is not of that form. */
  function UnsignedDecimal(u: string): Option<real> {
    if '.' !in u then
      if u != [] && AllDigits(u) then Some(DigitsValue(u) as real) else None
    else
      var i := IndexOf(u, '.');
      var whole, frac := u[..i], u[i + 1..];
      if AllDigits(whole) && AllDigits(frac) && (whole != [] || frac != []) then
        Some(DigitsValue(whole) as real + DigitsValue(frac) as real / Pow10(|frac|) as real)
      else None
  }

  /** `float(s)`; None stands for the ValueError. */
  function ParseFloat(s: string): Option<real> {
    match UnsignedDecimal(Unsigned(s))
    case Some(x) => Some(SignOf(s) as real * x)
    case None => None
  }

  /** Text `int()` accepts is text `float()` accepts, with the same value. */
  lemma IntTextIsFloatText(s: string)
    requires ParseInt(s).Some?
    ensures ParseFloat(s) == Some(ParseInt(s).value as real)
  {
    var u := Unsigned(s);
    assert (SignOf(s) * DigitsValue(u)) as real == SignOf(s) as real * DigitsValue(u) as real;
  }

  /**
   * Without a decimal point the two parsers agree: `float(s)` succeeds exactly
   * when `int(s)` does, and with the same value.
   */
  lemma NoPointFloatIsInt(s: string)
    requires '.' !in s
    ensures ParseFloat(s).Some? <==> ParseInt(s).Some?
    ensures ParseInt(s).Some? ==> ParseFloat(s).value == ParseInt(s).value as real
  {
    var u := Unsigned(s);
    if ParseInt(s).Some? {
      assert (SignOf(s) * DigitsValue(u)) as real == SignOf(s) as real * DigitsValue(u) as real;
    }
  }

  /** Neither parser accepts the empty string. */
  lemma EmptyIsNotANumber()
    ensures ParseInt("") == None && ParseFloat("") == None
  {
  }
}
