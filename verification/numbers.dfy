/**
 * Digit strings: the two validators of the catalogue (str.isdigit followed by
 * int(...) compared with zero), Python's int() on text as used when a CSV row
 * is read back, and str() on integers as used when a row is written.
 */
module Numbers {
  import opened Outcomes
  import opened Text

  predicate IsDigit(c: char) { '0' <= c <= '9' }

  function DigitValue(c: char): nat
    requires IsDigit(c)
  {
    c as int - '0' as int
  }

  function DigitChar(d: nat): char
    requires d < 10
  {
    ('0' as int + d) as char
  }

  predicate AllDigits(s: string) {
    forall i :: 0 <= i < |s| ==> IsDigit(s[i])
  }

  /** str.isdigit() on ASCII text: false for the empty text. */
  predicate IsDigitString(s: string) {
    |s| > 0 && AllDigits(s)
  }

  /** The decimal value of a run of digits; leading zeros are allowed, as in int("007"). */
  function DigitsValue(s: string): nat
    requires AllDigits(s)
  {
    if s == [] then 0 else 10 * DigitsValue(s[..|s| - 1]) + DigitValue(s[|s| - 1])
  }

  /** validar_entero_mayor_que_cero */
  predicate IsPositiveInteger(s: string) {
    IsDigitString(s) && DigitsValue(s) > 0
  }

  /** validar_entero_mayor_igual_que_cero */
  predicate IsNonNegativeInteger(s: string) {
    IsDigitString(s) && DigitsValue(s) >= 0
  }

  /** A run of digits has value zero exactly when every digit is '0'. */
  lemma {:induction false} ZeroValueIffAllZeros(s: string)
    requires AllDigits(s)
    ensures DigitsValue(s) == 0 <==> forall i :: 0 <= i < |s| ==> s[i] == '0'
  {
    if s != [] {
      var init := s[..|s| - 1];
      ZeroValueIffAllZeros(init);
      assert forall i :: 0 <= i < |init| ==> init[i] == s[i];
    }
  }

  /** The positive validator accepts exactly the digit strings with a non-zero
      digit; the non-negative validator accepts exactly the digit strings. So
      the first accepts a subset of what the second accepts. */
  lemma ValidatorsCharacterised(s: string)
    ensures IsPositiveInteger(s) <==> IsDigitString(s) && exists i :: 0 <= i < |s| && s[i] != '0'
    ensures IsNonNegativeInteger(s) <==> IsDigitString(s)
    ensures IsPositiveInteger(s) ==> IsNonNegativeInteger(s)
  {
    if IsDigitString(s) {
      ZeroValueIffAllZeros(s);
    }
  }

  /** "0" passes only the non-negative validator; the empty text, a sign and a
      decimal point fail both. */
  lemma ValidatorExamples()
    ensures !IsPositiveInteger("0") && IsNonNegativeInteger("0")
    ensures IsPositiveInteger("007") && DigitsValue("007") == 7
    ensures !IsPositiveInteger("") && !IsNonNegativeInteger("")
    ensures !IsPositiveInteger("-3") && !IsNonNegativeInteger("-3")
    ensures !IsPositiveInteger("3.5") && !IsNonNegativeInteger("3.5")
    ensures !IsPositiveInteger("abc") && !IsNonNegativeInteger("abc")
  {
  }

  /** The superscript digits one, two and three: str.isdigit() accepts them
      but int() rejects them, as they are not decimal digits. */
  predicate IsSuperscriptDigit(c: char) {
    c == '\U{B9}' || c == '\U{B2}' || c == '\U{B3}'
  }

  /** validar_entero_mayor_que_cero as written, on text that may hold
      superscript digits: isdigit() lets them through and the int() that
      follows raises ValueError, which no caller catches (None). On text
      without them it is exactly the positive validator. */
  function PositiveValidatorAsWritten(s: string): (r: Option<bool>)
    ensures r.None? <==> (&& |s| > 0
                          && (forall i :: 0 <= i < |s| ==> IsDigit(s[i]) || IsSuperscriptDigit(s[i]))
                          && (exists i :: 0 <= i < |s| && IsSuperscriptDigit(s[i])))
    ensures (forall i :: 0 <= i < |s| ==> !IsSuperscriptDigit(s[i])) ==> r == Some(IsPositiveInteger(s))
  {
    if |s| > 0 && forall i :: 0 <= i < |s| ==> IsDigit(s[i]) || IsSuperscriptDigit(s[i]) then
      if AllDigits(s) then Some(DigitsValue(s) > 0) else None
    else Some(false)
  }

  /** The answer "²" (a squared sign, as in km²) passes isdigit() and then
      makes int() fail, so the validator raises instead of answering. */
  lemma SuperscriptBreaksValidator()
    ensures PositiveValidatorAsWritten("\U{B2}") == None
    ensures !IsPositiveInteger("\U{B2}")
  {
  }

  /** str(n) for a natural number: its decimal digits, no leading zero. */
  function NatToString(n: nat): string
  {
    if n < 10 then [DigitChar(n)] else NatToString(n / 10) + [DigitChar(n % 10)]
  }

  /** str(n) for any integer. */
  function IntToString(n: int): string
  {
    if n < 0 then "-" + NatToString(-n) else NatToString(n)
  }

  /** The digits str(n) writes are read back as n. */
  lemma {:induction false} NatToStringRoundTrip(n: nat)
    ensures IsDigitString(NatToString(n))
    ensures DigitsValue(NatToString(n)) == n
    ensures NatToString(n)[0] != '0' || n == 0
  {
    var s := NatToString(n);
    if n >= 10 {
      var init := NatToString(n / 10);
      NatToStringRoundTrip(n / 10);
      assert s[..|s| - 1] == init;
      assert s[0] == init[0];
    }
  }

  /** int(text): surrounding whitespace is ignored, an optional sign may
      precede a non-empty run of ASCII digits; anything else is a ValueError,
      modelled as None. */
  function ParseInt(text: string): Option<int>
  {
    var t := Strip(text);
    if |t| > 0 && (t[0] == '-' || t[0] == '+') then
      if IsDigitString(t[1..]) then
        var magnitude: int := DigitsValue(t[1..]);
        Some(if t[0] == '-' then -magnitude else magnitude)
      else None
    else if IsDigitString(t) then Some(DigitsValue(t) as int)
    else None
  }

  /** Whatever integer is written to the file is read back unchanged. */
  lemma ParseIntRoundTrip(n: int)
    ensures ParseInt(IntToString(n)) == Some(n)
  {
    var m: nat := if n < 0 then -n else n;
    NatToStringRoundTrip(m);
    var s := IntToString(n);
    var d := NatToString(m);
    assert !IsSpace(d[0]) && !IsSpace(d[|d| - 1]);
    StripKeepsTrimmed(s);
    if n < 0 {
      assert s[1..] == d;
    }
  }

  /** A validated text is exactly what int() makes of it, so the validators
      and the conversion that follows them agree. */
  lemma ValidatedTextParses(s: string)
    requires IsNonNegativeInteger(s)
    ensures ParseInt(s) == Some(DigitsValue(s))
  {
    StripKeepsTrimmed(s);
  }
}
