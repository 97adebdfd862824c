/**
 The .NET library behaviour the decoder relies on, stated over `string` (a sequence of
 characters): `string.IsNullOrWhiteSpace`, a digit test, `Convert.ToInt32(s, 2)` and the
 two-decimal rendering of a count of hundredths.
 */
module Text {
  import opened Results

  // ---------------------------------------------------------------------------
  // Character classes
  // ---------------------------------------------------------------------------

  /** The characters `char.IsWhiteSpace` accepts: the space, line and paragraph separators
      of Unicode and the control characters U+0009..U+000D and U+0085. */
  predicate IsWhiteSpace(c: char)
  {
    || '\U{9}' <= c <= '\U{D}'
    || c == ' ' || c == '\U{85}' || c == '\U{A0}' || c == '\U{1680}'
    || '\U{2000}' <= c <= '\U{200A}'
    || c == '\U{2028}' || c == '\U{2029}' || c == '\U{202F}' || c == '\U{205F}'
    || c == '\U{3000}'
  }

  /** `string.IsNullOrWhiteSpace` on a non-null string: empty, or only white space. */
  predicate IsBlank(s: string)
  {
    forall i :: 0 <= i < |s| ==> IsWhiteSpace(s[i])
  }

  predicate IsDigit(c: char)
  {
    '0' <= c <= '9'
  }

  predicate IsBinaryDigit(c: char)
  {
    c == '0' || c == '1'
  }

  predicate AllDigits(s: string)
  {
    forall i :: 0 <= i < |s| ==> IsDigit(s[i])
  }

  predicate AllBinary(s: string)
  {
    forall i :: 0 <= i < |s| ==> IsBinaryDigit(s[i])
  }

  function DigitChar(d: nat): (c: char)
    requires d < 10
    ensures IsDigit(c) && DigitValue(c) == d
  {
    ('0' as int + d) as char
  }

  function DigitValue(c: char): nat
    requires IsDigit(c)
  {
    c as int - '0' as int
  }

  // ---------------------------------------------------------------------------
  // Binary numerals
  // ---------------------------------------------------------------------------

  function Pow2(n: nat): (p: nat)
    ensures p >= 1
  {
    if n == 0 then 1 else 2 * Pow2(n - 1)
  }

  /** The value of a string of binary digits, most significant digit first: the digits are
      consumed left to right, doubling the running value each time. */
  function BinaryValue(s: string): (v: nat)
    requires AllBinary(s)
    ensures v < Pow2(|s|)
    decreases |s|
  {
    if s == [] then 0
    else 2 * BinaryValue(s[..|s| - 1]) + (if s[|s| - 1] == '1' then 1 else 0)
  }

  /** The `n`-digit binary numeral of `v`, with leading zeros: the inverse of BinaryValue. */
  function BinaryText(v: nat, n: nat): (s: string)
    requires v < Pow2(n)
    ensures |s| == n && AllBinary(s)
  {
    if n == 0 then [] else BinaryText(v / 2, n - 1) + [if v % 2 == 1 then '1' else '0']
  }

  lemma {:induction false} BinaryValueOfText(v: nat, n: nat)
    requires v < Pow2(n)
    ensures BinaryValue(BinaryText(v, n)) == v
  {
    if n > 0 {
      var s := BinaryText(v, n);
      assert s[..n - 1] == BinaryText(v / 2, n - 1);
      BinaryValueOfText(v / 2, n - 1);
    }
  }

  lemma {:induction false} BinaryTextOfValue(s: string)
    requires AllBinary(s)
    ensures BinaryText(BinaryValue(s), |s|) == s
  {
    if s != [] {
      var init := s[..|s| - 1];
      BinaryTextOfValue(init);
      assert s == init + [s[|s| - 1]];
    }
  }

  /** Equal-length binary numerals denote equal values only when they are the same text. */
  lemma BinaryValueInjective(s: string, t: string)
    requires AllBinary(s) && AllBinary(t) && |s| == |t|
    requires BinaryValue(s) == BinaryValue(t)
    ensures s == t
  {
  }

  /** Appending a digit doubles the value and adds the digit: the numeral is read most significant first. */
  lemma BinaryValueAppend(s: string, c: char)
    requires AllBinary(s) && IsBinaryDigit(c)
    ensures AllBinary(s + [c])
    ensures BinaryValue(s + [c]) == 2 * BinaryValue(s) + (if c == '1' then 1 else 0)
  {
    assert (s + [c])[..|s|] == s;
  }

  lemma {:induction false} BinaryValueAllOnes(s: string)
    requires forall i :: 0 <= i < |s| ==> s[i] == '1'
    ensures BinaryValue(s) == Pow2(|s|) - 1
  {
    if s != [] {
      BinaryValueAllOnes(s[..|s| - 1]);
    }
  }

  lemma {:induction false} BinaryValueAllZeros(s: string)
    requires forall i :: 0 <= i < |s| ==> s[i] == '0'
    ensures BinaryValue(s) == 0
  {
    if s != [] {
      BinaryValueAllZeros(s[..|s| - 1]);
    }
  }

  // ---------------------------------------------------------------------------
  // Convert.ToInt32(s, 2)
  // ---------------------------------------------------------------------------

  /** The exceptions `Convert.ToInt32(s, 2)` raises on a malformed argument. */
  datatype ConvertError =
    | FormatError         // a character that is not a binary digit (FormatException)
    | NegativeInBase2     // a leading '-', refused outside base 10 (ArgumentException)

  /** Whether `Convert.ToInt32(s, 2)` accepts `s`: binary digits, optionally after one
      leading '+'; no white space is skipped. */
  predicate Base2Accepted(s: string)
  {
    || (|s| > 0 && AllBinary(s))
    || (|s| > 1 && s[0] == '+' && AllBinary(s[1..]))
  }

  /** The digits `Convert.ToInt32(s, 2)` reads: `s` without its optional leading '+'. */
  function Base2Digits(s: string): string
  {
    if |s| > 0 && s[0] == '+' then s[1..] else s
  }

  /** `Convert.ToInt32(s, 2)` for arguments of 1 to 31 characters, where neither overflow
      nor 32-bit wrap-around can happen. */
  function ToInt32Base2(s: string): (r: Result<nat, ConvertError>)
    requires 0 < |s| <= 31
    ensures r.Ok? <==> Base2Accepted(s)
    ensures r.Ok? ==> AllBinary(Base2Digits(s)) && r.value == BinaryValue(Base2Digits(s))
    ensures r.Ok? ==> r.value < Pow2(|s|)
    ensures s[0] == '-' ==> r == Err(NegativeInBase2)
    ensures r.Err? && s[0] != '-' ==> r == Err(FormatError)
  {
    if s[0] == '-' then Err(NegativeInBase2)
    else
      var digits := Base2Digits(s);
      if |digits| > 0 && AllBinary(digits) then
        if s[0] == '+' then
          assert Pow2(|digits|) <= Pow2(|s|);
          Ok(BinaryValue(digits))
        else Ok(BinaryValue(digits))
      else Err(FormatError)
  }

  // ---------------------------------------------------------------------------
  // Decimal numerals and the F2 rendering of hundredths
  // ---------------------------------------------------------------------------

  /** The value of a string of decimal digits, most significant digit first. */
  function DecimalValue(s: string): nat
    requires AllDigits(s)
    decreases |s|
  {
    if s == [] then 0 else 10 * DecimalValue(s[..|s| - 1]) + DigitValue(s[|s| - 1])
  }

  /** The shortest decimal numeral of `n`: the whole-seconds part of the two-decimal
      rendering below. */
  function DecimalText(n: nat): (s: string)
    ensures |s| > 0 && AllDigits(s)
  {
    if n < 10 then [DigitChar(n)] else DecimalText(n / 10) + [DigitChar(n % 10)]
  }

  lemma {:induction false} DecimalTextMeaning(n: nat)
    ensures DecimalValue(DecimalText(n)) == n
    ensures DecimalText(n)[0] != '0' || n == 0
    ensures |DecimalText(n)| == 1 || DecimalText(n)[0] != '0'
  {
    if n >= 10 {
      var s := DecimalText(n);
      assert s[..|s| - 1] == DecimalText(n / 10);
      DecimalTextMeaning(n / 10);
    }
  }

  /** `(v / 100.0).ToString("F2")` for a non-negative count `v` of hundredths, with '.' as the
      decimal separator; exact because `v / 100.0` rounds back to `v` hundredths. */
  function Centiseconds(v: nat): string
  {
    DecimalText(v / 100) + "." + [DigitChar(v % 100 / 10), DigitChar(v % 10)]
  }

  /** The rendering is a shortest whole part, a '.', and exactly two fraction digits, and
      it denotes `v` hundredths. */
  lemma CentisecondsMeaning(v: nat)
    ensures var t := Centiseconds(v);
      && |t| >= 4 && t[|t| - 3] == '.'
      && AllDigits(t[..|t| - 3]) && AllDigits(t[|t| - 2..])
      && 100 * DecimalValue(t[..|t| - 3]) + DecimalValue(t[|t| - 2..]) == v
      && (t[0] != '0' || v < 100)
      && (v < 100 ==> |t| == 4)
  {
    var t := Centiseconds(v);
    var whole := DecimalText(v / 100);
    var frac := [DigitChar(v % 100 / 10), DigitChar(v % 10)];
    assert t == whole + "." + frac;
    assert t[..|t| - 3] == whole;
    assert t[|t| - 2..] == frac;
    DecimalTextMeaning(v / 100);
    assert frac[..1] == [DigitChar(v % 100 / 10)];
    assert DecimalValue(frac[..1]) == v % 100 / 10;
  }
}
