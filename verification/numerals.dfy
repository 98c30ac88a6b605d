/** Decimal numerals: Python's `str(n)` for integers and `int(text)`. */
module Numerals {
  import opened Outcomes
  import opened Whitespace

  predicate IsDigit(c: char) {
    '0' <= c <= '9'
  }

  predicate AllDigits(s: string) {
    forall i :: 0 <= i < |s| ==> IsDigit(s[i])
  }

  function DigitChar(d: nat): (c: char)
    requires d < 10
    ensures IsDigit(c) && c as int - '0' as int == d
  {
    ('0' as int + d) as char
  }

  /** The value of a string of decimal digits, most significant first. */
  function DigitsValue(s: string): nat
    requires AllDigits(s)
    decreases |s|
  {
    if |s| == 0 then 0
    else 10 * DigitsValue(s[..|s| - 1]) + (s[|s| - 1] as int - '0' as int)
  }

  /** Python's `str(n)` for `n >= 0`: the shortest decimal numeral of `n`. */
  function NatToString(n: nat): (s: string)
    ensures |s| > 0 && AllDigits(s)
    ensures s[0] == '0' <==> n == 0
    ensures n == 0 ==> s == "0"
    decreases n
  {
    if n < 10 then [DigitChar(n)]
    else NatToString(n / 10) + [DigitChar(n % 10)]
  }

  /** Python's `str(i)` for any integer. */
  function IntToString(i: int): (s: string)
    ensures |s| > 0
    ensures s[0] == '-' <==> i < 0
  {
    if i < 0 then "-" + NatToString(-i) else NatToString(i)
  }

  /** Digits in groups separated by single underscores, as Python's `int()` accepts them. */
  predicate IsDigitGroups(b: string) {
    && |b| > 0
    && IsDigit(b[0])
    && IsDigit(b[|b| - 1])
    && (forall i :: 0 <= i < |b| ==> IsDigit(b[i]) || b[i] == '_')
    && (forall i :: 0 <= i < |b| - 1 ==> b[i] == '_' ==> b[i + 1] != '_')
  }

  function DropUnderscores(b: string): (r: string)
    requires forall i :: 0 <= i < |b| ==> IsDigit(b[i]) || b[i] == '_'
    ensures AllDigits(r)
    decreases |b|
  {
    if |b| == 0 then ""
    else if b[0] == '_' then DropUnderscores(b[1..])
    else [b[0]] + DropUnderscores(b[1..])
  }

  /** The ASCII information separators U+001C to U+001F. `str.isspace()` accepts them, but
      `int()` strips only the ASCII whitespace `\t \n \v \f \r` and space, and whitespace
      outside ASCII. */
  predicate IsSeparator(c: char) {
    '\U{1C}' <= c <= '\U{1F}'
  }

  /** The whitespace `int()` strips around a numeral. */
  predicate IsNumeralSpace(c: char) {
    IsSpace(c) && !IsSeparator(c)
  }

  predicate AllNumeralSpace(s: string) {
    forall i :: 0 <= i < |s| ==> IsNumeralSpace(s[i])
  }

  /** `int(text)` on a text without separators: surrounding whitespace, an optional sign and
      decimal digit groups; anything else raises ValueError. */
  function ParseStripped(text: string): Outcome<int> {
    var t := Strip(text);
    var negative := |t| > 0 && t[0] == '-';
    var body := if |t| > 0 && (t[0] == '-' || t[0] == '+') then t[1..] else t;
    if IsDigitGroups(body) then
      var v: int := DigitsValue(DropUnderscores(body));
      Ok(if negative then -v else v)
    else Raised(ValueError)
  }

  /** Python's `int(text)`. A separator is never stripped and never part of a numeral, so a
      text holding one raises ValueError wherever it stands; a text without one is stripped
      of exactly the characters `str.isspace()` accepts. */
  function ParseInt(text: string): Outcome<int> {
    if exists i :: 0 <= i < |text| && IsSeparator(text[i]) then Raised(ValueError)
    else ParseStripped(text)
  }

  /** A separator anywhere in the text, even among the surrounding whitespace, makes `int()`
      raise ValueError. */
  lemma SeparatorRejected(pre: string, c: char, post: string)
    requires IsSeparator(c)
    ensures ParseInt(pre + [c] + post) == Raised(ValueError)
  {
    assert (pre + [c] + post)[|pre|] == c;
  }

  /** Reading back a numeral gives the number. */
  lemma {:induction false} NatToStringValue(n: nat)
    ensures DigitsValue(NatToString(n)) == n
    decreases n
  {
    if n >= 10 {
      NatToStringValue(n / 10);
      var s := NatToString(n);
      assert s[..|s| - 1] == NatToString(n / 10);
    }
  }

  lemma {:induction false} DropNoUnderscores(s: string)
    requires AllDigits(s)
    ensures DropUnderscores(s) == s
    decreases |s|
  {
    if |s| > 0 {
      DropNoUnderscores(s[1..]);
      assert s == [s[0]] + s[1..];
    }
  }

  lemma DigitsAreGroups(s: string)
    requires |s| > 0 && AllDigits(s)
    ensures IsDigitGroups(s)
  {
  }

  /** A text without separators parses as its stripped form. */
  lemma ParseWithoutSeparator(text: string)
    requires forall j :: 0 <= j < |text| ==> !IsSeparator(text[j])
    ensures ParseInt(text) == ParseStripped(text)
  {
  }

  /** The stripped parse of a numeral with whitespace around it is its number. */
  lemma ParseStrippedOfIntToString(lead: string, i: int, trail: string)
    requires AllSpace(lead) && AllSpace(trail)
    ensures ParseStripped(lead + IntToString(i) + trail) == Ok(i)
  {
    var s := IntToString(i);
    var n: nat := if i < 0 then -i else i;
    var digits := NatToString(n);
    assert !IsSpace(s[0]) && !IsSpace(s[|s| - 1]);
    StripPadded(lead, s, trail);
    var body := if s[0] == '-' || s[0] == '+' then s[1..] else s;
    assert body == digits by {
      if i < 0 {
        assert s[1..] == digits;
      }
    }
    DigitsAreGroups(digits);
    DropNoUnderscores(digits);
    NatToStringValue(n);
  }

  /** `int(str(i)) == i`, with any whitespace `int()` strips around the numeral. */
  lemma ParseIntOfIntToString(lead: string, i: int, trail: string)
    requires AllNumeralSpace(lead) && AllNumeralSpace(trail)
    ensures ParseInt(lead + IntToString(i) + trail) == Ok(i)
  {
    var s := IntToString(i);
    var n: nat := if i < 0 then -i else i;
    var digits := NatToString(n);
    var text := lead + s + trail;
    forall j | 0 <= j < |text|
      ensures !IsSeparator(text[j])
    {
      if |lead| <= j < |lead| + |s| {
        assert text[j] == s[j - |lead|];
        assert s[j - |lead|] == '-' || IsDigit(s[j - |lead|]) by {
          if i < 0 {
            assert s == "-" + digits;
          }
        }
      }
    }
    ParseWithoutSeparator(text);
    ParseStrippedOfIntToString(lead, i, trail);
  }

  /** The stripped parse of a plain decimal numeral is its value. */
  lemma ParseStrippedOfDigits(digits: string)
    requires |digits| > 0 && AllDigits(digits)
    ensures ParseStripped(digits) == Ok(DigitsValue(digits))
  {
    assert "" + digits == digits;
    assert digits + "" == digits;
    StripPadded("", digits, "");
    DigitsAreGroups(digits);
    DropNoUnderscores(digits);
  }

  /** `int(digits)` for a plain decimal numeral, leading zeros allowed. */
  lemma ParseIntOfDigits(digits: string)
    requires |digits| > 0 && AllDigits(digits)
    ensures ParseInt(digits) == Ok(DigitsValue(digits))
  {
    ParseWithoutSeparator(digits);
    ParseStrippedOfDigits(digits);
  }
}
