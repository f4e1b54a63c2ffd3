/**
 * Decimal text as Python reads and writes it: `str(n)` for a whole number and
 * `int(text)` for the base-10 parse that the quality field and the progress
 * label rely on.
 */
module Numerals {
  import opened Wrappers

  predicate IsDigit(c: char) { '0' <= c <= '9' }

  /** The value of an ASCII digit; anything else (the `_` separator) is worth nothing. */
  function DigitValue(c: char): nat { if IsDigit(c) then c as int - '0' as int else 0 }

  function DigitChar(d: nat): char
    requires d < 10
  {
    ('0' as int + d) as char
  }

  /** `str(n)` for a non-negative integer: digits only, no leading zero. */
  function NatToString(n: nat): (s: string)
    ensures |s| > 0
    ensures forall i :: 0 <= i < |s| ==> IsDigit(s[i])
    ensures |s| > 1 ==> s[0] != '0'
    decreases n
  {
    if n < 10 then [DigitChar(n)] else NatToString(n / 10) + [DigitChar(n % 10)]
  }

  /** `str(i)` for any integer. */
  function IntToString(i: int): string
  {
    if i < 0 then "-" + NatToString(-i) else NatToString(i)
  }

  /**
   * The characters Python's `int()` skips around an ASCII argument: tab,
   * line feed, vertical tab, form feed, carriage return and the space.
   */
  predicate IsSpace(c: char)
  {
    c == ' ' || 9 <= c as int <= 13
  }

  predicate AllSpace(s: string) { forall i :: 0 <= i < |s| ==> IsSpace(s[i]) }

  function StripLeading(s: string): (r: string)
  {
    if |s| > 0 && IsSpace(s[0]) then StripLeading(s[1..]) else s
  }

  function StripTrailing(s: string): (r: string)
  {
    if |s| > 0 && IsSpace(s[|s| - 1]) then StripTrailing(s[..|s| - 1]) else s
  }

  /** Stripping leading whitespace removes a prefix of whitespace and stops at the first other character. */
  lemma {:induction false} StripLeadingRemovesSpace(s: string)
    ensures var r := StripLeading(s);
      && |r| <= |s| && r == s[|s| - |r|..]
      && AllSpace(s[..|s| - |r|])
      && (r == [] || !IsSpace(r[0]))
  {
    if |s| > 0 && IsSpace(s[0]) {
      StripLeadingRemovesSpace(s[1..]);
      var r := StripLeading(s);
      assert s[1..][|s| - 1 - |r|..] == s[|s| - |r|..];
      assert forall i :: 0 <= i < |s| - |r| ==> s[..|s| - |r|][i] == s[i];
      assert forall i :: 1 <= i < |s| - |r| ==> s[i] == s[1..][..|s| - 1 - |r|][i - 1];
    }
  }

  /** Stripping trailing whitespace removes a suffix of whitespace and stops at the last other character. */
  lemma {:induction false} StripTrailingRemovesSpace(s: string)
    ensures var r := StripTrailing(s);
      && |r| <= |s| && r == s[..|r|]
      && AllSpace(s[|r|..])
      && (r == [] || !IsSpace(r[|r| - 1]))
  {
    if |s| > 0 && IsSpace(s[|s| - 1]) {
      StripTrailingRemovesSpace(s[..|s| - 1]);
      var r := StripTrailing(s);
      assert s[..|s| - 1][..|r|] == s[..|r|];
      assert forall i :: |r| <= i < |s| - 1 ==> s[i] == s[..|s| - 1][|r|..][i - |r|];
      assert forall i :: |r| <= i < |s| ==> s[|r|..][i - |r|] == s[i];
    }
  }

  /** `s.strip()` over the whitespace above. */
  function Strip(s: string): string
  {
    StripTrailing(StripLeading(s))
  }

  /** Python's base-10 digit run: digits, optionally separated by single underscores. */
  predicate IsDigitRun(s: string)
  {
    |s| > 0 && IsDigit(s[0]) && IsDigit(s[|s| - 1]) &&
    (forall i :: 0 <= i < |s| ==> IsDigit(s[i]) || s[i] == '_') &&
    (forall i :: 0 <= i < |s| - 1 && s[i] == '_' ==> s[i + 1] != '_')
  }

  /** The number a digit run denotes, the underscores ignored. */
  function RunValue(s: string): nat
  {
    if s == [] then 0
    else if IsDigit(s[|s| - 1]) then RunValue(s[..|s| - 1]) * 10 + DigitValue(s[|s| - 1])
    else RunValue(s[..|s| - 1])
  }

  /**
   * Python's `int(text)`: surrounding whitespace is ignored, one optional sign
   * is allowed directly before the digits; any other text raises ValueError,
   * which is `None` here.
   */
  function ParseInt(text: string): Option<int>
  {
    var t := Strip(text);
    if |t| > 0 && (t[0] == '+' || t[0] == '-') then
      var magnitude: int := RunValue(t[1..]);
      if IsDigitRun(t[1..]) then Some(if t[0] == '-' then -magnitude else magnitude)
      else None
    else if IsDigitRun(t) then Some(RunValue(t))
    else None
  }

  /** Reading back what `str()` wrote gives the number again. */
  lemma {:induction false} RunValueOfNatToString(n: nat)
    ensures RunValue(NatToString(n)) == n
    decreases n
  {
    if n >= 10 {
      var s := NatToString(n);
      assert s[..|s| - 1] == NatToString(n / 10);
      RunValueOfNatToString(n / 10);
    }
  }

  lemma {:induction false} StripLeadingPadded(lead: string, rest: string)
    requires AllSpace(lead)
    requires |rest| > 0 && !IsSpace(rest[0])
    ensures StripLeading(lead + rest) == rest
    decreases |lead|
  {
    if lead != [] {
      assert (lead + rest)[1..] == lead[1..] + rest;
      StripLeadingPadded(lead[1..], rest);
    } else {
      assert lead + rest == rest;
    }
  }

  lemma {:induction false} StripTrailingPadded(rest: string, trail: string)
    requires AllSpace(trail)
    requires |rest| > 0 && !IsSpace(rest[|rest| - 1])
    ensures StripTrailing(rest + trail) == rest
    decreases |trail|
  {
    if trail != [] {
      assert (rest + trail)[..|rest + trail| - 1] == rest + trail[..|trail| - 1];
      StripTrailingPadded(rest, trail[..|trail| - 1]);
    } else {
      assert rest + trail == rest;
    }
  }

  /** Stripping leaves a text alone when it neither starts nor ends with whitespace. */
  lemma StripPadded(lead: string, core: string, trail: string)
    requires AllSpace(lead) && AllSpace(trail)
    requires |core| > 0 && !IsSpace(core[0]) && !IsSpace(core[|core| - 1])
    ensures Strip(lead + core + trail) == core
  {
    assert lead + core + trail == lead + (core + trail);
    StripLeadingPadded(lead, core + trail);
    StripTrailingPadded(core, trail);
  }

  /**
   * `int()` reads back every decimal numeral, padded with whitespace and
   * carrying an optional sign.
   */
  lemma ParseDecimal(lead: string, sign: string, n: nat, trail: string)
    requires AllSpace(lead) && AllSpace(trail)
    requires sign == "" || sign == "+" || sign == "-"
    ensures ParseInt(lead + sign + NatToString(n) + trail) == Some(if sign == "-" then 0 - n else n)
  {
    if sign == "" {
      assert lead + sign + NatToString(n) + trail == lead + NatToString(n) + trail;
      ParseUnsignedDecimal(lead, n, trail);
    } else {
      ParseSignedDecimal(lead, sign, n, trail);
    }
  }

  lemma ParseUnsignedDecimal(lead: string, n: nat, trail: string)
    requires AllSpace(lead) && AllSpace(trail)
    ensures ParseInt(lead + NatToString(n) + trail) == Some(n)
  {
    var digits := NatToString(n);
    StripPadded(lead, digits, trail);
    RunValueOfNatToString(n);
    DigitsAreRun(digits);
    ParseUnsigned(lead + digits + trail, digits);
  }

  lemma ParseSignedDecimal(lead: string, sign: string, n: nat, trail: string)
    requires AllSpace(lead) && AllSpace(trail)
    requires sign == "+" || sign == "-"
    ensures ParseInt(lead + sign + NatToString(n) + trail) == Some(if sign == "-" then 0 - n else n)
  {
    var digits := NatToString(n);
    var core := sign + digits;
    var text := lead + sign + digits + trail;
    assert text == lead + core + trail;
    assert core[1..] == digits;
    StripPadded(lead, core, trail);
    RunValueOfNatToString(n);
    DigitsAreRun(digits);
    ParseSigned(text, core);
  }

  /** `int(str(v)) == v` for every integer. */
  lemma ParseIntToString(v: int)
    ensures ParseInt(IntToString(v)) == Some(v)
  {
    if v < 0 {
      ParseNegative(-v);
    } else {
      ParseNatural(v);
    }
  }

  lemma ParseNatural(n: nat)
    ensures ParseInt(NatToString(n)) == Some(n)
  {
    var text := NatToString(n);
    assert StripLeading(text) == text;
    assert StripTrailing(text) == text;
    DigitsAreRun(text);
    RunValueOfNatToString(n);
    ParseUnsigned(text, text);
  }

  lemma ParseNegative(n: nat)
    ensures ParseInt("-" + NatToString(n)) == Some(0 - n)
  {
    var text := "-" + NatToString(n);
    assert StripLeading(text) == text;
    assert StripTrailing(text) == text;
    assert text[1..] == NatToString(n);
    DigitsAreRun(text[1..]);
    RunValueOfNatToString(n);
    ParseSigned(text, text);
  }

  lemma DigitsAreRun(s: string)
    requires |s| > 0 && forall i :: 0 <= i < |s| ==> IsDigit(s[i])
    ensures IsDigitRun(s)
  {
  }

  lemma ParseSigned(text: string, t: string)
    requires Strip(text) == t && |t| > 0 && (t[0] == '+' || t[0] == '-') && IsDigitRun(t[1..])
    ensures ParseInt(text) == Some(if t[0] == '-' then 0 - RunValue(t[1..]) else RunValue(t[1..]))
  {
  }

  lemma ParseUnsigned(text: string, t: string)
    requires Strip(text) == t && IsDigitRun(t)
    ensures ParseInt(text) == Some(RunValue(t))
  {
  }

  /**
   * A text that starts with a character `int()` neither skips nor reads as
   * a sign, a digit or a separator is not an integer. The information
   * separators 0x1C-0x1F are such characters.
   */
  lemma LeadingStrayNoInt(c: char, rest: string)
    requires !IsSpace(c) && !IsDigit(c) && c != '+' && c != '-' && c != '_'
    ensures ParseInt([c] + rest) == None
  {
    var text := [c] + rest;
    assert StripLeading(text) == text;
    StripTrailingRemovesSpace(text);
    var t := StripTrailing(text);
    assert text[|t|..] == text || t[0] == c;
  }

  /** Text with no digit in it is never an integer. */
  lemma {:induction false} NoDigitNoInt(text: string)
    requires forall i :: 0 <= i < |text| ==> !IsDigit(text[i])
    ensures ParseInt(text) == None
  {
    var t := Strip(text);
    var l := StripLeading(text);
    StripLeadingRemovesSpace(text);
    StripTrailingRemovesSpace(l);
    assert t == l[..|t|];
    if |t| > 0 {
      assert t[|t| - 1] == text[|text| - |l| + |t| - 1];
      if |t| > 1 {
        assert t[1..][|t| - 2] == text[|text| - |l| + |t| - 1];
      }
    }
  }
}
