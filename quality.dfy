/**
 * The quality field check (`validate_quality`): the text must be an integer
 * from 1 to 100; anything else is rejected and the field is reset to "80".
 */
module Quality {
  import opened Wrappers
  import opened Numerals

  const DefaultQuality: string := "80"

  /** Whether the field was accepted, and the text the field holds afterwards. */
  datatype Verdict = Verdict(accepted: bool, text: string)

  predicate InRange(v: int) { 1 <= v <= 100 }

  function Validate(text: string): (r: Verdict)
    ensures r.accepted <==> ParseInt(text).Some? && InRange(ParseInt(text).value)
    ensures r.accepted ==> r.text == text
    ensures !r.accepted ==> r.text == DefaultQuality
  {
    match ParseInt(text)
    case Some(v) => if InRange(v) then Verdict(true, text) else Verdict(false, DefaultQuality)
    case None => Verdict(false, DefaultQuality)
  }

  /**
   * Every quality from 1 to 100 is accepted as written, with or without a
   * '+' sign and with any surrounding whitespace, and the text is kept.
   */
  lemma AcceptsEveryQuality(lead: string, sign: string, q: nat, trail: string)
    requires AllSpace(lead) && AllSpace(trail)
    requires sign == "" || sign == "+"
    requires 1 <= q <= 100
    ensures Validate(lead + sign + NatToString(q) + trail) == Verdict(true, lead + sign + NatToString(q) + trail)
  {
    ParseDecimal(lead, sign, q, trail);
  }

  /** Every integer outside 1..100 is rejected and the field reset to "80". */
  lemma RejectsOutOfRange(v: int)
    requires v < 1 || v > 100
    ensures Validate(IntToString(v)) == Verdict(false, DefaultQuality)
  {
    ParseIntToString(v);
  }

  /** A quality led by one of the information separators 0x1C-0x1F is rejected and the field reset to "80". */
  lemma RejectsSeparatorPadding(c: char, rest: string)
    requires 28 <= c as int <= 31
    ensures Validate([c] + rest) == Verdict(false, DefaultQuality)
  {
    LeadingStrayNoInt(c, rest);
  }

  /**
   * After validation the field always holds an acceptable quality: the reset
   * value "80" itself validates, so a second check accepts whatever the first
   * one left behind.
   */
  lemma ValidatedTextValidates(text: string)
    ensures Validate(Validate(text).text) == Verdict(true, Validate(text).text)
  {
    if !Validate(text).accepted {
      ParseIntToString(80);
      assert IntToString(80) == DefaultQuality;
    }
  }
}
