/**
 * The normalisation a colour field applies to what is typed into its hex
 * input (`onHexInput`): prefix `#` unless the text already starts with one,
 * then upper-case everything.
 */
module HexInput {
  import opened JsText
  import opened HexColor

  predicate StartsWithHash(v: string)
  {
    v != [] && v[0] == '#'
  }

  /** The typed text without the one `#` it may start with. */
  function Unprefixed(v: string): (u: string)
    ensures v == u || v == "#" + u
    ensures StartsWithHash(v) <==> v == "#" + u
  {
    if StartsWithHash(v) then v[1..] else v
  }

  /**
   * `onHexInput`'s draft value: exactly one `#` in front of the typed text
   * (one is added only when the text does not start with it), the rest
   * upper-cased, character by character.
   */
  function NormalizeHexInput(v: string): (val: string)
    ensures val == "#" + Upper(Unprefixed(v))
    ensures |val| == if StartsWithHash(v) then |v| else |v| + 1
    ensures NoLowercase(val)
  {
    var w := if StartsWithHash(v) then v else "#" + v;
    UpperCons('#', Unprefixed(v));
    UpperFacts(w);
    Upper(w)
  }

  /** Normalising twice is normalising once. */
  lemma NormalizeIdempotent(v: string)
    ensures NormalizeHexInput(NormalizeHexInput(v)) == NormalizeHexInput(v)
  {
    var val := NormalizeHexInput(v);
    assert StartsWithHash(val);
    UpperFacts(val);
  }

  /** Upper-casing neither makes nor unmakes a hexadecimal digit. */
  lemma UpperCharDigit(c: char)
    ensures IsHexDigit(UpperChar(c)) <==> IsHexDigit(c)
  {
  }

  lemma UpperAllDigits(s: string)
    ensures AllHexDigits(Upper(s)) <==> AllHexDigits(s)
  {
    UpperAt(s);
    forall i | 0 <= i < |s|
      ensures IsHexDigit(Upper(s)[i]) <==> IsHexDigit(s[i])
    {
      UpperCharDigit(s[i]);
    }
  }

  /**
   * The normalised draft is a valid colour exactly when the typed text,
   * without its leading `#`, is three or six hexadecimal digits in either case.
   */
  lemma NormalizeValidIff(v: string)
    ensures IsValidHex(NormalizeHexInput(v)) <==>
      (|Unprefixed(v)| == 3 || |Unprefixed(v)| == 6) && AllHexDigits(Unprefixed(v))
  {
    var val := NormalizeHexInput(v);
    IsValidHexIff(val);
    assert val[1..] == Upper(Unprefixed(v));
    UpperAllDigits(Unprefixed(v));
  }

  /** A valid colour is only upper-cased; one in canonical form is left as it is. */
  lemma NormalizeValid(v: string)
    requires IsValidHex(v)
    ensures IsValidHex(NormalizeHexInput(v)) && NormalizeHexInput(v) == Upper(v)
    ensures IsCanonicalHex(v) ==> NormalizeHexInput(v) == v
  {
    IsValidHexIff(v);
    NormalizeValidIff(v);
    assert v == ['#'] + v[1..];
    UpperCons('#', v[1..]);
    UpperFacts(v);
  }
}
