/**
 * The colour utilities of the showcase component: the `isValidHex` regular
 * expression, `hexToRgb` (with the `parseInt(…, 16)` it calls and the 32-bit
 * shifts and masks it applies) and `rgbToHex` (with `toString(16)` and
 * `padStart(2, "0")`).
 */
module HexColor {
  import opened JsText

  predicate IsHexDigit(c: char)
  {
    '0' <= c <= '9' || 'a' <= c <= 'f' || 'A' <= c <= 'F'
  }

  predicate AllHexDigits(s: string)
  {
    forall i :: 0 <= i < |s| ==> IsHexDigit(s[i])
  }

  /** The value of one hexadecimal digit, either case. */
  function DigitValue(c: char): (d: nat)
    requires IsHexDigit(c)
    ensures d < 16
  {
    if '0' <= c <= '9' then c as int - '0' as int
    else if 'a' <= c <= 'f' then c as int - 'a' as int + 10
    else c as int - 'A' as int + 10
  }

  /** The digit `toString(16)` writes for `d`: a lower-case letter above 9. */
  function LowerDigit(d: nat): (c: char)
    requires d < 16
    ensures IsHexDigit(c) && DigitValue(c) == d && !IsAsciiUpper(c)
  {
    if d < 10 then (d + '0' as int) as char else (d - 10 + 'a' as int) as char
  }

  /** The number a run of hexadecimal digits denotes, most significant first. */
  function HexValue(s: string): nat
    requires AllHexDigits(s)
  {
    if s == [] then 0 else HexValue(s[..|s| - 1]) * 16 + DigitValue(s[|s| - 1])
  }

  /** Case does not matter to the digits or their value. */
  lemma {:induction false} HexValueUpper(s: string)
    requires AllHexDigits(s)
    ensures AllHexDigits(Upper(s)) && HexValue(Upper(s)) == HexValue(s)
  {
    UpperAt(s);
    if s != [] {
      var p := s[..|s| - 1];
      assert s == p + [s[|s| - 1]];
      UpperAppend(p, [s[|s| - 1]]);
      assert Upper(s)[..|s| - 1] == Upper(p);
      HexValueUpper(p);
    }
  }

  /* ---------- isValidHex ---------- */

  /** The regular expression `[A-Fa-f0-9]{n}`, anchored at both ends, matches `s`. */
  predicate DigitsExactly(s: string, n: nat)
  {
    if n == 0 then s == [] else s != [] && IsHexDigit(s[0]) && DigitsExactly(s[1..], n - 1)
  }

  /** `isValidHex`: `/^#([A-Fa-f0-9]{6}|[A-Fa-f0-9]{3})$/.test(v)`. */
  predicate IsValidHex(v: string)
  {
    v != [] && v[0] == '#' && (DigitsExactly(v[1..], 6) || DigitsExactly(v[1..], 3))
  }

  lemma {:induction false} DigitsExactlyIff(s: string, n: nat)
    ensures DigitsExactly(s, n) <==> |s| == n && AllHexDigits(s)
  {
    if n > 0 && s != [] {
      DigitsExactlyIff(s[1..], n - 1);
      assert AllHexDigits(s) <==> IsHexDigit(s[0]) && AllHexDigits(s[1..]);
    }
  }

  /** A colour is valid exactly when it is `#` followed by three or six hexadecimal digits, either case. */
  lemma IsValidHexIff(v: string)
    ensures IsValidHex(v) <==>
      (|v| == 4 || |v| == 7) && v[0] == '#' && AllHexDigits(v[1..])
  {
    if v != [] {
      DigitsExactlyIff(v[1..], 6);
      DigitsExactlyIff(v[1..], 3);
    }
  }

  /** Accepted: the two colours the save alert names (`#9B6BA3`, `#ABC`), and a lower-case one. */
  lemma IsValidHexAccepts()
    ensures IsValidHex("#9B6BA3") && IsValidHex("#ABC") && IsValidHex("#abc")
  {
  }

  /** Refused: no `#`, five digits, a trailing space. */
  lemma IsValidHexRejects()
    ensures !IsValidHex("9B6BA3") && !IsValidHex("#12345") && !IsValidHex("#9B6BA3 ")
  {
    IsValidHexIff("#12345");
    IsValidHexIff("#9B6BA3 ");
  }

  /* ---------- hexToRgb ---------- */

  /** The outcome of `parseInt`: `NaN` or an integer. */
  datatype Parsed = NaN | Num(value: int)

  /** The longest run of hexadecimal digits at the start of `s`. */
  function TakeHexDigits(s: string): (z: string)
    ensures |z| <= |s| && z == s[..|z|] && AllHexDigits(z)
    ensures |z| < |s| ==> !IsHexDigit(s[|z|])
  {
    if s != [] && IsHexDigit(s[0]) then [s[0]] + TakeHexDigits(s[1..]) else []
  }

  /**
   * `parseInt(s, 16)`: skip leading whitespace, read one optional sign, skip an
   * optional `0x`/`0X`, then take the longest run of hexadecimal digits; no
   * digits give `NaN`.
   */
  function ParseHex(s: string): Parsed
  {
    ParseSigned(TrimStart(s))
  }

  /** After the whitespace: a minus sign negates what follows, a plus sign is skipped. */
  function ParseSigned(t: string): Parsed
  {
    if t != [] && t[0] == '-' then Negate(ParseUnsigned(t[1..]))
    else if t != [] && t[0] == '+' then ParseUnsigned(t[1..])
    else ParseUnsigned(t)
  }

  function Negate(p: Parsed): Parsed
  {
    match p
    case NaN => NaN
    case Num(v) => Num(-v)
  }

  /** After the sign: an optional `0x`/`0X`, then the longest run of digits. */
  function ParseUnsigned(u: string): Parsed
  {
    var w := if |u| >= 2 && u[0] == '0' && (u[1] == 'x' || u[1] == 'X') then u[2..] else u;
    var z := TakeHexDigits(w);
    if z == [] then NaN else Num(HexValue(z))
  }

  /** A string that does not start with whitespace is not trimmed. */
  lemma TrimStartKeeps(s: string)
    requires s != [] && IsHexDigit(s[0])
    ensures TrimStart(s) == s
  {
    assert !IsJsSpace(s[0]);
  }

  /** A run of digits is taken whole. */
  lemma TakeAllDigits(s: string)
    requires AllHexDigits(s)
    ensures TakeHexDigits(s) == s
  {
    var z := TakeHexDigits(s);
    assert |z| == |s|;
    assert s[..|s|] == s;
  }

  /** A non-empty run of digits and nothing else parses to the number it denotes. */
  lemma ParseHexDigits(s: string)
    requires s != [] && AllHexDigits(s)
    ensures ParseHex(s) == Num(HexValue(s))
  {
    assert IsHexDigit(s[0]);
    TrimStartKeeps(s);
    assert s[0] != '-' && s[0] != '+';
    ParseUnsignedDigits(s);
  }

  /** A run of digits alone, without a `0x` in front, is read whole. */
  lemma ParseUnsignedDigits(w: string)
    requires w != [] && AllHexDigits(w)
    ensures ParseUnsigned(w) == Num(HexValue(w))
  {
    assert |w| >= 2 ==> IsHexDigit(w[1]);
    TakeAllDigits(w);
  }

  /** Leading whitespace is skipped one character at a time. */
  lemma SpaceTrimmed(c: char, w: string)
    requires IsJsSpace(c)
    ensures TrimStart([c] + w) == TrimStart(w)
  {
    var s := [c] + w;
    assert s[0] == c && s[1..] == w;
    assert TrimStart(s) == TrimStart(s[1..]);
  }

  /** A text that does not start with whitespace is left as it is. */
  lemma NoSpaceNoTrim(s: string)
    requires s != [] && !IsJsSpace(s[0])
    ensures TrimStart(s) == s
  {
  }

  /** A minus sign in front of a run of digits negates it. */
  lemma ParseHexNegative(w: string)
    requires w != [] && AllHexDigits(w)
    ensures ParseHex("-" + w) == Num(-(HexValue(w) as int))
  {
    SignedDigits(w);
  }

  lemma SignedDigits(w: string)
    requires w != [] && AllHexDigits(w)
    ensures ParseHex("-" + w) == Negate(ParseUnsigned(w)) && ParseUnsigned(w) == Num(HexValue(w))
  {
    ParseUnsignedDigits(w);
    SignRead('-', w);
  }

  /** A plus sign in front of a run of digits is skipped. */
  lemma ParseHexPlus(w: string)
    requires w != [] && AllHexDigits(w)
    ensures ParseHex("+" + w) == Num(HexValue(w))
  {
    ParseUnsignedDigits(w);
    SignRead('+', w);
  }

  /** Whitespace in front of a run of digits is skipped. */
  lemma ParseHexLeadingSpace(space: char, w: string)
    requires IsJsSpace(space) && w != [] && AllHexDigits(w)
    ensures ParseHex([space] + w) == Num(HexValue(w))
  {
    SpaceTrimmed(space, w);
    ParseHexDigits(w);
  }

  /** A sign after the whitespace: the parse of what follows it, negated for a minus. */
  lemma SignRead(c: char, w: string)
    requires c == '-' || c == '+'
    ensures c == '-' ==> ParseHex([c] + w) == Negate(ParseUnsigned(w))
    ensures c == '+' ==> ParseHex([c] + w) == ParseUnsigned(w)
  {
    var s := [c] + w;
    assert s[0] == c && s[1..] == w;
    NoSpaceNoTrim(s);
    if c == '-' {
      assert ParseSigned(s) == Negate(ParseUnsigned(w));
    } else {
      assert ParseSigned(s) == ParseUnsigned(w);
    }
  }

  /** A `0x` or `0X` in front of a run of digits is skipped. */
  lemma ParseHexPrefixed(w: string)
    requires w != [] && AllHexDigits(w)
    ensures ParseHex("0x" + w) == Num(HexValue(w)) && ParseHex("0X" + w) == Num(HexValue(w))
  {
    TakeAllDigits(w);
    PrefixSkipped('x', w);
    PrefixSkipped('X', w);
  }

  lemma PrefixSkipped(x: char, w: string)
    requires x == 'x' || x == 'X'
    ensures ParseHex(['0', x] + w) == ParseUnsigned(['0', x] + w)
    ensures ParseUnsigned(['0', x] + w) == (var z := TakeHexDigits(w); if z == [] then NaN else Num(HexValue(z)))
  {
    var s := ['0', x] + w;
    assert ParseHex(s) == ParseSigned(s) by {
      NoSpaceNoTrim(s);
    }
    assert ParseSigned(s) == ParseUnsigned(s) by {
      assert s[0] == '0';
    }
    assert s[0] == '0' && s[1] == x && s[2..] == w;
  }

  /**
   * With no digit where the digits should start, `parseInt` gives `NaN`: an
   * empty text, or one whose first character is neither whitespace, a sign
   * nor a digit.
   */
  lemma ParseHexNoDigits(s: string)
    requires s != [] ==> !IsJsSpace(s[0]) && s[0] != '-' && s[0] != '+' && !IsHexDigit(s[0])
    ensures ParseHex(s) == NaN
  {
    assert TrimStart(s) == s by {
      if s != [] {
        NoSpaceNoTrim(s);
      }
    }
    assert ParseSigned(s) == ParseUnsigned(s);
    assert TakeHexDigits(s) == [];
  }

  /** A bare `0x` has no digits after the prefix, and gives `NaN`. */
  lemma ParseHexBarePrefix()
    ensures ParseHex("0x") == NaN
  {
    PrefixSkipped('x', []);
    assert ['0', 'x'] + [] == "0x";
  }

  const TwoTo32: int := 0x1_0000_0000
  const TwoTo31: int := 0x8000_0000

  /** The ECMAScript ToInt32 conversion the bitwise operators apply to an integral Number. */
  function ToInt32(v: int): (r: int)
    ensures -TwoTo31 <= r < TwoTo31 && (v - r) % TwoTo32 == 0
  {
    var m := v % TwoTo32;
    if m >= TwoTo31 then m - TwoTo32 else m
  }

  /** ToInt32 of a parse outcome: `NaN` becomes 0. */
  function ParsedInt32(p: Parsed): int
  {
    match p
    case NaN => 0
    case Num(v) => ToInt32(v)
  }

  /** `n.split("").map((c) => c + c).join("")`: every character written twice. */
  function Doubled(n: string): (d: string)
    ensures |d| == 2 * |n|
  {
    if n == [] then [] else [n[0], n[0]] + Doubled(n[1..])
  }

  lemma DoubledThree(n: string)
    requires |n| == 3
    ensures Doubled(n) == [n[0], n[0], n[1], n[1], n[2], n[2]]
  {
    assert Doubled(n[2..]) == [n[2], n[2]];
    assert Doubled(n[1..]) == [n[1], n[1]] + Doubled(n[2..]);
  }

  datatype Rgb = Rgb(r: int, g: int, b: int)

  predicate IsByte(x: int) { 0 <= x < 256 }

  /**
   * `(n >> 16) & 255`, `(n >> 8) & 255` and `n & 255` of a 32-bit value: `>>`
   * is floor division by a power of two and `& 255` the remainder modulo 256.
   */
  function Unpack(bigint: int): (c: Rgb)
    ensures IsByte(c.r) && IsByte(c.g) && IsByte(c.b)
  {
    Rgb((bigint / 0x1_0000) % 256, (bigint / 0x100) % 256, bigint % 256)
  }

  /**
   * `hexToRgb`: drop the first `#`, double a three-character remainder, parse
   * it in base 16 and split the 32-bit value into bytes. Every string gives three bytes.
   */
  function HexToRgb(hex: string): (c: Rgb)
    ensures IsByte(c.r) && IsByte(c.g) && IsByte(c.b)
  {
    var n := RemoveFirst(hex, '#');
    Unpack(ParsedInt32(ParseHex(if |n| == 3 then Doubled(n) else n)))
  }

  /** `hexToRgb` of a text whose `#`-less remainder is not three characters long. */
  lemma HexToRgbUndoubled(hex: string, n: string, p: Parsed)
    requires n == RemoveFirst(hex, '#') && |n| != 3 && ParseHex(n) == p
    ensures HexToRgb(hex) == Unpack(ParsedInt32(p))
  {
  }

  /** Text without digits parses to `NaN`, which the bitwise operators read as 0: black (the two texts are passed in as `h`, as in `HexToRgbExample`). */
  lemma HexToRgbNoDigits(h: string)
    requires h == "" || h == "#"
    ensures HexToRgb(h) == Rgb(0, 0, 0)
  {
    ParseHexNoDigits([]);
    assert RemoveFirst(h, '#') == [] by {
      if h == "#" {
        RemoveLeadingHash([]);
        assert h == "#" + [];
      }
    }
    HexToRgbUndoubled(h, [], NaN);
  }

  /**
   * A minus sign after the `#` makes the number negative, and the bytes are
   * those of its 32-bit two's-complement pattern, unless exactly two digits
   * follow the sign (`HexToRgbSignedShorthand`).
   */
  lemma HexToRgbNegative(w: string)
    requires w != [] && AllHexDigits(w) && |w| != 2
    ensures HexToRgb("#-" + w) == Unpack(ParsedInt32(Num(-(HexValue(w) as int))))
  {
    NegativeSteps(w);
    ParseHexNegative(w);
  }

  /**
   * A sign followed by exactly two characters leaves three characters, which
   * are doubled: the text then starts with two signs, `parseInt` reads the
   * first and finds no digit after it, and the colour is black.
   */
  lemma HexToRgbSignedShorthand(c: char, w: string)
    requires (c == '-' || c == '+') && |w| == 2
    ensures HexToRgb("#" + [c] + w) == Rgb(0, 0, 0)
  {
    var n := [c] + w;
    assert "#" + [c] + w == "#" + n;
    RemoveLeadingHash(n);
    DoubledThree(n);
    TwoSignsNaN(Doubled(n));
    HexToRgbDoubledNaN("#" + n, n);
  }

  /** A three-character remainder whose doubling has no number in it decodes to black. */
  lemma HexToRgbDoubledNaN(hex: string, n: string)
    requires n == RemoveFirst(hex, '#') && |n| == 3 && ParseHex(Doubled(n)) == NaN
    ensures HexToRgb(hex) == Rgb(0, 0, 0)
  {
  }

  /** Two signs in a row: `parseInt` reads the first and finds no digit after it. */
  lemma TwoSignsNaN(d: string)
    requires |d| >= 2 && (d[0] == '-' || d[0] == '+') && d[1] == d[0]
    ensures ParseHex(d) == NaN
  {
    NoSpaceNoTrim(d);
    assert TakeHexDigits(d[1..]) == [];
    assert ParseUnsigned(d[1..]) == NaN;
  }

  lemma NegativeSteps(w: string)
    requires w != [] && AllHexDigits(w) && |w| != 2
    ensures HexToRgb("#-" + w) == Unpack(ParsedInt32(ParseHex("-" + w)))
  {
    var n := "-" + w;
    assert "#-" + w == "#" + n;
    RemoveLeadingHash(n);
    HexToRgbUndoubled("#" + n, n, ParseHex(n));
  }

  /** The `#` a colour starts with is the one `replace` removes. */
  lemma RemoveLeadingHash(w: string)
    ensures RemoveFirst("#" + w, '#') == w
  {
    var s := "#" + w;
    assert s[0] == '#' && FirstIndex(s, '#') == 0;
    assert s[1..] == w;
  }

  /** Dividing `q * d + rem` by `d`, for a remainder below `d`. */
  lemma DivModPlace(q: int, rem: int, d: int)
    requires d == 0x100 || d == 0x1_0000
    requires 0 <= rem < d
    ensures (q * d + rem) / d == q && (q * d + rem) % d == rem
  {
  }

  /** Unpacking a 24-bit number gives back its three bytes. */
  lemma UnpackBytes(r: int, g: int, b: int)
    requires IsByte(r) && IsByte(g) && IsByte(b)
    ensures ToInt32(r * 0x1_0000 + g * 0x100 + b) == r * 0x1_0000 + g * 0x100 + b
    ensures Unpack(r * 0x1_0000 + g * 0x100 + b) == Rgb(r, g, b)
  {
    var v := r * 0x1_0000 + g * 0x100 + b;
    assert v == (r * 0x100 + g) * 0x100 + b;
    DivModPlace(r * 0x100 + g, b, 0x100);
    DivModPlace(r, g, 0x100);
    DivModPlace(r, g * 0x100 + b, 0x1_0000);
  }

  /** The value of two digits, most significant first. */
  function PairValue(a: char, b: char): (v: nat)
    requires IsHexDigit(a) && IsHexDigit(b)
    ensures IsByte(v)
  {
    16 * DigitValue(a) + DigitValue(b)
  }

  /** Two more digits shift a run up by two places. */
  lemma HexValueTwoMore(a: string, x: char, y: char)
    requires AllHexDigits(a) && IsHexDigit(x) && IsHexDigit(y)
    ensures AllHexDigits(a + [x, y])
    ensures HexValue(a + [x, y]) == HexValue(a) * 0x100 + PairValue(x, y)
  {
    var s := a + [x, y];
    assert s[..|s| - 1] == a + [x];
    assert (a + [x])[..|a|] == a;
  }

  /** Six digits are three pairs, two places apart. */
  lemma HexValueSix(n: string)
    requires |n| == 6 && AllHexDigits(n)
    ensures HexValue(n) ==
      PairValue(n[0], n[1]) * 0x1_0000 + PairValue(n[2], n[3]) * 0x100 + PairValue(n[4], n[5])
  {
    var p, q, t := PairValue(n[0], n[1]), PairValue(n[2], n[3]), PairValue(n[4], n[5]);
    HexValueTwoMore([], n[0], n[1]);
    assert [] + [n[0], n[1]] == [n[0], n[1]];
    HexValueTwoMore([n[0], n[1]], n[2], n[3]);
    assert [n[0], n[1]] + [n[2], n[3]] == n[..4];
    HexValueTwoMore(n[..4], n[4], n[5]);
    assert n[..4] + [n[4], n[5]] == n;
    assert HexValue(n) == (p * 0x100 + q) * 0x100 + t;
  }

  /** Six digits after the `#` are parsed whole. */
  lemma HexToRgbOfDigits(n: string)
    requires |n| == 6 && AllHexDigits(n)
    ensures HexToRgb("#" + n) == Unpack(ToInt32(HexValue(n)))
  {
    assert RemoveFirst("#" + n, '#') == n;
    ParseHexDigits(n);
  }

  /** A value that is three bytes, two places apart, unpacks to those bytes. */
  lemma UnpackThree(v: int, r: int, g: int, b: int)
    requires IsByte(r) && IsByte(g) && IsByte(b) && v == r * 0x1_0000 + g * 0x100 + b
    ensures Unpack(ToInt32(v)) == Rgb(r, g, b)
  {
    UnpackBytes(r, g, b);
  }

  /** Six digits decode to the values of their three pairs. */
  lemma HexToRgbOfSix(n: string)
    requires |n| == 6 && AllHexDigits(n)
    ensures HexToRgb("#" + n) == Rgb(PairValue(n[0], n[1]), PairValue(n[2], n[3]), PairValue(n[4], n[5]))
  {
    HexToRgbOfDigits(n);
    HexValueSix(n);
    UnpackThree(HexValue(n), PairValue(n[0], n[1]), PairValue(n[2], n[3]), PairValue(n[4], n[5]));
  }

  /** A three-character remainder is doubled before it is parsed. */
  lemma ShorthandParsesDoubled(h: string)
    requires |h| == 4 && h[0] == '#'
    ensures HexToRgb(h) == HexToRgb("#" + Doubled(h[1..]))
  {
    var n := h[1..];
    assert h == "#" + n;
    assert RemoveFirst(h, '#') == n;
    assert RemoveFirst("#" + Doubled(n), '#') == Doubled(n);
  }

  lemma PairsAreDigits(d: string, x: char, y: char, z: char)
    requires IsHexDigit(x) && IsHexDigit(y) && IsHexDigit(z) && d == [x, x, y, y, z, z]
    ensures AllHexDigits(d)
  {
  }

  lemma PairTwice(c: char)
    requires IsHexDigit(c)
    ensures PairValue(c, c) == 17 * DigitValue(c)
  {
  }

  /** Six digits made by doubling three decode to seventeen times each digit. */
  lemma HexToRgbOfDoubled(n: string)
    requires |n| == 3 && AllHexDigits(n)
    ensures HexToRgb("#" + Doubled(n)) == Rgb(17 * DigitValue(n[0]), 17 * DigitValue(n[1]), 17 * DigitValue(n[2]))
  {
    var d := Doubled(n);
    DoubledThree(n);
    PairsAreDigits(d, n[0], n[1], n[2]);
    HexToRgbOfSix(d);
    PairTwice(n[0]);
    PairTwice(n[1]);
    PairTwice(n[2]);
  }

  /**
   * A three-digit colour decodes like the six-digit one with every digit
   * doubled (`#ABC` like `#AABBCC`), so each channel is seventeen times its digit.
   */
  lemma HexToRgbShorthand(h: string)
    requires |h| == 4 && h[0] == '#' && AllHexDigits(h[1..])
    ensures HexToRgb(h) == HexToRgb("#" + Doubled(h[1..]))
    ensures HexToRgb(h) == Rgb(17 * DigitValue(h[1]), 17 * DigitValue(h[2]), 17 * DigitValue(h[3]))
  {
    ShorthandParsesDoubled(h);
    HexToRgbOfDoubled(h[1..]);
  }

  /**
   * The default primary colour `#9B6BA3` decodes to (155, 107, 163). The
   * colour is passed in as `h` so that the verifier does not evaluate
   * `HexToRgb` on the literal all at once; the proof takes it apart step by step.
   */
  lemma HexToRgbExample(h: string)
    requires h == "#9B6BA3"
    ensures HexToRgb(h) == Rgb(155, 107, 163)
  {
    var n := "9B6BA3";
    assert h == "#" + n;
    HexToRgbOfSix(n);
  }

  /* ---------- rgbToHex ---------- */

  /** `toString(16)` of a non-negative integer: digits that denote it, no leading zero. */
  function Magnitude(x: nat): (s: string)
    ensures s != [] && AllHexDigits(s) && HexValue(s) == x
    ensures |s| > 1 ==> s[0] != '0'
  {
    if x < 16 then [LowerDigit(x)]
    else
      var s := Magnitude(x / 16) + [LowerDigit(x % 16)];
      assert s[..|s| - 1] == Magnitude(x / 16);
      s
  }

  /** `Number.prototype.toString(16)` on an integer. */
  function ToHexString(x: int): string
  {
    if x < 0 then "-" + Magnitude(-x) else Magnitude(x)
  }

  /** `s.padStart(n, "0")`. */
  function PadStart(s: string, n: nat, c: char): (p: string)
    ensures |p| == if |s| >= n then |s| else n
    ensures |s| >= n ==> p == s
  {
    if |s| >= n then s else seq(n - |s|, _ => c) + s
  }

  /** Padding puts copies of the fill character in front and keeps the text as the tail. */
  lemma PadStartContent(s: string, n: nat, c: char)
    ensures var p := PadStart(s, n, c);
      p[|p| - |s|..] == s && forall i :: 0 <= i < |p| - |s| ==> p[i] == c
  {
  }

  /** One channel as `rgbToHex` writes it, before upper-casing. */
  function ChannelHex(x: int): string
  {
    PadStart(ToHexString(x), 2, '0')
  }

  /** `rgbToHex`: `#`, then each channel in base 16 padded to two digits, all upper-cased. */
  function RgbToHex(r: int, g: int, b: int): string
  {
    Upper("#" + ChannelHex(r) + ChannelHex(g) + ChannelHex(b))
  }

  /** The upper-case digit for `d`. */
  function UpperDigit(d: nat): (c: char)
    requires d < 16
    ensures IsHexDigit(c) && DigitValue(c) == d && !IsAsciiLower(c)
  {
    UpperChar(LowerDigit(d))
  }

  /** A byte is written as its high and its low digit, the high one `0` below sixteen. */
  lemma ChannelHexOfByte(x: int)
    requires IsByte(x)
    ensures ChannelHex(x) == [LowerDigit(x / 16), LowerDigit(x % 16)]
  {
    if x < 16 {
      assert Magnitude(x) == [LowerDigit(x)];
      assert seq(1, _ => '0') == ['0'];
    } else {
      assert Magnitude(x / 16) == [LowerDigit(x / 16)];
    }
  }

  lemma HashSix(u: string)
    requires |u| == 6
    ensures "#" + u == ['#', u[0], u[1], u[2], u[3], u[4], u[5]]
  {
  }

  /** `#` and six characters upper-cased, character by character. */
  lemma UpperSix(n: string)
    requires |n| == 6
    ensures "#" + Upper(n) ==
      ['#', UpperChar(n[0]), UpperChar(n[1]), UpperChar(n[2]), UpperChar(n[3]), UpperChar(n[4]), UpperChar(n[5])]
  {
    UpperAt(n);
    HashSix(Upper(n));
  }

  /** Upper-casing `#` and three pairs of characters, character by character. */
  lemma UpperHashPairs(x: string, y: string, z: string)
    requires |x| == 2 && |y| == 2 && |z| == 2
    ensures Upper("#" + x + y + z) ==
      ['#', UpperChar(x[0]), UpperChar(x[1]), UpperChar(y[0]), UpperChar(y[1]), UpperChar(z[0]), UpperChar(z[1])]
  {
    var w := x + y + z;
    assert "#" + x + y + z == ['#'] + w;
    assert w[0] == x[0] && w[1] == x[1] && w[2] == y[0] && w[3] == y[1] && w[4] == z[0] && w[5] == z[1];
    UpperCons('#', w);
    UpperSix(w);
  }

  /** `rgbToHex` of three bytes, digit by digit. */
  lemma RgbToHexDigits(r: int, g: int, b: int)
    requires IsByte(r) && IsByte(g) && IsByte(b)
    ensures RgbToHex(r, g, b) ==
      ['#', UpperDigit(r / 16), UpperDigit(r % 16), UpperDigit(g / 16),
       UpperDigit(g % 16), UpperDigit(b / 16), UpperDigit(b % 16)]
  {
    ChannelHexOfByte(r);
    ChannelHexOfByte(g);
    ChannelHexOfByte(b);
    UpperHashPairs(ChannelHex(r), ChannelHex(g), ChannelHex(b));
  }

  /** (155, 107, 163) encodes to the default primary colour `#9B6BA3`. */
  lemma RgbToHexExample()
    ensures RgbToHex(155, 107, 163) == "#9B6BA3"
  {
    RgbToHexDigits(155, 107, 163);
    assert UpperDigit(9) == '9' && UpperDigit(11) == 'B' && UpperDigit(6) == '6';
    assert UpperDigit(10) == 'A' && UpperDigit(3) == '3';
  }

  /** The form `rgbToHex` writes for bytes: `#` and six upper-case hexadecimal digits. */
  predicate IsCanonicalHex(h: string)
  {
    |h| == 7 && h[0] == '#' && forall i :: 1 <= i < 7 ==> IsHexDigit(h[i]) && !IsAsciiLower(h[i])
  }

  lemma DivMod16(hi: nat, lo: nat)
    requires hi < 16 && lo < 16
    ensures (16 * hi + lo) / 16 == hi && (16 * hi + lo) % 16 == lo
  {
  }

  /** `#` and six upper-case digits are in canonical form. */
  lemma CanonicalDisplay(a: char, b: char, c: char, d: char, e: char, f: char)
    requires IsHexDigit(a) && IsHexDigit(b) && IsHexDigit(c) && IsHexDigit(d) && IsHexDigit(e) && IsHexDigit(f)
    requires !IsAsciiLower(a) && !IsAsciiLower(b) && !IsAsciiLower(c)
    requires !IsAsciiLower(d) && !IsAsciiLower(e) && !IsAsciiLower(f)
    ensures IsCanonicalHex(['#', a, b, c, d, e, f])
  {
  }

  /** Every colour in canonical form is valid. */
  lemma CanonicalIsValid(h: string)
    requires IsCanonicalHex(h)
    ensures IsValidHex(h)
  {
    IsValidHexIff(h);
    forall i | 0 <= i < 6
      ensures IsHexDigit(h[1..][i])
    {
      assert h[1..][i] == h[i + 1];
    }
  }

  /** The two digits written for a byte denote it. */
  lemma PairOfDigits(v: int)
    requires IsByte(v)
    ensures PairValue(UpperDigit(v / 16), UpperDigit(v % 16)) == v
  {
  }

  /**
   * For channels in [0,255] `rgbToHex` returns `#` and six upper-case digits,
   * each pair denoting its channel; in particular the result is a valid colour.
   */
  lemma RgbToHexForm(r: int, g: int, b: int)
    requires IsByte(r) && IsByte(g) && IsByte(b)
    ensures var h := RgbToHex(r, g, b);
      IsCanonicalHex(h) && IsValidHex(h) &&
      PairValue(h[1], h[2]) == r && PairValue(h[3], h[4]) == g && PairValue(h[5], h[6]) == b
  {
    RgbToHexDigits(r, g, b);
    CanonicalDisplay(UpperDigit(r / 16), UpperDigit(r % 16), UpperDigit(g / 16),
      UpperDigit(g % 16), UpperDigit(b / 16), UpperDigit(b % 16));
    CanonicalIsValid(RgbToHex(r, g, b));
    PairOfDigits(r);
    PairOfDigits(g);
    PairOfDigits(b);
  }

  /** Encoding three bytes and decoding the result gives the bytes back. */
  lemma RgbRoundTrip(r: int, g: int, b: int)
    requires IsByte(r) && IsByte(g) && IsByte(b)
    ensures HexToRgb(RgbToHex(r, g, b)) == Rgb(r, g, b)
  {
    RgbToHexForm(r, g, b);
    var h := RgbToHex(r, g, b);
    assert h == "#" + h[1..];
    HexToRgbOfSix(h[1..]);
  }

  /** Upper-casing a digit is writing its value as an upper-case digit. */
  lemma UpperDigitOf(c: char)
    requires IsHexDigit(c)
    ensures UpperDigit(DigitValue(c)) == UpperChar(c)
  {
  }

  /** Re-encoding the value of a pair of digits upper-cases the pair. */
  lemma PairDigits(a: char, b: char)
    requires IsHexDigit(a) && IsHexDigit(b)
    ensures var v := PairValue(a, b);
      UpperDigit(v / 16) == UpperChar(a) && UpperDigit(v % 16) == UpperChar(b)
  {
    DivMod16(DigitValue(a), DigitValue(b));
    UpperDigitOf(a);
    UpperDigitOf(b);
  }

  /** Six digits, decoded and encoded again, come back upper-cased. */
  lemma CanonicalSix(n: string)
    requires |n| == 6 && AllHexDigits(n)
    ensures RgbToHex(PairValue(n[0], n[1]), PairValue(n[2], n[3]), PairValue(n[4], n[5])) == "#" + Upper(n)
  {
    var r, g, b := PairValue(n[0], n[1]), PairValue(n[2], n[3]), PairValue(n[4], n[5]);
    PairDigits(n[0], n[1]);
    PairDigits(n[2], n[3]);
    PairDigits(n[4], n[5]);
    RgbToHexDigits(r, g, b);
    UpperSix(n);
  }

  lemma UpperHash(h: string)
    requires h != [] && h[0] == '#'
    ensures Upper(h) == "#" + Upper(h[1..])
  {
    assert h == ['#'] + h[1..];
    UpperCons('#', h[1..]);
  }

  /** Six digits after the `#`, decoded and encoded again, come back upper-cased. */
  lemma HexRoundTripLong(h: string)
    requires |h| == 7 && h[0] == '#' && AllHexDigits(h[1..])
    ensures var c := HexToRgb(h); RgbToHex(c.r, c.g, c.b) == "#" + Upper(h[1..])
    ensures var c := HexToRgb(h); RgbToHex(c.r, c.g, c.b) == Upper(h)
  {
    var n := h[1..];
    assert h == "#" + n;
    HexToRgbOfSix(n);
    CanonicalSix(n);
    UpperHash(h);
  }

  /** Three digits after the `#`, decoded and encoded again, come back doubled and upper-cased. */
  lemma HexRoundTripShort(h: string)
    requires |h| == 4 && h[0] == '#' && AllHexDigits(h[1..])
    ensures var c := HexToRgb(h); RgbToHex(c.r, c.g, c.b) == "#" + Upper(Doubled(h[1..]))
  {
    var n := h[1..];
    var d := Doubled(n);
    HexToRgbShorthand(h);
    DoubledThree(n);
    PairsAreDigits(d, n[0], n[1], n[2]);
    HexToRgbOfSix(d);
    CanonicalSix(d);
  }

  /**
   * Any valid colour, decoded and encoded again, comes back in canonical form:
   * the six-digit spelling (shorthand digits doubled), upper-cased.
   */
  lemma HexRoundTrip(h: string)
    requires IsValidHex(h)
    ensures var c := HexToRgb(h);
      RgbToHex(c.r, c.g, c.b) == "#" + Upper(if |h| == 4 then Doubled(h[1..]) else h[1..])
  {
    IsValidHexIff(h);
    if |h| == 4 {
      HexRoundTripShort(h);
    } else {
      HexRoundTripLong(h);
    }
  }

  /** For a six-digit colour the round trip is upper-casing; a canonical colour comes back unchanged. */
  lemma HexRoundTripSix(h: string)
    requires IsValidHex(h) && |h| == 7
    ensures var c := HexToRgb(h); RgbToHex(c.r, c.g, c.b) == Upper(h)
    ensures var c := HexToRgb(h); IsCanonicalHex(h) ==> RgbToHex(c.r, c.g, c.b) == h
  {
    IsValidHexIff(h);
    HexRoundTripLong(h);
    CanonicalIsUpper(h);
  }

  /** A colour in canonical form is its own upper-cased text. */
  lemma CanonicalIsUpper(h: string)
    ensures IsCanonicalHex(h) ==> Upper(h) == h
  {
    if IsCanonicalHex(h) {
      assert NoLowercase(h);
      UpperFacts(h);
    }
  }
}
