/**
 * The JavaScript string built-ins the showcase component relies on:
 * `String.prototype.trim` (and the leading-whitespace skip of `parseInt`),
 * `toUpperCase` / `toLowerCase` and `replace("#", "")`.
 * Strings are sequences of characters; case mapping covers ASCII letters.
 */
module JsText {

  /** WhiteSpace or LineTerminator in the ECMAScript grammar: the characters `trim` removes. */
  predicate IsJsSpace(c: char)
  {
    var n := c as int;
    n == 0x09 || n == 0x0A || n == 0x0B || n == 0x0C || n == 0x0D || n == 0x20 ||
    n == 0xA0 || n == 0x1680 || (0x2000 <= n <= 0x200A) || n == 0x2028 || n == 0x2029 ||
    n == 0x202F || n == 0x205F || n == 0x3000 || n == 0xFEFF
  }

  /** Drops the leading whitespace: what is removed is all whitespace, what is left starts with none. */
  function TrimStart(s: string): (r: string)
    ensures |r| <= |s| && r == s[|s| - |r|..]
    ensures forall i :: 0 <= i < |s| - |r| ==> IsJsSpace(s[i])
    ensures r != [] ==> !IsJsSpace(r[0])
  {
    if s != [] && IsJsSpace(s[0]) then TrimStart(s[1..]) else s
  }

  /** Drops the trailing whitespace: what is removed is all whitespace, what is left ends with none. */
  function TrimEnd(s: string): (r: string)
    ensures |r| <= |s| && r == s[..|r|]
    ensures forall i :: |r| <= i < |s| ==> IsJsSpace(s[i])
    ensures r != [] ==> !IsJsSpace(r[|r| - 1])
  {
    if s != [] && IsJsSpace(s[|s| - 1]) then TrimEnd(s[..|s| - 1]) else s
  }

  /** `String.prototype.trim`. */
  function Trim(s: string): string
  {
    TrimEnd(TrimStart(s))
  }

  /**
   * `trim` returns the contiguous piece of its input that starts after the
   * leading whitespace: only whitespace lies around it, and it has none at its ends.
   */
  lemma TrimIsCore(s: string)
    ensures var k, r := |s| - |TrimStart(s)|, Trim(s);
      k + |r| <= |s| && r == s[k..k + |r|] &&
      (forall i :: 0 <= i < k ==> IsJsSpace(s[i])) &&
      (forall i :: k + |r| <= i < |s| ==> IsJsSpace(s[i])) &&
      (r != [] ==> !IsJsSpace(r[0]) && !IsJsSpace(r[|r| - 1]))
  {
    var t := TrimStart(s);
    PrefixOfSuffix(s, |s| - |t|, t, TrimEnd(t));
  }

  /** A prefix `r` of the suffix `t` of `s` that starts at `k` is the piece of `s` from `k`. */
  lemma PrefixOfSuffix(s: string, k: nat, t: string, r: string)
    requires k <= |s| && t == s[k..] && |r| <= |t| && r == t[..|r|]
    requires forall j :: |r| <= j < |t| ==> IsJsSpace(t[j])
    ensures k + |r| <= |s| && r == s[k..k + |r|]
    ensures forall i :: k + |r| <= i < |s| ==> IsJsSpace(s[i])
  {
    forall i | k + |r| <= i < |s|
      ensures IsJsSpace(s[i])
    {
      assert s[i] == t[i - k];
    }
  }

  /** A string trims to nothing exactly when every character of it is whitespace. */
  lemma TrimEmptyIff(s: string)
    ensures Trim(s) == [] <==> forall i :: 0 <= i < |s| ==> IsJsSpace(s[i])
  {
    TrimIsCore(s);
    var t := TrimStart(s);
    assert t != [] ==> t[0] == s[|s| - |t|];
  }

  predicate IsAsciiLower(c: char) { 'a' <= c <= 'z' }

  predicate IsAsciiUpper(c: char) { 'A' <= c <= 'Z' }

  /** `toUpperCase` on one character. */
  function UpperChar(c: char): char
  {
    if IsAsciiLower(c) then (c as int - 32) as char else c
  }

  /** `toLowerCase` on one character. */
  function LowerChar(c: char): char
  {
    if IsAsciiUpper(c) then (c as int + 32) as char else c
  }

  /** `String.prototype.toUpperCase`: every character mapped on its own. */
  function Upper(s: string): (u: string)
    ensures |u| == |s|
  {
    if s == [] then [] else [UpperChar(s[0])] + Upper(s[1..])
  }

  /** `String.prototype.toLowerCase`: every character mapped on its own. */
  function Lower(s: string): (l: string)
    ensures |l| == |s|
  {
    if s == [] then [] else [LowerChar(s[0])] + Lower(s[1..])
  }

  predicate NoLowercase(s: string)
  {
    forall i :: 0 <= i < |s| ==> !IsAsciiLower(s[i])
  }

  /** Upper-casing maps every character on its own. */
  lemma {:induction false} UpperAt(s: string)
    ensures forall i :: 0 <= i < |s| ==> Upper(s)[i] == UpperChar(s[i])
  {
    if s != [] {
      UpperAt(s[1..]);
    }
  }

  /** Upper-casing leaves no lower-case letter and is idempotent; it leaves a string without one as it is. */
  lemma UpperFacts(s: string)
    ensures NoLowercase(Upper(s)) && Upper(Upper(s)) == Upper(s)
    ensures NoLowercase(s) ==> Upper(s) == s
  {
    UpperAt(s);
    UpperAt(Upper(s));
  }

  lemma {:induction false} UpperAppend(a: string, b: string)
    ensures Upper(a + b) == Upper(a) + Upper(b)
  {
    if a != [] {
      assert (a + b)[1..] == a[1..] + b;
      UpperAppend(a[1..], b);
    } else {
      assert a + b == b;
    }
  }

  /** Lower-casing maps every character on its own. */
  lemma {:induction false} LowerAt(s: string)
    ensures forall i :: 0 <= i < |s| ==> Lower(s)[i] == LowerChar(s[i])
  {
    if s != [] {
      LowerAt(s[1..]);
    }
  }

  /** Two characters are the same letter ignoring case whichever way the case is folded. */
  lemma FoldChar(c: char, d: char)
    ensures LowerChar(c) == LowerChar(d) <==> UpperChar(c) == UpperChar(d)
  {
  }

  /**
   * Names compared after `toLowerCase` are equal exactly when they have the
   * same length and agree character by character up to case, which is the
   * same as comparing them upper-cased.
   */
  lemma LowerEqIff(a: string, b: string)
    ensures Lower(a) == Lower(b) <==>
      |a| == |b| && forall i :: 0 <= i < |a| ==> LowerChar(a[i]) == LowerChar(b[i])
    ensures Lower(a) == Lower(b) <==> Upper(a) == Upper(b)
  {
    LowerAt(a);
    LowerAt(b);
    UpperAt(a);
    UpperAt(b);
    forall i | 0 <= i < |a| && i < |b|
      ensures LowerChar(a[i]) == LowerChar(b[i]) <==> UpperChar(a[i]) == UpperChar(b[i])
    {
      FoldChar(a[i], b[i]);
    }
    if |a| == |b| && Lower(a) != Lower(b) {
      var i :| 0 <= i < |a| && Lower(a)[i] != Lower(b)[i];
      assert Upper(a)[i] != Upper(b)[i];
    }
  }

  /** Upper-casing a name first does not change it once lower-cased. */
  lemma {:induction false} LowerOfUpper(s: string)
    ensures Lower(Upper(s)) == Lower(s)
  {
    if s != [] {
      LowerOfUpper(s[1..]);
      assert Upper(s)[1..] == Upper(s[1..]);
    }
  }

  /** A character that is not a lower-case letter stays in front as it is. */
  lemma UpperCons(c: char, s: string)
    requires !IsAsciiLower(c)
    ensures Upper([c] + s) == [c] + Upper(s)
  {
    assert ([c] + s)[1..] == s;
  }

  /** The position of the first occurrence of `c` in `s`. */
  function FirstIndex(s: string, c: char): (k: nat)
    requires c in s
    ensures k < |s| && s[k] == c && c !in s[..k]
  {
    if s[0] == c then 0 else 1 + FirstIndex(s[1..], c)
  }

  /**
   * `s.replace("#", "")` with a string pattern: only the FIRST occurrence is
   * cut out, wherever it is; putting it back at the same place restores `s`.
   */
  function RemoveFirst(s: string, c: char): (r: string)
    ensures c !in s ==> r == s
    ensures c in s ==> |r| == |s| - 1 && var k := FirstIndex(s, c); c !in r[..k] && s == r[..k] + [c] + r[k..]
  {
    if c in s then
      var k := FirstIndex(s, c);
      var r := s[..k] + s[k + 1..];
      assert r[..k] == s[..k] && r[k..] == s[k + 1..];
      r
    else s
  }
}
