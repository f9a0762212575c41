/**
 * Colour presets of the showcase: the record a preset is, the four built-in
 * ones, and the filtering by name that saving (case-insensitively) and
 * removing (exactly) perform on the list of custom presets.
 */
module Presets {
  import opened JsText
  import opened HexColor

  datatype Option<T> = None | Some(value: T)

  /**
   * A preset. `deep` is optional: a preset read back from storage may lack
   * it, and applying a preset falls back to the default deep colour then.
   */
  datatype Preset = Preset(name: string, primary: string, accent: string, deep: Option<string>)

  const DefaultPrimary: string := "#9B6BA3"
  const DefaultAccent: string := "#C27AA3"
  const DefaultDeep: string := "#3B164B"

  /** `p.deep || "#3B164B"`: a missing or empty deep colour gives way to the default. */
  function DeepOrDefault(p: Preset): (d: string)
    ensures d != []
    ensures d == DefaultDeep || p.deep == Some(d)
    ensures p.deep.Some? && p.deep.value != [] <==> p.deep == Some(d)
  {
    match p.deep
    case Some(d) => if d != [] then d else DefaultDeep
    case None => DefaultDeep
  }

  const BuiltInPresets: seq<Preset> := [
    Preset("Mauve", "#9B6BA3", "#C27AA3", Some("#3B164B")),
    Preset("Lilac", "#A679E8", "#EFE7FA", Some("#3B164B")),
    Preset("Grape", "#6E2E7A", "#A679E8", Some("#3B164B")),
    Preset("Rose", "#B86B82", "#F6DCE6", Some("#3B164B"))
  ]

  /** All three colours of a preset are present and valid. */
  predicate HasValidColours(p: Preset)
  {
    IsValidHex(p.primary) && IsValidHex(p.accent) && p.deep.Some? && IsValidHex(p.deep.value)
  }

  /** How a filter compares a preset's name: exactly, or after lower-casing both sides. */
  datatype NameMatch = Exactly(name: string) | IgnoringCase(name: string)

  predicate Matches(m: NameMatch, p: Preset)
  {
    match m
    case Exactly(n) => p.name == n
    case IgnoringCase(n) => Lower(p.name) == Lower(n)
  }

  /** `ps.filter((x) => !matches(x))`: the presets that do not match, in their order. */
  function Drop(ps: seq<Preset>, m: NameMatch): (r: seq<Preset>)
    ensures |r| <= |ps|
    ensures forall p :: p in r <==> p in ps && !Matches(m, p)
  {
    if ps == [] then []
    else if Matches(m, ps[0]) then Drop(ps[1..], m)
    else [ps[0]] + Drop(ps[1..], m)
  }

  /** How many presets match. */
  function CountMatching(ps: seq<Preset>, m: NameMatch): (n: nat)
    ensures n <= |ps|
  {
    if ps == [] then 0
    else (if Matches(m, ps[0]) then 1 else 0) + CountMatching(ps[1..], m)
  }

  /** `a` is `b` with some elements left out and the rest in the same order. */
  predicate IsSubsequence(a: seq<Preset>, b: seq<Preset>)
  {
    if a == [] then true
    else if b == [] then false
    else if a[0] == b[0] then IsSubsequence(a[1..], b[1..])
    else IsSubsequence(a, b[1..])
  }

  /** No two presets have names that are equal once lower-cased. */
  predicate NamesUnique(ps: seq<Preset>)
  {
    forall p :: p in ps ==> CountMatching(ps, IgnoringCase(p.name)) == 1
  }

  lemma {:induction false} CountAppend(a: seq<Preset>, b: seq<Preset>, m: NameMatch)
    ensures CountMatching(a + b, m) == CountMatching(a, m) + CountMatching(b, m)
  {
    if a == [] {
      assert a + b == b;
    } else {
      assert (a + b)[1..] == a[1..] + b;
      CountAppend(a[1..], b, m);
    }
  }

  /** Nothing matches exactly when the count is zero. */
  lemma {:induction false} CountZeroIff(ps: seq<Preset>, m: NameMatch)
    ensures CountMatching(ps, m) == 0 <==> forall p :: p in ps ==> !Matches(m, p)
  {
    if ps != [] {
      CountZeroIff(ps[1..], m);
      assert forall p :: p in ps ==> p == ps[0] || p in ps[1..];
    }
  }

  /**
   * Filtering keeps the presets that do not match, in their order, drops
   * every one that does, and leaves a list with nothing to drop unchanged.
   */
  lemma {:induction false} DropIsOrderedFilter(ps: seq<Preset>, m: NameMatch)
    ensures IsSubsequence(Drop(ps, m), ps)
    ensures |Drop(ps, m)| == |ps| - CountMatching(ps, m)
    ensures CountMatching(Drop(ps, m), m) == 0
    ensures CountMatching(ps, m) == 0 ==> Drop(ps, m) == ps
  {
    if ps != [] {
      DropIsOrderedFilter(ps[1..], m);
      var r := Drop(ps[1..], m);
      if !Matches(m, ps[0]) {
        assert ([ps[0]] + r)[1..] == r;
      } else {
        SubsequenceSkip(r, ps);
      }
    }
  }

  /** A subsequence of the tail is a subsequence of the whole. */
  lemma {:induction false} SubsequenceSkip(a: seq<Preset>, b: seq<Preset>)
    requires b != [] && IsSubsequence(a, b[1..])
    ensures IsSubsequence(a, b)
    decreases |b|, 0
  {
    if a != [] && a[0] == b[0] {
      SubsequenceTail(a, b[1..]);
    }
  }

  /** Dropping the first element keeps a subsequence a subsequence. */
  lemma {:induction false} SubsequenceTail(a: seq<Preset>, b: seq<Preset>)
    requires a != [] && IsSubsequence(a, b)
    ensures IsSubsequence(a[1..], b)
    decreases |b|, 1
  {
    if a[1..] != [] {
      if a[0] != b[0] {
        SubsequenceTail(a, b[1..]);
      }
      SubsequenceSkip(a[1..], b);
    }
  }

  /** Filtering never raises how many presets match any name. */
  lemma {:induction false} DropCountLe(ps: seq<Preset>, m: NameMatch, m': NameMatch)
    ensures CountMatching(Drop(ps, m), m') <= CountMatching(ps, m')
  {
    if ps != [] {
      DropCountLe(ps[1..], m, m');
      if !Matches(m, ps[0]) {
        assert ([ps[0]] + Drop(ps[1..], m))[1..] == Drop(ps[1..], m);
      }
    }
  }

  lemma {:induction false} CountPositive(ps: seq<Preset>, m: NameMatch, p: Preset)
    requires p in ps && Matches(m, p)
    ensures CountMatching(ps, m) >= 1
  {
    CountZeroIff(ps, m);
  }

  /** Filtering a list whose names are unique leaves them unique. */
  lemma DropKeepsUnique(ps: seq<Preset>, m: NameMatch)
    requires NamesUnique(ps)
    ensures NamesUnique(Drop(ps, m))
  {
    var r := Drop(ps, m);
    forall p | p in r
      ensures CountMatching(r, IgnoringCase(p.name)) == 1
    {
      DropCountLe(ps, m, IgnoringCase(p.name));
      CountPositive(r, IgnoringCase(p.name), p);
    }
  }

  /**
   * The list `savePreset` builds: the previous presets without any whose name
   * equals the new name ignoring case, then the new preset.
   */
  function SaveInto(ps: seq<Preset>, next: Preset): seq<Preset>
  {
    Drop(ps, IgnoringCase(next.name)) + [next]
  }

  /**
   * After saving, the new name matches exactly one preset ignoring case, the
   * new one, which is last; the others are the previous ones in their order;
   * and if the previous names were unique ignoring case, so are the new ones.
   */
  lemma SavedListFacts(ps: seq<Preset>, next: Preset)
    ensures var saved := SaveInto(ps, next);
      CountMatching(saved, IgnoringCase(next.name)) == 1 &&
      saved[|saved| - 1] == next &&
      IsSubsequence(saved[..|saved| - 1], ps) &&
      (NamesUnique(ps) ==> NamesUnique(saved))
  {
    var m := IgnoringCase(next.name);
    var d := Drop(ps, m);
    var saved := d + [next];
    DropIsOrderedFilter(ps, m);
    CountAppend(d, [next], m);
    assert CountMatching([next], m) == 1;
    assert saved[..|saved| - 1] == d;
    if NamesUnique(ps) {
      DropKeepsUnique(ps, m);
      forall p | p in saved
        ensures CountMatching(saved, IgnoringCase(p.name)) == 1
      {
        CountAppend(d, [next], IgnoringCase(p.name));
        if p != next || p in d {
          if p in d {
            assert !Matches(m, p);
            assert CountMatching([next], IgnoringCase(p.name)) == 0;
          }
        }
      }
    }
  }

  /** After an exact-name removal no preset carries that name, and the others stay in order. */
  lemma RemovedListFacts(ps: seq<Preset>, name: string)
    ensures var kept := Drop(ps, Exactly(name));
      (forall p :: p in kept ==> p.name != name) &&
      IsSubsequence(kept, ps) &&
      |kept| == |ps| - CountMatching(ps, Exactly(name)) &&
      (NamesUnique(ps) ==> NamesUnique(kept))
  {
    DropIsOrderedFilter(ps, Exactly(name));
    if NamesUnique(ps) {
      DropKeepsUnique(ps, Exactly(name));
    }
  }

  lemma DefaultDeepValid()
    ensures IsValidHex(DefaultDeep)
  {
  }

  lemma MauveColoursValid()
    ensures IsValidHex("#9B6BA3") && IsValidHex("#C27AA3")
  {
  }

  lemma LilacColoursValid()
    ensures IsValidHex("#A679E8") && IsValidHex("#EFE7FA")
  {
  }

  lemma GrapeColoursValid()
    ensures IsValidHex("#6E2E7A") && IsValidHex("#A679E8")
  {
  }

  lemma RoseColoursValid()
    ensures IsValidHex("#B86B82") && IsValidHex("#F6DCE6")
  {
  }

  /** The built-in presets have valid colours. */
  lemma BuiltInColoursValid()
    ensures HasValidColours(BuiltInPresets[0]) && HasValidColours(BuiltInPresets[1])
    ensures HasValidColours(BuiltInPresets[2]) && HasValidColours(BuiltInPresets[3])
  {
    DefaultDeepValid();
    MauveColoursValid();
    LilacColoursValid();
    GrapeColoursValid();
    RoseColoursValid();
  }

  lemma BuiltInLowerNames()
    ensures Lower("Mauve") == "mauve" && Lower("Lilac") == "lilac"
    ensures Lower("Grape") == "grape" && Lower("Rose") == "rose"
  {
  }

  lemma CountFour(ps: seq<Preset>, m: NameMatch)
    requires |ps| == 4
    ensures CountMatching(ps, m) ==
      (if Matches(m, ps[0]) then 1 else 0) + (if Matches(m, ps[1]) then 1 else 0) +
      (if Matches(m, ps[2]) then 1 else 0) + (if Matches(m, ps[3]) then 1 else 0)
  {
    assert ps[3..][1..] == [];
    assert ps[2..][1..] == ps[3..];
    assert ps[1..][1..] == ps[2..];
    assert CountMatching(ps[3..], m) == if Matches(m, ps[3]) then 1 else 0;
    assert CountMatching(ps[2..], m) == (if Matches(m, ps[2]) then 1 else 0) + CountMatching(ps[3..], m);
    assert CountMatching(ps[1..], m) == (if Matches(m, ps[1]) then 1 else 0) + CountMatching(ps[2..], m);
  }

  lemma BuiltInNameCount(i: nat)
    requires i < |BuiltInPresets|
    ensures CountMatching(BuiltInPresets, IgnoringCase(BuiltInPresets[i].name)) == 1
  {
    var m := IgnoringCase(BuiltInPresets[i].name);
    CountFour(BuiltInPresets, m);
    BuiltInLowerNames();
  }

  /** The built-in names are unique ignoring case. */
  lemma BuiltInNamesUnique()
    ensures NamesUnique(BuiltInPresets)
  {
    forall p | p in BuiltInPresets
      ensures CountMatching(BuiltInPresets, IgnoringCase(p.name)) == 1
    {
      var i :| 0 <= i < |BuiltInPresets| && BuiltInPresets[i] == p;
      BuiltInNameCount(i);
    }
  }
}
