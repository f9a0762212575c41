/**
 * The state of the showcase component: the three theme colours, the list of
 * custom presets and the preset-name box, with the handlers that change them
 * (apply, save and remove a preset, restore from storage), and the colour
 * fields whose hex input edits one of the three colours.
 */
module ShowcaseState {
  import opened JsText
  import opened HexColor
  import opened HexInput
  import opened Presets

  /** Which of the three theme colours a field edits. */
  datatype Slot = Primary | Accent | Deep

  /** The outcome of saving: saved, or refused with the alert the user sees. */
  datatype SaveResult = Saved | Rejected(alert: string)

  const NameMissing: string := "Give your preset a name."
  const ColoursInvalid: string := "Please use valid HEX colors like #9B6BA3 or #ABC."

  /**
   * The checks `savePreset` makes, in order: a name, then three valid
   * colours; a failed check gives its alert.
   */
  function SaveCheck(name: string, primary: string, accent: string, deep: string): (res: SaveResult)
    ensures res == Saved <==> name != [] && IsValidHex(primary) && IsValidHex(accent) && IsValidHex(deep)
    ensures res == Rejected(NameMissing) <==> name == []
    ensures res.Rejected? ==> res == Rejected(NameMissing) || res == Rejected(ColoursInvalid)
  {
    if name == [] then Rejected(NameMissing)
    else if !IsValidHex(primary) || !IsValidHex(accent) || !IsValidHex(deep) then Rejected(ColoursInvalid)
    else Saved
  }

  /**
   * What reading one storage key gave: the text could not be parsed
   * (`JSON.parse` threw), it parsed to something of the wrong shape, or it
   * parsed to a usable value.
   */
  datatype Stored<T> = Unreadable | Unusable | Found(value: T)

  /** The last theme as it was stored. */
  datatype LastTheme = LastTheme(primary: string, accent: string, deep: string)

  /** `last && last.primary && last.accent && last.deep`: every colour present and non-empty. */
  predicate IsCompleteTheme(last: Stored<LastTheme>)
  {
    last.Found? && last.value.primary != [] && last.value.accent != [] && last.value.deep != []
  }

  class Showcase {
    var primary: string
    var accent: string
    var deep: string
    var customPresets: seq<Preset>
    var presetName: string

    /** The initial state: the Mauve colours, no custom presets, an empty name box. */
    constructor ()
      ensures primary == DefaultPrimary && accent == DefaultAccent && deep == DefaultDeep
      ensures customPresets == [] && presetName == []
    {
      primary := DefaultPrimary;
      accent := DefaultAccent;
      deep := DefaultDeep;
      customPresets := [];
      presetName := [];
    }

    function Color(slot: Slot): string
      reads this
    {
      match slot
      case Primary => primary
      case Accent => accent
      case Deep => deep
    }

    /** The presets the sidebar lists: the built-in ones, then the custom ones. */
    function Listed(): seq<Preset>
      reads this
    {
      BuiltInPresets + customPresets
    }

    /** `setPrimary` / `setAccent` / `setDeep`: one colour changes, nothing else. */
    method SetColor(slot: Slot, v: string)
      modifies this`primary, this`accent, this`deep
      ensures Color(slot) == v
      ensures forall s :: s != slot ==> Color(s) == old(Color(s))
    {
      match slot
      case Primary => primary := v;
      case Accent => accent := v;
      case Deep => deep := v;
    }

    /** Typing into the preset-name box. */
    method SetPresetName(v: string)
      modifies this`presetName
      ensures presetName == v
    {
      presetName := v;
    }

    /**
     * `applyPreset`: the preset's primary and accent colours, and its deep
     * colour or the default one when it has none.
     */
    method ApplyPreset(p: Preset)
      modifies this`primary, this`accent, this`deep
      ensures primary == p.primary && accent == p.accent && deep == DeepOrDefault(p)
      ensures p.deep.Some? && p.deep.value != [] ==> deep == p.deep.value
      ensures p.deep.None? || p.deep == Some([]) ==> deep == DefaultDeep
    {
      primary := p.primary;
      accent := p.accent;
      deep := DeepOrDefault(p);
    }

    /**
     * `savePreset`: refused, with nothing changed, when the trimmed name is
     * empty or a colour is not valid; otherwise any custom preset whose name
     * equals the new one ignoring case is replaced by the current colours
     * under the trimmed name, placed last, and the name box is cleared.
     */
    method SavePreset() returns (res: SaveResult)
      modifies this`customPresets, this`presetName
      ensures res == SaveCheck(Trim(old(presetName)), primary, accent, deep)
      ensures res.Rejected? ==> customPresets == old(customPresets) && presetName == old(presetName)
      ensures res.Saved? ==>
        customPresets == SaveInto(old(customPresets), Preset(Trim(old(presetName)), primary, accent, Some(deep))) &&
        presetName == []
    {
      var name := Trim(presetName);
      res := SaveCheck(name, primary, accent, deep);
      if res.Saved? {
        customPresets := SaveInto(customPresets, Preset(name, primary, accent, Some(deep)));
        presetName := [];
      }
    }

    /**
     * `removePreset`: every custom preset with exactly this name goes, the
     * others stay in order; the built-in ones are not in this list and stay listed.
     */
    method RemovePreset(name: string)
      modifies this`customPresets
      ensures customPresets == Drop(old(customPresets), Exactly(name))
      ensures forall p :: p in customPresets ==> p.name != name
      ensures IsSubsequence(customPresets, old(customPresets))
      ensures NamesUnique(old(customPresets)) ==> NamesUnique(customPresets)
      ensures Listed()[..|BuiltInPresets|] == BuiltInPresets
    {
      RemovedListFacts(customPresets, name);
      customPresets := Drop(customPresets, Exactly(name));
    }

    /**
     * The restore on first render: an unreadable preset list stops it there;
     * a list replaces the custom presets; then a complete stored theme
     * replaces the three colours.
     */
    method Load(presets: Stored<seq<Preset>>, last: Stored<LastTheme>)
      modifies this`customPresets, this`primary, this`accent, this`deep
      ensures customPresets == if presets.Found? then presets.value else old(customPresets)
      ensures if !presets.Unreadable? && IsCompleteTheme(last)
        then primary == last.value.primary && accent == last.value.accent && deep == last.value.deep
        else primary == old(primary) && accent == old(accent) && deep == old(deep)
    {
      if presets.Unreadable? {
        return;
      }
      if presets.Found? {
        customPresets := presets.value;
      }
      if IsCompleteTheme(last) {
        primary := last.value.primary;
        accent := last.value.accent;
        deep := last.value.deep;
      }
    }
  }

  /** A colour field: the draft text of its hex input, editing one colour of its owner. */
  class ColorField {
    const owner: Showcase
    const slot: Slot
    var draft: string

    /** The draft starts as the colour it edits. */
    constructor (owner: Showcase, slot: Slot)
      ensures this.owner == owner && this.slot == slot && draft == owner.Color(slot)
    {
      this.owner := owner;
      this.slot := slot;
      draft := owner.Color(slot);
    }

    /**
     * The field mounted afresh, as it is after every render of the page
     * (`useState(value)` starts over), or its own effect after a change of
     * its colour: the draft is the colour again.
     */
    method Remount()
      modifies this`draft
      ensures draft == owner.Color(slot)
    {
      draft := owner.Color(slot);
    }

    /**
     * `onHexInput`: the draft becomes the normalised text; the colour changes
     * to it exactly when it is a valid colour, and otherwise stays as it was.
     */
    method OnHexInput(v: string) returns (changed: bool)
      modifies this`draft, owner`primary, owner`accent, owner`deep
      ensures draft == NormalizeHexInput(v)
      ensures changed <==> IsValidHex(draft)
      ensures owner.Color(slot) == if changed then draft else old(owner.Color(slot))
      ensures forall s :: s != slot ==> owner.Color(s) == old(owner.Color(s))
    {
      var val := NormalizeHexInput(v);
      draft := val;
      changed := IsValidHex(val);
      if changed {
        owner.SetColor(slot, val);
      }
    }

    /** The picker reports a colour: draft and colour both become it, upper-cased. */
    method OnPickerChange(c: string)
      modifies this`draft, owner`primary, owner`accent, owner`deep
      ensures draft == Upper(c) && owner.Color(slot) == Upper(c)
      ensures NoLowercase(draft)
      ensures forall s :: s != slot ==> owner.Color(s) == old(owner.Color(s))
    {
      var v := Upper(c);
      UpperFacts(c);
      draft := v;
      owner.SetColor(slot, v);
    }
  }

  /**
   * The showcase page with its three colour fields. `ColorField` is declared
   * inside the page's render function, so each render makes it a new
   * component: every state change of the page mounts the three fields afresh
   * and their drafts start over from their colours. A state update to the
   * value it already holds does not render the page again; one to a new
   * array (every `filter`) always does.
   */
  class Page {
    const showcase: Showcase
    const primaryField: ColorField
    const accentField: ColorField
    const deepField: ColorField

    function Field(slot: Slot): ColorField
    {
      match slot
      case Primary => primaryField
      case Accent => accentField
      case Deep => deepField
    }

    /** Each field edits its own colour of this page's showcase, and the fields are distinct. */
    predicate Valid()
    {
      (forall slot :: Field(slot).owner == showcase && Field(slot).slot == slot) &&
      primaryField != accentField && primaryField != deepField && accentField != deepField
    }

    /** Every field's draft shows its colour, as after a render. */
    predicate DraftsShowColours()
      reads showcase, primaryField, accentField, deepField
    {
      forall slot :: Field(slot).draft == showcase.Color(slot)
    }

    /** Some colour of the showcase differs from the given ones. */
    predicate ColoursChanged(primary: string, accent: string, deep: string)
      reads showcase
    {
      showcase.primary != primary || showcase.accent != accent || showcase.deep != deep
    }

    /** The first render: the initial showcase state, each field's draft its colour. */
    constructor ()
      ensures Valid() && DraftsShowColours()
      ensures showcase.primary == DefaultPrimary && showcase.accent == DefaultAccent && showcase.deep == DefaultDeep
      ensures showcase.customPresets == [] && showcase.presetName == []
      ensures fresh(showcase) && fresh(primaryField) && fresh(accentField) && fresh(deepField)
    {
      var s := new Showcase();
      showcase := s;
      primaryField := new ColorField(s, Primary);
      accentField := new ColorField(s, Accent);
      deepField := new ColorField(s, Deep);
    }

    /** A render of the page: the three fields are mounted afresh. */
    method Render()
      requires Valid()
      modifies primaryField`draft, accentField`draft, deepField`draft
      ensures DraftsShowColours()
    {
      primaryField.Remount();
      accentField.Remount();
      deepField.Remount();
    }

    /** Typing into the preset-name box renders the page when the name changes. */
    method SetPresetName(v: string) returns (rendered: bool)
      requires Valid()
      modifies showcase`presetName, primaryField`draft, accentField`draft, deepField`draft
      ensures showcase.presetName == v
      ensures rendered <==> v != old(showcase.presetName)
      ensures rendered ==> DraftsShowColours()
      ensures !rendered ==> forall slot :: Field(slot).draft == old(Field(slot).draft)
    {
      rendered := v != showcase.presetName;
      showcase.SetPresetName(v);
      if rendered {
        Render();
      }
    }

    /** Applying a preset renders the page when a colour changes. */
    method ApplyPreset(p: Preset) returns (rendered: bool)
      requires Valid()
      modifies showcase`primary, showcase`accent, showcase`deep
      modifies primaryField`draft, accentField`draft, deepField`draft
      ensures showcase.primary == p.primary && showcase.accent == p.accent && showcase.deep == DeepOrDefault(p)
      ensures rendered <==> ColoursChanged(old(showcase.primary), old(showcase.accent), old(showcase.deep))
      ensures rendered ==> DraftsShowColours()
      ensures !rendered ==> forall slot :: Field(slot).draft == old(Field(slot).draft)
    {
      var before := (showcase.primary, showcase.accent, showcase.deep);
      showcase.ApplyPreset(p);
      rendered := ColoursChanged(before.0, before.1, before.2);
      if rendered {
        Render();
      }
    }

    /** A refused save changes no state and does not render; a saved one always renders. */
    method SavePreset() returns (res: SaveResult)
      requires Valid()
      modifies showcase`customPresets, showcase`presetName
      modifies primaryField`draft, accentField`draft, deepField`draft
      ensures res == SaveCheck(Trim(old(showcase.presetName)), showcase.primary, showcase.accent, showcase.deep)
      ensures res.Rejected? ==>
        showcase.customPresets == old(showcase.customPresets) && showcase.presetName == old(showcase.presetName) &&
        forall slot :: Field(slot).draft == old(Field(slot).draft)
      ensures res.Saved? ==>
        showcase.customPresets == SaveInto(old(showcase.customPresets),
          Preset(Trim(old(showcase.presetName)), showcase.primary, showcase.accent, Some(showcase.deep))) &&
        showcase.presetName == [] && DraftsShowColours()
    {
      res := showcase.SavePreset();
      if res.Saved? {
        Render();
      }
    }

    /** Removing always renders: `filter` gives a new list even when nothing is removed. */
    method RemovePreset(name: string)
      requires Valid()
      modifies showcase`customPresets, primaryField`draft, accentField`draft, deepField`draft
      ensures showcase.customPresets == Drop(old(showcase.customPresets), Exactly(name))
      ensures DraftsShowColours()
    {
      showcase.RemovePreset(name);
      Render();
    }

    /** The restore renders when it sets a list or changes a colour. */
    method Load(presets: Stored<seq<Preset>>, last: Stored<LastTheme>) returns (rendered: bool)
      requires Valid()
      modifies showcase`customPresets, showcase`primary, showcase`accent, showcase`deep
      modifies primaryField`draft, accentField`draft, deepField`draft
      ensures showcase.customPresets == if presets.Found? then presets.value else old(showcase.customPresets)
      ensures if !presets.Unreadable? && IsCompleteTheme(last)
        then showcase.primary == last.value.primary && showcase.accent == last.value.accent && showcase.deep == last.value.deep
        else showcase.primary == old(showcase.primary) && showcase.accent == old(showcase.accent) && showcase.deep == old(showcase.deep)
      ensures rendered <==> presets.Found? || ColoursChanged(old(showcase.primary), old(showcase.accent), old(showcase.deep))
      ensures rendered ==> DraftsShowColours()
      ensures !rendered ==> forall slot :: Field(slot).draft == old(Field(slot).draft)
    {
      var before := (showcase.primary, showcase.accent, showcase.deep);
      showcase.Load(presets, last);
      rendered := presets.Found? || ColoursChanged(before.0, before.1, before.2);
      if rendered {
        Render();
      }
    }

    /**
     * Typing into a field's hex input: its draft is the normalised text and
     * its colour changes exactly when that text is valid. The page renders
     * when the colour changes, and every draft then shows its colour; else
     * the other drafts are kept.
     */
    method OnHexInput(slot: Slot, v: string) returns (rendered: bool)
      requires Valid()
      modifies showcase`primary, showcase`accent, showcase`deep
      modifies primaryField`draft, accentField`draft, deepField`draft
      ensures Field(slot).draft == NormalizeHexInput(v)
      ensures showcase.Color(slot) == if IsValidHex(NormalizeHexInput(v)) then NormalizeHexInput(v) else old(showcase.Color(slot))
      ensures forall s :: s != slot ==> showcase.Color(s) == old(showcase.Color(s))
      ensures rendered <==> showcase.Color(slot) != old(showcase.Color(slot))
      ensures rendered ==> DraftsShowColours()
      ensures !rendered ==> forall s :: s != slot ==> Field(s).draft == old(Field(s).draft)
    {
      var before := showcase.Color(slot);
      var field := Field(slot);
      var changed := field.OnHexInput(v);
      rendered := showcase.Color(slot) != before;
      if rendered {
        Render();
      }
    }

    /** The picker of a field reports a colour; the page renders when the colour changes. */
    method OnPickerChange(slot: Slot, c: string) returns (rendered: bool)
      requires Valid()
      modifies showcase`primary, showcase`accent, showcase`deep
      modifies primaryField`draft, accentField`draft, deepField`draft
      ensures Field(slot).draft == Upper(c) && showcase.Color(slot) == Upper(c)
      ensures forall s :: s != slot ==> showcase.Color(s) == old(showcase.Color(s))
      ensures rendered <==> Upper(c) != old(showcase.Color(slot))
      ensures rendered ==> DraftsShowColours()
      ensures !rendered ==> forall s :: s != slot ==> Field(s).draft == old(Field(s).draft)
    {
      var before := showcase.Color(slot);
      var field := Field(slot);
      field.OnPickerChange(c);
      rendered := Upper(c) != before;
      if rendered {
        Render();
      }
    }
  }

  /**
   * A draft that does not parse is lost at the next render: typing `#12` into
   * the primary field keeps the colour and shows `#12`, and a change of the
   * preset name then renders the page, which shows the colour again.
   */
  method InvalidDraftResetByRender() returns (typed: string, after: string)
    ensures typed == "#12" && after == DefaultPrimary
  {
    var page := new Page();
    var rendered := page.OnHexInput(Primary, "#12");
    assert Upper("12") == "12";
    assert !IsValidHex("#12");
    typed := page.primaryField.draft;
    rendered := page.SetPresetName("x");
    after := page.primaryField.draft;
  }
}
