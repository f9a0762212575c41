# Blossm purple showcase: colour codec, hex input and presets

This project models the logic of the interactive theme showcase in
`app/components/BlossmPurpleShowcase.jsx`. The showcase is a React page
where three theme colours (primary, accent, deep) are edited and saved as
named presets. Five parts are modelled:

- **`JsText`** (`js_text.dfy`): the JavaScript string built-ins that the
  component depends on. These are `trim`, the leading-whitespace skip of
  `parseInt`, ASCII `toUpperCase` and `toLowerCase`, and
  `replace("#", "")`. That call removes only the first `#`.
- **`HexColor`** (`hex_color.dfy`): the colour codec.
  - `isValidHex` is the regular expression `^#([A-Fa-f0-9]{6}|[A-Fa-f0-9]{3})$`.
  - `hexToRgb` is modelled on every string, as the code runs it. It
    removes the first `#` and doubles a three-character remainder. It then
    applies `parseInt(…, 16)`: skip leading whitespace, read an optional
    sign, skip an optional `0x`, then read the longest run of digits. A
    string with no digits gives `NaN`. The result then goes through
    ECMAScript ToInt32 and the `>>` / `& 255` byte split.
  - `rgbToHex` applies `toString(16)`, `padStart(2, "0")` and upper-casing.
- **`HexInput`** (`hex_input.dfy`): the normalisation that a colour field's
  `onHexInput` applies to what is typed.
- **`Presets`** (`presets.dfy`) covers presets as data:
  - the built-in presets;
  - the `p.deep || "#3B164B"` fallback;
  - the filters that saving uses (names compared ignoring case) and that
    removing uses (names compared exactly);
  - name uniqueness.
- **`ShowcaseState`** (`showcase.dfy`): the component state.
  - The class `Showcase` holds the fields `primary`, `accent`, `deep`,
    `customPresets` and `presetName`.
  - Its methods are the handlers `applyPreset`, `savePreset` and
    `removePreset`, the restore from storage, and the colour setters.
  - An `alert` becomes a `Rejected` result that carries the alert's text,
    and the state is left unchanged.
  - The class `ColorField` holds a field's draft text. It is bound to one
    colour slot of its owner and has the `onHexInput` and picker handlers.
  - The class `Page` puts the showcase and its three colour fields
    together. `ColorField` is declared inside the page's render function,
    so each render of the page makes it a new component type. Every
    handler of `Page` therefore says when the page renders again, and
    then every field's draft starts over from its colour. A state update
    to the value it already holds does not render again; an update to a
    new array (every `filter`) always does.

The model follows the code, including where it does less than a reader
might expect:

- **`hexToRgb` never fails.** Every string gives three bytes:
  `HexColor.HexToRgb` is total, and its ensures says all three channels
  are bytes. A string without digits gives black. A minus sign after the `#`
  followed by a run of digits, unless there are exactly two, gives the bytes of
  the negative number's 32-bit two's-complement pattern. With exactly two
  characters after the sign, the remainder is three characters long and is
  doubled to `--dd…`: `parseInt` reads one sign, finds no digit, gives `NaN`,
  and the colour is black (`#-12` gives (0, 0, 0), not the bytes of -0x12).
- **`rgbToHex` does not clamp.** Out-of-range channels are modelled as the
  code writes them: a `-` sign, or more than two digits. Every property
  is claimed only for bytes.
- **A stored preset may lack `deep`.** The code applies
  `p.deep || "#3B164B"`, so a preset read back from storage without a
  deep colour (or with an empty one) falls back to the default.
  `Preset.deep` is therefore an `Option`.

## Model

All source paths are in `app/components/BlossmPurpleShowcase.jsx`.

| member | source | states |
|---|---|---|
| HexColor.IsValidHex | app/components/BlossmPurpleShowcase.jsx:65 | `isValidHex`: the anchored regular expression for `#` and then six or three digits `[A-Fa-f0-9]`, read character by character; its meaning is stated by `IsValidHexIff`, `IsValidHexAccepts` and `IsValidHexRejects` |
| HexColor.IsValidHexIff | app/components/BlossmPurpleShowcase.jsx:65 | a string is a valid colour exactly when it is `#` followed by 3 or 6 hexadecimal digits, in either case |
| HexColor.IsValidHexAccepts | app/components/BlossmPurpleShowcase.jsx:65 | `#9B6BA3`, `#ABC` and `#abc` are accepted |
| HexColor.IsValidHexRejects | app/components/BlossmPurpleShowcase.jsx:65 | a colour without `#`, one with five digits, and one with a trailing space are refused |
| HexColor.ParseHex | app/components/BlossmPurpleShowcase.jsx:9 | `parseInt(s, 16)`: skip leading whitespace and read the rest with `ParseSigned`; its cases are stated by the `ParseHex…` lemmas below |
| HexColor.ParseSigned | app/components/BlossmPurpleShowcase.jsx:9 | `parseInt`'s sign step: a minus sign negates what follows, a plus sign is skipped (`ParseHexNegative`, `ParseHexPlus`) |
| HexColor.ParseUnsigned | app/components/BlossmPurpleShowcase.jsx:9 | `parseInt`'s digits for radix 16: an optional `0x`/`0X`, then the longest run of digits, `NaN` when there is none (`ParseHexPrefixed`, `ParseHexNoDigits`, `ParseHexBarePrefix`) |
| HexColor.ParseHexDigits | app/components/BlossmPurpleShowcase.jsx:9 | `parseInt(s, 16)` of a non-empty run of hexadecimal digits is the number those digits denote |
| HexColor.ParseHexNegative | app/components/BlossmPurpleShowcase.jsx:9 | `parseInt` reads a minus sign in front of digits as negation |
| HexColor.ParseHexPlus | app/components/BlossmPurpleShowcase.jsx:9 | `parseInt` skips a plus sign in front of digits |
| HexColor.ParseHexLeadingSpace | app/components/BlossmPurpleShowcase.jsx:9 | `parseInt` skips leading whitespace in front of digits |
| HexColor.ParseHexPrefixed | app/components/BlossmPurpleShowcase.jsx:9 | `parseInt(…, 16)` skips a `0x` or `0X` prefix in front of digits |
| HexColor.ParseHexNoDigits | app/components/BlossmPurpleShowcase.jsx:9 | `parseInt` gives `NaN` for an empty text, or for one that starts with neither whitespace, a sign nor a digit |
| HexColor.ParseHexBarePrefix | app/components/BlossmPurpleShowcase.jsx:9 | a bare `0x` has no digits after the prefix, and gives `NaN` |
| HexColor.TakeHexDigits | app/components/BlossmPurpleShowcase.jsx:9 | `parseInt` reads the longest prefix of hexadecimal digits: it is a prefix, all digits, and the next character is not one |
| HexColor.ToInt32 | app/components/BlossmPurpleShowcase.jsx:10-12 | the 32-bit conversion of the bitwise operators gives a signed 32-bit value congruent to its input modulo 2^32 |
| HexColor.HexToRgb | app/components/BlossmPurpleShowcase.jsx:7-14 | every string, valid or not, decodes to three channels in 0..255 |
| HexColor.HexToRgbNoDigits | app/components/BlossmPurpleShowcase.jsx:7-14 | the empty string and a lone `#` decode to (0, 0, 0): `NaN` reads as 0 under the bitwise operators |
| HexColor.HexToRgbNegative | app/components/BlossmPurpleShowcase.jsx:7-14 | a minus sign after the `#`, followed by a run of digits whose length is not two, is read by `parseInt` as a negative number, whose bytes come from its 32-bit conversion |
| HexColor.Unpack | app/components/BlossmPurpleShowcase.jsx:10-12 | the shifts and masks give three channels, each in 0..255; `UnpackBytes` states that they recover packed bytes |
| HexColor.HexToRgbSignedShorthand | app/components/BlossmPurpleShowcase.jsx:7-14 | a sign after the `#` followed by exactly two characters leaves three characters, doubled to two signs in front: `parseInt` finds no number and the colour is (0, 0, 0) |
| HexColor.UnpackBytes | app/components/BlossmPurpleShowcase.jsx:10-12 | the shifts and masks recover three bytes packed as `r*65536 + g*256 + b` |
| HexColor.HexToRgbOfSix | app/components/BlossmPurpleShowcase.jsx:7-14 | `#` and six digits decode to the three two-digit pairs, read in base 16 |
| HexColor.HexToRgbShorthand | app/components/BlossmPurpleShowcase.jsx:8-9 | `#RGB` decodes as `#RRGGBB`, so each channel is 17 times its digit |
| HexColor.Doubled | app/components/BlossmPurpleShowcase.jsx:9 | every character written twice, so the result is twice as long; `DoubledThree` gives the three-character case |
| HexColor.DoubledThree | app/components/BlossmPurpleShowcase.jsx:9 | the split/map/join writes each of three characters twice |
| HexColor.HexToRgbExample | app/components/BlossmPurpleShowcase.jsx:7-14 | `#9B6BA3` decodes to (155, 107, 163) |
| HexColor.ToHexString | app/components/BlossmPurpleShowcase.jsx:16 | `toString(16)` on an integer: a minus sign for a negative one, then the digits of `Magnitude` |
| HexColor.PadStart | app/components/BlossmPurpleShowcase.jsx:16 | `padStart(2, "0")`: the result has the requested length, and a text already that long is returned as it is; `PadStartContent` states the fill in front and the text as the tail |
| HexColor.PadStartContent | app/components/BlossmPurpleShowcase.jsx:16 | padding puts only copies of the fill character in front, and the text is the tail of the result |
| HexColor.RgbToHex | app/components/BlossmPurpleShowcase.jsx:15-17 | `rgbToHex`: `#` and each channel padded to two digits, upper-cased; its properties are stated by `RgbToHexDigits`, `RgbToHexForm` and the round trips |
| HexColor.Magnitude | app/components/BlossmPurpleShowcase.jsx:16 | `toString(16)` of a non-negative integer is a non-empty digit string that denotes it, with no leading zero |
| HexColor.RgbToHexDigits | app/components/BlossmPurpleShowcase.jsx:15-17 | for bytes, the output is `#` and, per channel, the upper-case digits of its high and low nibble |
| HexColor.RgbToHexForm | app/components/BlossmPurpleShowcase.jsx:15-17 | for bytes, the output is `#` and six upper-case digits (so a valid colour), and its pairs denote r, g and b |
| HexColor.RgbToHexExample | app/components/BlossmPurpleShowcase.jsx:15-17 | (155, 107, 163) encodes to `#9B6BA3` |
| HexColor.RgbRoundTrip | app/components/BlossmPurpleShowcase.jsx:7-17 | encoding three bytes and decoding the result gives the same bytes |
| HexColor.HexRoundTrip | app/components/BlossmPurpleShowcase.jsx:7-17 | decoding a valid colour and encoding it again gives `#` and its digits upper-cased, with shorthand digits doubled |
| HexColor.HexRoundTripSix | app/components/BlossmPurpleShowcase.jsx:7-17 | for a six-digit colour the round trip is upper-casing, and a canonical colour comes back unchanged |
| HexColor.HexValueUpper | app/components/BlossmPurpleShowcase.jsx:9 | upper-casing digits does not change the number they denote |
| JsText.RemoveFirst | app/components/BlossmPurpleShowcase.jsx:8 | `replace("#", "")` cuts out the first `#` only: the length drops by one, no `#` comes before the cut, and putting it back restores the input; without a `#` the input is unchanged |
| JsText.Trim | app/components/BlossmPurpleShowcase.jsx:220 | `trim`: leading then trailing whitespace removed; stated by `TrimIsCore` and `TrimEmptyIff` |
| JsText.TrimIsCore | app/components/BlossmPurpleShowcase.jsx:220 | `trim` gives the contiguous piece between leading and trailing whitespace, and that piece has no whitespace at its ends |
| JsText.TrimEmptyIff | app/components/BlossmPurpleShowcase.jsx:220-221 | a name trims to nothing exactly when it is all whitespace |
| JsText.Upper | app/components/BlossmPurpleShowcase.jsx:156 | `toUpperCase` (also used by `rgbToHex` at line 16), character by character, keeping the length; stated by `UpperFacts` and `UpperAppend` |
| JsText.Lower | app/components/BlossmPurpleShowcase.jsx:227 | `toLowerCase`, character by character, keeping the length; used by the name comparison that ignores case, whose meaning `LowerEqIff` states |
| JsText.LowerAt | app/components/BlossmPurpleShowcase.jsx:227 | lower-casing maps every character on its own |
| JsText.LowerEqIff | app/components/BlossmPurpleShowcase.jsx:227 | two names are equal after `toLowerCase` exactly when they have the same length and agree character by character up to case, which is the same as being equal upper-cased |
| JsText.LowerOfUpper | app/components/BlossmPurpleShowcase.jsx:227 | upper-casing a name first does not change it once lower-cased |
| JsText.UpperFacts | app/components/BlossmPurpleShowcase.jsx:156 | `toUpperCase` leaves no lower-case letter, is idempotent, and leaves a string without lower-case letters as it is |
| JsText.UpperAppend | app/components/BlossmPurpleShowcase.jsx:16 | upper-casing a concatenation upper-cases each part |
| HexInput.StartsWithHash | app/components/BlossmPurpleShowcase.jsx:155 | `v.startsWith("#")` |
| HexInput.Unprefixed | app/components/BlossmPurpleShowcase.jsx:155-156 | the typed text without the one `#` it may start with: the input is that text, with a `#` in front exactly when it starts with one |
| HexInput.NormalizeHexInput | app/components/BlossmPurpleShowcase.jsx:154-156 | the draft is `#` plus the typed text without its leading `#`, upper-cased: one `#` is added exactly when the text lacks one, and no lower-case letter remains |
| HexInput.NormalizeIdempotent | app/components/BlossmPurpleShowcase.jsx:154-156 | normalising a draft again leaves it unchanged |
| HexInput.NormalizeValidIff | app/components/BlossmPurpleShowcase.jsx:154-158 | the draft is a valid colour exactly when the typed text, without its leading `#`, is 3 or 6 hexadecimal digits in either case |
| HexInput.NormalizeValid | app/components/BlossmPurpleShowcase.jsx:154-158 | a valid colour typed in stays valid and is only upper-cased; a canonical one is kept as it is |
| Presets.DeepOrDefault | app/components/BlossmPurpleShowcase.jsx:217 | the deep colour applied is the preset's own when it is present and non-empty, otherwise `#3B164B` |
| Presets.Matches | app/components/BlossmPurpleShowcase.jsx:227 | how the filters compare names: exactly for removal (line 232), after lower-casing both names for saving |
| Presets.Drop | app/components/BlossmPurpleShowcase.jsx:227 | a filter keeps exactly the presets that do not match |
| Presets.DropIsOrderedFilter | app/components/BlossmPurpleShowcase.jsx:227 | the filter keeps order (a subsequence), removes exactly the matching ones, leaves none, and changes nothing when none match |
| Presets.SaveInto | app/components/BlossmPurpleShowcase.jsx:226-229 | the list a save builds: the old presets without any whose name matches ignoring case, then the new preset; stated by `SavedListFacts` |
| Presets.SavedListFacts | app/components/BlossmPurpleShowcase.jsx:225-229 | after saving, exactly one preset matches the new name ignoring case, and it is the new one, placed last; the rest are the old presets in order; uniqueness of names ignoring case is preserved |
| Presets.RemovedListFacts | app/components/BlossmPurpleShowcase.jsx:232 | after removal no preset has that exact name, the others keep their order, the count drops by the number removed, and uniqueness is preserved |
| Presets.DropKeepsUnique | app/components/BlossmPurpleShowcase.jsx:227 | filtering a list whose names are unique ignoring case keeps them unique |
| Presets.BuiltInColoursValid | app/components/BlossmPurpleShowcase.jsx:69-74 | every built-in preset has three valid colours |
| Presets.BuiltInNamesUnique | app/components/BlossmPurpleShowcase.jsx:69-74 | the built-in names are distinct ignoring case |
| Presets.DefaultDeepValid | app/components/BlossmPurpleShowcase.jsx:217 | the fallback deep colour is valid |
| ShowcaseState.SaveCheck | app/components/BlossmPurpleShowcase.jsx:220-224 | a save goes ahead exactly when the trimmed name is non-empty and all three colours are valid; an empty name gives the name alert, otherwise an invalid colour gives the colour alert |
| ShowcaseState.IsCompleteTheme | app/components/BlossmPurpleShowcase.jsx:91 | `last && last.primary && last.accent && last.deep`: a stored theme was found and its three colours are non-empty; `Showcase.Load` restores the colours exactly then |
| ShowcaseState.Showcase.constructor | app/components/BlossmPurpleShowcase.jsx:76-83 | the initial colours are the Mauve ones, with no custom presets and an empty name box |
| ShowcaseState.Showcase.SetColor | app/components/BlossmPurpleShowcase.jsx:321-323 | setting one colour changes that one and no other |
| ShowcaseState.Showcase.SetPresetName | app/components/BlossmPurpleShowcase.jsx:330 | typing into the name box sets the name |
| ShowcaseState.Showcase.ApplyPreset | app/components/BlossmPurpleShowcase.jsx:216-218 | the preset's primary and accent are applied; its deep colour is applied when present and non-empty, otherwise `#3B164B` |
| ShowcaseState.Showcase.SavePreset | app/components/BlossmPurpleShowcase.jsx:219-231 | a rejected save changes nothing; a successful one replaces the custom list by the old list without name matches (ignoring case) plus the new preset, and clears the name box |
| ShowcaseState.Showcase.RemovePreset | app/components/BlossmPurpleShowcase.jsx:232 | the custom presets with exactly that name are dropped and the others keep their order; the built-in presets stay listed first, unchanged |
| ShowcaseState.Showcase.Load | app/components/BlossmPurpleShowcase.jsx:86-95 | unreadable stored presets stop the restore; a stored list replaces the custom presets; a complete stored theme replaces the three colours |
| ShowcaseState.ColorField.constructor | app/components/BlossmPurpleShowcase.jsx:128 | a field's draft starts as the colour it edits |
| ShowcaseState.ColorField.Remount | app/components/BlossmPurpleShowcase.jsx:128-132 | a field mounted afresh, or one whose colour changed, has its colour as its draft |
| ShowcaseState.ColorField.OnHexInput | app/components/BlossmPurpleShowcase.jsx:154-159 | the draft becomes the normalised text; the colour changes to it exactly when it is valid, and otherwise stays; other colours are untouched |
| ShowcaseState.ColorField.OnPickerChange | app/components/BlossmPurpleShowcase.jsx:190-194 | the picker's colour, upper-cased, becomes both the draft and the field's colour |
| ShowcaseState.Page.constructor | app/components/BlossmPurpleShowcase.jsx:76-83 | the first render: the initial showcase state, with each field's draft its colour; the showcase and the three fields are newly created, so a caller may drive them |
| ShowcaseState.Page.Render | app/components/BlossmPurpleShowcase.jsx:126-128 | a render of the page mounts every field afresh, so every draft shows its colour |
| ShowcaseState.Page.SetPresetName | app/components/BlossmPurpleShowcase.jsx:330 | the name box takes the value; the page renders exactly when the name changes, and then every draft shows its colour; otherwise all drafts are kept |
| ShowcaseState.Page.ApplyPreset | app/components/BlossmPurpleShowcase.jsx:216-218 | the preset's colours are applied; the page renders exactly when a colour changes, and then every draft shows its colour; otherwise all drafts are kept |
| ShowcaseState.Page.SavePreset | app/components/BlossmPurpleShowcase.jsx:219-231 | a refused save changes neither the state nor any draft; a saved one updates the list and the name box, and every draft shows its colour |
| ShowcaseState.Page.RemovePreset | app/components/BlossmPurpleShowcase.jsx:232 | the exact-name filter is applied and the page always renders, so every draft shows its colour |
| ShowcaseState.Page.Load | app/components/BlossmPurpleShowcase.jsx:86-95 | the restore as in `Showcase.Load`; the page renders exactly when a list is set or a colour changes |
| ShowcaseState.Page.OnHexInput | app/components/BlossmPurpleShowcase.jsx:154-159 | the field's draft is the normalised text; its colour changes exactly when that text is valid; the page renders exactly when the colour changes, and then every draft shows its colour; otherwise the other drafts are kept |
| ShowcaseState.Page.OnPickerChange | app/components/BlossmPurpleShowcase.jsx:190-194 | the upper-cased picker colour becomes the field's draft and colour; the page renders exactly when the colour changes |
| ShowcaseState.InvalidDraftResetByRender | app/components/BlossmPurpleShowcase.jsx:126-159 | a page as first rendered, `#12` typed into the primary field, then a new preset name: the field shows `#12` until the name change renders the page, and then shows `#9B6BA3` again |

## Left out

- `rgbToHsl`, `hslToRgb`, `adjust` and the derived shades (lines 18–64, 104–110): they work in floating point, which this model does not cover.
- Persisting to `localStorage` (lines 96–101), and the storage reads and JSON parsing themselves. `Showcase.Load` takes the outcome of each read as a parameter instead: unreadable, unusable, or a value. A missing presets key parses as `[]`.
- Stored data of the wrong shape: array elements that are not preset records, and fields that are not strings, both in a stored preset and in the stored last theme. A preset record and the last theme (`LastTheme`) are modelled with string fields only. The code sets any truthy value it finds in the last theme, such as a number or an object, as a colour; the model covers only text.
- The popover: its open state, the outside-click and Escape listeners, the refs and the "Done" button. It is pure presentation.
- The `HexColorPicker` widget from `react-colorful` is not part of this model. `ColorField.OnPickerChange` takes the colour it reports as a parameter.
- The JSX layout, the CSS variables and `app/layout.js`: they are rendering only.
- JsText.Upper and JsText.Lower: only ASCII letters change case. The full Unicode case mapping of `toUpperCase` / `toLowerCase` is not modelled. For example, U+FB00 `ﬀ` becomes `FF` in JavaScript: typing `ﬀ0` gives the valid draft `#FF0` there, but an invalid one under `HexInput.NormalizeValidIff` and the `ColorField.OnHexInput` guard.
- Strings are sequences of code points; JavaScript's UTF-16 code units are not modelled.
- HexColor.HexToRgb: numbers are exact integers. Number's loss of precision above 2^53, for inputs with more than 13 hexadecimal digits, is not modelled.
- HexColor.RgbToHex: for channels outside 0..255 the text is modelled as the code writes it, but nothing is claimed about it.
- The React scheduling of state updates: each handler applies its updates at once, followed by at most one render of the page (`Page.Render`). A field's own draft update renders only that field and changes nothing else, so it is not a separate step.
- The popover's open state is reset when a render mounts the fields afresh; the popover is not part of this model (see above).
