# intlPhoneNumber: international phone-number entry

The controller `intlPhoneNumber(countryCode)` drives a phone-number form:
a country dropdown filled from intl-tel-input's country data, a grey label
showing the selected country's dial code, a text input masked by
formatter.js and validated by intl-tel-input, an error message, and a
hidden field that receives the full number (dial code followed by what was
typed).

The project has five modules.

- `MaskPattern` models the formatter.js mask the controller derives from the
  plugin's example placeholder when the country changes: every ASCII digit
  becomes `9`, then each greedy left-to-right match of `9\d{0,10}` is wrapped
  in `{{…}}`. The regular-expression scan is `Segment`, which cuts a string
  into literal characters and matched groups; `Render` writes the
  replacement. `WellGrouped` with `Flatten` says, without the scan, what
  a scan of that expression produces, and `SegmentUnique` proves the scan is
  the one well-grouped cut of its input. The lemmas give the layout, the
  size and content of each group, the characters left outside groups, how
  derivation splits over concatenation, and concrete placeholders (the
  United States example gives exactly the hard-coded `us` mask).
- `JsString` models jQuery's `$.trim`, which decides whether the input is
  blank on blur.
- `CountryTable` models the plugin's country records as a sequence in the
  plugin's order, each with the example number the plugin would show, and
  the dropdown options the controller appends for them.
- `PhoneInput` holds `PhoneState`, everything the handlers read or write,
  and pure step functions `Start`, `ResetStep`, `InputStep`, `BlurStep` and
  `ChangeStep`. Lemmas about them state the handlers' outcomes and the
  invariant they preserve. The class `PhoneNumberInput` keeps the same state
  in fields. Its constructor and its methods `Reset`, `Input`, `Blur` and
  `Change` update those fields in place, and each is proved to have exactly
  the effect of its step function while keeping `Valid()`.
- `Wrappers` holds `Option`.

The invariant `Valid()` says:
- the selected country is one the plugin knows;
- the dial code and the `+` prefix are that country's;
- the dropdown shows that country, among one option per country;
- the input's error class, the label's error class and the visible message
  are on or off together;
- the mask is the start-up mask or the one derived from the selected
  country's example;
- the hidden full number is non-empty exactly when the last blur on
  non-blank text was accepted;
- an error can be on display only after a rejection.

The last two facts relate the state to a ghost record of the last blur verdict.

The validator (`isValidNumber`, libphonenumber inside the plugin) is a
function value fixed at construction: `isValidNumber(iso2, text)` is the
plugin's verdict on `text` for country `iso2`. The country table is a
constructor parameter.

The model keeps these quirks of the code:
- `reset` writes the placeholder `"PHONE NUMBER"` in capitals. Start-up and
  a country change write `"Phone Number"`. So "restoring" the placeholder
  after an error does not give back the start-up text.
- A blur on blank text leaves the hidden full number as it was. On valid
  text, the full number is built from the untrimmed input.
- The start-up mask for any initial country other than `us` is the
  22-digit fallback `{{9999999999999999999999}}`. A placeholder of 22
  digits does not derive to it but to two groups of 11
  (`FallbackIsNotDerived`), and no derived group ever holds more than 11
  `9`s (`DeriveStructure`).

## Model

| member | source | states |
|---|---|---|
| MaskPattern.MaskDigits | js/countryscript.js:112 | the first replacement keeps the length and turns exactly the ASCII digits into `9`, every other character kept in place |
| MaskPattern.Derive | js/countryscript.js:112 | the two chained replacements: digit masking, then the scan of `9\d{0,10}` rendered with `{{…}}`; its properties are the Derive lemmas below |
| MaskPattern.Segment | js/countryscript.js:112 | the global greedy scan of `9\d{0,10}`: at a `9` the longest match, elsewhere one literal character; described by SegmentFlatten, SegmentWellGrouped and SegmentUnique |
| MaskPattern.Render | js/countryscript.js:112 | the replacement text: each match written as `{{match}}`, other characters kept; StripRender and RenderAppend state what it keeps |
| MaskPattern.MaskDigitsOnlyNines | js/countryscript.js:112 | after the first replacement the only digit left is `9` |
| MaskPattern.DigitRunSpec | js/countryscript.js:112 | the `\d{0,10}` part of a match takes digits only and stops only at a non-digit, at the end of the text or after ten digits |
| MaskPattern.SegmentFlatten | js/countryscript.js:112 | the global scan loses no character: its pieces put back together give its input |
| MaskPattern.SegmentWellGrouped | js/countryscript.js:112 | every match is a `9` and up to ten more digits, no `9` is left outside a match, and a match shorter than eleven ends where the digits end |
| MaskPattern.SegmentUnique | js/countryscript.js:112 | any well-grouped cutting of a string is the scan's result, so the scan is fully described by WellGrouped and Flatten |
| MaskPattern.DeriveStructure | js/countryscript.js:112 | the derived mask is the rendering of a well-grouped cutting of the digit-masked placeholder; each group holds 1 to 11 `9`s and nothing else, no digit stays outside a group, and two groups are adjacent only when the first holds 11 |
| MaskPattern.DeriveBy | js/countryscript.js:112 | any well-grouped cutting of the masked placeholder renders to the derived mask |
| MaskPattern.StripRender | js/countryscript.js:112 | deleting the braces from a rendering gives back the text that was cut, when that text has no braces |
| MaskPattern.DeriveStripsToMask | js/countryscript.js:112 | deleting every `{` and `}` from the derived mask gives the placeholder with each digit replaced by `9`, so the layout is kept |
| MaskPattern.DeriveAppend | js/countryscript.js:112 | derivation splits over a concatenation whose seam is not between two digits |
| MaskPattern.DeriveNoDigits | js/countryscript.js:112 | a placeholder without digits is its own mask |
| MaskPattern.DeriveRun | js/countryscript.js:112 | a run of 1 to 11 digits becomes one group of as many `9`s |
| MaskPattern.LongRunSplits | js/countryscript.js:112 | a run of 12 to 22 digits becomes a group of 11 followed by a group of the rest |
| MaskPattern.DeriveUsLayout | js/countryscript.js:112 | derivation goes part by part through the `(area) exchange-line` layout |
| MaskPattern.UsLayoutYieldsUsPattern | js/countryscript.js:33 | any placeholder in the `(ddd) ddd-dddd` layout derives to the hard-coded `us` mask |
| MaskPattern.UsExampleYieldsUsPattern | js/countryscript.js:32-33 | the United States example `(201) 555-0123` derives to exactly the hard-coded `us` mask |
| MaskPattern.DeriveSpacedLayout | js/countryscript.js:112 | derivation goes part by part through a layout of three space-separated parts |
| MaskPattern.BritishLayout | js/countryscript.js:112 | any placeholder in the `ddd dddd dddd` layout derives to `{{999}} {{9999}} {{9999}}` |
| MaskPattern.BritishExample | js/countryscript.js:112 | the placeholder `020 7946 0958` derives to `{{999}} {{9999}} {{9999}}` |
| MaskPattern.FallbackIsNotDerived | js/countryscript.js:34-36 | the 22-digit fallback mask is not what derivation gives for 22 digits |
| JsString.LeadingSpace | js/countryscript.js:84 | the count of white-space characters that `$.trim` removes from the front: all of them are white space, and the next one is not |
| JsString.TrailingSpace | js/countryscript.js:84 | the count of white-space characters that `$.trim` removes from the back: all of them are white space, and the one before them is not |
| JsString.Trim | js/countryscript.js:84 | `$.trim`: the input without its leading and trailing white space; TrimIsCore characterises it |
| JsString.IsBlank | js/countryscript.js:84 | the blur handler's test is falsy: the trimmed input is empty; BlankIffAllWhiteSpace characterises it |
| JsString.TrimIsCore | js/countryscript.js:84 | `$.trim` returns a slice of its input with only white space before and after it, and the slice neither starts nor ends with white space |
| JsString.BlankIffAllWhiteSpace | js/countryscript.js:84 | the blur handler's trim test fails exactly when every character of the input is white space |
| CountryTable.Lookup | js/countryscript.js:60-61 | the plugin's record for a code, the first in the table's order; LookupFinds and LookupFirst state what it returns |
| CountryTable.OptionsFor | js/countryscript.js:48-50 | the options the population loop appends, one per record; OptionsForIndex states their order and contents |
| CountryTable.LookupFinds | js/countryscript.js:60-61 | the plugin's lookup of a code returns a record with that code from the table, and returns nothing only when no record has it |
| CountryTable.LookupFirst | js/countryscript.js:60-61 | the record found is the first one with the code |
| CountryTable.OptionsForIndex | js/countryscript.js:48-50 | the population loop appends one option per record, in the table's order, with value the code and text the name |
| CountryTable.OffersIffKnown | js/countryscript.js:48-50 | the dropdown offers a value exactly when the plugin knows that code |
| PhoneInput.InitialCountry | js/countryscript.js:28 | the initial country is never empty, it is `us` exactly when the code is missing, empty or `us`, and any other non-empty code is the initial country unchanged |
| PhoneInput.InitialPattern | js/countryscript.js:32-37 | the start-up mask: the hard-coded `us` mask for `us`, the 22-digit fallback otherwise; InitialPatternChoice relates it to the country code |
| PhoneInput.Start | js/countryscript.js:28-77 | the state after start-up: initial country and its dial code, prefix and dropdown value, start-up mask, one option per record, `"Phone Number"` placeholder, no error, empty text and full number; StartEstablishes and the constructor are stated against it |
| PhoneInput.ResetStep | js/countryscript.js:40-45 | `reset`: capital placeholder, error classes removed, message hidden, all else unchanged; ResetPreserves and ResetIdempotent are about it |
| PhoneInput.InputStep | js/countryscript.js:101 | an edit of the input followed by the keyup/change `reset`; InputClearsError is about it |
| PhoneInput.BlurStep | js/countryscript.js:80-98 | the blur handler for the plugin's verdict: `reset`, then nothing for blank text, the full number for valid text, the error display and an empty full number otherwise; BlurOutcome and BlurPreserves are about it |
| PhoneInput.ChangeStep | js/countryscript.js:105-119 | the dropdown handler for the chosen record: country, dropdown, dial code, prefix and derived mask set, text emptied, `"Phone Number"` placeholder; ChangeOutcome and ChangePreserves are about it |
| PhoneInput.InitialPatternChoice | js/countryscript.js:28-37 | the start-up mask is the `us` mask for a missing, empty or `us` code and the fallback otherwise; for `us` it equals the derivation of the United States example |
| PhoneInput.StartEstablishes | js/countryscript.js:28-77 | the state after start-up is consistent, agrees with "not yet validated" and shows no error |
| PhoneInput.ResetPreserves | js/countryscript.js:40-45 | `reset` keeps the invariant |
| PhoneInput.ResetIdempotent | js/countryscript.js:40-45 | `reset` twice is `reset` once |
| PhoneInput.InputClearsError | js/countryscript.js:101 | after any keystroke or change of the input the error display is off, the text is what was typed and the full number is untouched |
| PhoneInput.BlurPreserves | js/countryscript.js:80-98 | blur keeps the state consistent and makes it agree with the new verdict |
| PhoneInput.BlurOutcome | js/countryscript.js:80-98 | blur on all-white-space text shows no error and keeps the full number; on other text it stores dial code plus the untrimmed text if valid, or shows the error and clears the full number if not; only placeholder, error display and full number change |
| PhoneInput.ChangePreserves | js/countryscript.js:105-119 | a change to any country the plugin knows keeps the invariant |
| PhoneInput.ChangeOutcome | js/countryscript.js:105-119 | a country change selects the country, sets the prefix, empties the text and restores the placeholder, leaves the error display and the full number as they were, and (for a brace-free example) sets a mask whose brace-free form is the digit-masked example |
| PhoneInput.PhoneNumberInput.constructor | js/countryscript.js:19-77 | start-up fills the dropdown by a loop over the table, selects the initial country, sets prefix, mask and placeholder, and ends in the state `Start` describes, satisfying the invariant |
| PhoneInput.PhoneNumberInput.Reset | js/countryscript.js:40-45 | the fields change exactly as `ResetStep` says and the invariant is kept |
| PhoneInput.PhoneNumberInput.Input | js/countryscript.js:101 | typing then the keyup/change handler change the fields exactly as `InputStep` says, keeping the invariant |
| PhoneInput.PhoneNumberInput.Blur | js/countryscript.js:80-98 | the fields change exactly as `BlurStep` says for the plugin's verdict on the current country and text, the recorded verdict follows, and the invariant is kept |
| PhoneInput.PhoneNumberInput.Change | js/countryscript.js:105-119 | any value the dropdown offers is a known country, and the fields change exactly as `ChangeStep` says for its record, keeping the invariant |

## Left out

- intl-tel-input internals are not modelled: libphonenumber validation, the example-number lookup, the remote utilities script, and the plugin's lower-casing of codes. The country table stands in for the plugin's data and examples. The function value `isValidNumber` stands in for its validator.
- PhoneInput.PhoneNumberInput.constructor: requires the initial country to be in the table. What the plugin does for a code it does not know is not modelled.
- PhoneInput.PhoneNumberInput.Change: the plugin's `setCountry` writes the country's example into the placeholder, and line 112 reads it back. The model reads the example from the country's record directly. Line 118 overwrites that placeholder, so the final state is the same.
- PhoneInput.PhoneNumberInput.Blur: the dial code stored in front of the number is the controller's `dialCode` variable. The source asks the plugin again. The invariant makes the two equal.
- formatter.js is not modelled: neither how it masks keystrokes nor how it reformats after `resetPattern`. Only the mask string handed to it is modelled. `Input` takes the text as it stands after masking.
- The DOM restructuring at lines 71-74 (removing the flag container and unwrapping the plugin's wrapper) is not modelled. It is cosmetic.
- jQuery's event loop is not modelled. Each handler is one atomic method.
- The markup's initial state is assumed: an empty dropdown and input, an empty hidden field, no error classes and a hidden message.
- MaskPattern.DeriveStripsToMask: stated for placeholders without `{` or `}`. Deleting braces also deletes any braces the placeholder itself contains.
- js/custom.js is not part of this model. It is page glue (header, sidebar, scroll spy, tab highlighting).
