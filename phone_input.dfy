/**
  The international phone-number controller `intlPhoneNumber`: a country
  dropdown, a dial-code prefix label, a text input masked by formatter.js
  and validated by intl-tel-input, and a hidden field that receives the full
  number.

  PhoneState is everything the controller's handlers read or write. The
  functions Start, ResetStep, InputStep, BlurStep and ChangeStep say what
  start-up and each handler do to it; the class PhoneNumberInput holds the
  same state in fields, and each of its methods is proved to have exactly
  the effect of the matching function. Lemmas about those functions state
  the controller's invariants and the outcomes of its handlers.
*/
module PhoneInput {
  import opened Wrappers
  import opened MaskPattern
  import opened JsString
  import opened CountryTable

  /** Placeholder written at start-up and after a country change. */
  const DisplayPlaceholder: string := "Phone Number"

  /** Placeholder written by `reset`, in capitals. */
  const ResetPlaceholder: string := "PHONE NUMBER"

  /** `countryCode || 'us'`: a missing or empty code means the United States. */
  function InitialCountry(code: Option<string>): (c: string)
    ensures c != ""
    ensures c == "us" <==> code == None || code == Some("") || code == Some("us")
    ensures code.Some? && code.value != "" ==> c == code.value
  {
    match code
    case None => "us"
    case Some(s) => if s == "" then "us" else s
  }

  /** The mask chosen before any country change: the `us` mask, or the 22-digit fallback. */
  function InitialPattern(initCountry: string): string {
    if initCountry == "us" then UsPattern else FallbackPattern
  }

  /** Everything the controller's handlers read or write. */
  datatype PhoneState = PhoneState(
    selected: string,       // country selected in the plugin
    dialCode: string,       // the `dialCode` variable
    pattern: string,        // the `pattern` variable, the mask handed to formatter.js
    text: string,           // the input's value
    placeholder: string,    // the input's placeholder attribute
    inputError: bool,       // `has-error` on the input
    labelError: bool,       // `has-error` on the input's label
    messageShown: bool,     // the error message lacks `hidden-xs-up`
    fullNumber: string,     // value of the hidden full-number field
    prefix: string,         // text of the dial-code prefix label
    dropdownValue: string,  // value of the country dropdown
    options: seq<DropdownOption>)

  /** The error display is on: input and label marked, message shown. */
  predicate ShowsError(v: PhoneState) {
    v.inputError && v.labelError && v.messageShown
  }

  /** The error display is off. */
  predicate ShowsNoError(v: PhoneState) {
    !v.inputError && !v.labelError && !v.messageShown
  }

  /** The state after start-up, for the plugin's country table and the optional country code. */
  function Start(table: seq<Country>, code: Option<string>): PhoneState
    requires Lookup(table, InitialCountry(code)).Some?
  {
    var c := Lookup(table, InitialCountry(code)).value;
    PhoneState(
      selected := c.iso2, dialCode := c.dialCode, pattern := InitialPattern(InitialCountry(code)),
      text := "", placeholder := DisplayPlaceholder,
      inputError := false, labelError := false, messageShown := false,
      fullNumber := "", prefix := "+" + c.dialCode, dropdownValue := c.iso2,
      options := OptionsFor(table))
  }

  /** `reset`: capital placeholder, error display off; nothing else is touched. */
  function ResetStep(v: PhoneState): PhoneState {
    v.(placeholder := ResetPlaceholder, inputError := false, labelError := false, messageShown := false)
  }

  /** The user edits the input to `newText`; the keyup/change handler then runs `reset`. */
  function InputStep(v: PhoneState, newText: string): PhoneState {
    ResetStep(v.(text := newText))
  }

  /**
    The blur handler, given the plugin's verdict on the current text: `reset`,
    then nothing more for blank text; otherwise the full number is the dial
    code followed by the untrimmed text, or the error display goes on and the
    full number is cleared.
  */
  function BlurStep(v: PhoneState, valid: bool): PhoneState {
    var r := ResetStep(v);
    if IsBlank(r.text) then r
    else if valid then r.(fullNumber := r.dialCode + r.text)
    else r.(inputError := true, labelError := true, messageShown := true, fullNumber := "")
  }

  /**
    The dropdown handler for the newly selected country `c`: the plugin
    selects it and writes its example into the placeholder, the prefix and
    the mask follow, the text is cleared and the placeholder is put back.
  */
  function ChangeStep(v: PhoneState, c: Country): PhoneState {
    v.(selected := c.iso2, dropdownValue := c.iso2, dialCode := c.dialCode, prefix := "+" + c.dialCode,
       pattern := Derive(c.example), text := "", placeholder := DisplayPlaceholder)
  }

  // ---------------------------------------------------------------------
  // Invariants
  // ---------------------------------------------------------------------

  /**
    What holds between handlers: the selected country is one the plugin
    knows, the dial code and prefix are its, the dropdown shows it among one
    option per country, the three parts of the error display agree, and the
    mask is the start-up mask or the selected country's derived one.
  */
  predicate Consistent(v: PhoneState, table: seq<Country>, initCountry: string) {
    var found := Lookup(table, v.selected);
    && found.Some?
    && v.dialCode == found.value.dialCode
    && v.prefix == "+" + v.dialCode
    && v.dropdownValue == v.selected
    && v.options == OptionsFor(table)
    && v.inputError == v.labelError == v.messageShown
    && (v.pattern == InitialPattern(initCountry) || v.pattern == Derive(found.value.example))
  }

  /** How the last blur on non-blank text ended, if there was one. */
  datatype Verdict = NotValidated | Accepted | Rejected

  /** The verdict after a blur: blank text leaves it as it was. */
  function BlurVerdict(v: PhoneState, valid: bool, last: Verdict): Verdict {
    if IsBlank(v.text) then last else if valid then Accepted else Rejected
  }

  /**
    The hidden full number is non-empty exactly when the last blur on
    non-blank text accepted it, and an error can be on display only after a
    rejection.
  */
  predicate Agrees(v: PhoneState, last: Verdict) {
    (v.fullNumber != "" <==> last == Accepted) && (v.inputError ==> last == Rejected)
  }

  /** Consistent state together with a verdict it agrees with. */
  ghost predicate Invariant(v: PhoneState, table: seq<Country>, initCountry: string, last: Verdict) {
    Consistent(v, table, initCountry) && Agrees(v, last)
  }

  lemma StartEstablishes(table: seq<Country>, code: Option<string>)
    requires Lookup(table, InitialCountry(code)).Some?
    ensures Consistent(Start(table, code), table, InitialCountry(code))
    ensures Agrees(Start(table, code), NotValidated)
    ensures ShowsNoError(Start(table, code))
  {
    LookupFinds(table, InitialCountry(code));
  }

  lemma ResetPreserves(v: PhoneState, table: seq<Country>, initCountry: string, last: Verdict)
    requires Invariant(v, table, initCountry, last)
    ensures Invariant(ResetStep(v), table, initCountry, last)
  {
  }

  lemma BlurPreserves(v: PhoneState, valid: bool, table: seq<Country>, initCountry: string, last: Verdict)
    requires Consistent(v, table, initCountry) && Agrees(v, last)
    ensures Consistent(BlurStep(v, valid), table, initCountry)
    ensures Agrees(BlurStep(v, valid), BlurVerdict(v, valid, last))
  {
    assert !IsBlank(v.text) ==> v.text != "" by {
      assert Trim("") == "";
    }
  }

  lemma ChangePreserves(v: PhoneState, c: Country, table: seq<Country>, initCountry: string, last: Verdict)
    requires Invariant(v, table, initCountry, last)
    requires Lookup(table, c.iso2) == Some(c)
    ensures Invariant(ChangeStep(v, c), table, initCountry, last)
  {
  }

  // ---------------------------------------------------------------------
  // What the handlers do
  // ---------------------------------------------------------------------

  /**
    Start-up selects `us` and its hard-coded mask when no code, an empty
    code or `us` is given; any other code gets the fallback mask. The
    hard-coded mask is the one derivation gives for the `us` example.
  */
  lemma InitialPatternChoice(code: Option<string>)
    ensures InitialPattern(InitialCountry(code))
         == if code == None || code == Some("") || code == Some("us") then UsPattern else FallbackPattern
    ensures InitialCountry(code) == "us" ==> InitialPattern(InitialCountry(code)) == Derive(UsExample)
  {
    UsExampleYieldsUsPattern();
  }

  /** `reset` twice is `reset` once. */
  lemma ResetIdempotent(v: PhoneState)
    ensures ResetStep(ResetStep(v)) == ResetStep(v)
  {
  }

  /** After any keystroke the error display is off and the text is what was typed. */
  lemma InputClearsError(v: PhoneState, newText: string)
    ensures ShowsNoError(InputStep(v, newText)) && InputStep(v, newText).text == newText
    ensures InputStep(v, newText).fullNumber == v.fullNumber
  {
  }

  /**
    The three outcomes of a blur, with blank read as "every character is
    white space". In all of them only the placeholder, the error display
    and the full number can change.
  */
  lemma BlurOutcome(v: PhoneState, valid: bool)
    ensures var r := BlurStep(v, valid);
      && r.placeholder == ResetPlaceholder
      && r.(placeholder := v.placeholder, inputError := v.inputError, labelError := v.labelError,
            messageShown := v.messageShown, fullNumber := v.fullNumber) == v
      && (AllTrimmed(v.text) ==> ShowsNoError(r) && r.fullNumber == v.fullNumber)
      && (!AllTrimmed(v.text) && valid ==> ShowsNoError(r) && r.fullNumber == v.dialCode + v.text)
      && (!AllTrimmed(v.text) && !valid ==> ShowsError(r) && r.fullNumber == "")
  {
    BlankIffAllWhiteSpace(v.text);
  }

  /**
    A country change sets country, prefix and mask from the new country,
    empties the text and restores the placeholder; the error display and the
    full number stay as they were. For an example without braces, the new
    mask with its braces removed is the example with its digits turned to `9`.
  */
  lemma ChangeOutcome(v: PhoneState, c: Country)
    ensures var r := ChangeStep(v, c);
      && r.selected == r.dropdownValue == c.iso2
      && r.prefix == "+" + c.dialCode
      && r.text == "" && r.placeholder == DisplayPlaceholder
      && r.inputError == v.inputError && r.labelError == v.labelError && r.messageShown == v.messageShown
      && r.fullNumber == v.fullNumber
      && (NoBraces(c.example) ==> StripBraces(r.pattern) == MaskDigits(c.example))
  {
    if NoBraces(c.example) {
      DeriveStripsToMask(c.example);
    }
  }

  // ---------------------------------------------------------------------
  // The controller
  // ---------------------------------------------------------------------

  /**
    One controller instance. The plugin's country table and its validator
    are fixed at construction; `isValidNumber(iso2, text)` is the plugin's
    verdict on `text` for the country `iso2`.
  */
  class PhoneNumberInput {
    const countries: seq<Country>
    const isValidNumber: (string, string) -> bool
    const initCountry: string

    var selected: string
    var dialCode: string
    var pattern: string
    var text: string
    var placeholder: string
    var inputError: bool
    var labelError: bool
    var messageShown: bool
    var fullNumber: string
    var prefix: string
    var dropdownValue: string
    var options: seq<DropdownOption>

    /** How the last blur on non-blank text ended. */
    ghost var lastBlur: Verdict

    function State(): PhoneState
      reads this
    {
      PhoneState(selected, dialCode, pattern, text, placeholder, inputError, labelError,
                 messageShown, fullNumber, prefix, dropdownValue, options)
    }

    ghost predicate Valid()
      reads this
    {
      Invariant(State(), countries, initCountry, lastBlur)
    }

    /** `intlPhoneNumber(code)`: start-up, up to the handlers being attached. */
    constructor (countries: seq<Country>, isValidNumber: (string, string) -> bool, code: Option<string>)
      requires Lookup(countries, InitialCountry(code)).Some?
      ensures Valid()
      ensures State() == Start(countries, code) && lastBlur == NotValidated
      ensures this.countries == countries && this.isValidNumber == isValidNumber
      ensures initCountry == InitialCountry(code)
    {
      // one option per country, in the plugin's order
      var opts: seq<DropdownOption> := [];
      var i := 0;
      while i < |countries|
        invariant 0 <= i <= |countries|
        invariant |opts| == i
        invariant forall k :: 0 <= k < i ==> opts[k] == OptionFor(countries[k])
      {
        opts := opts + [OptionFor(countries[i])];
        i := i + 1;
      }
      OptionsForIndex(countries);
      assert opts == OptionsFor(countries);
      // the plugin resolves the initial country; dropdown and prefix follow it
      var init := InitialCountry(code);
      var c := Lookup(countries, init).value;
      this.countries, this.isValidNumber, initCountry := countries, isValidNumber, init;
      selected, dialCode, pattern := c.iso2, c.dialCode, InitialPattern(init);
      text, placeholder := "", DisplayPlaceholder;
      inputError, labelError, messageShown := false, false, false;
      fullNumber, prefix, dropdownValue, options := "", "+" + c.dialCode, c.iso2, opts;
      lastBlur := NotValidated;
      StartEstablishes(countries, code);
    }

    /** `reset`, which also runs on every keyup and change of the input. */
    method Reset()
      requires Valid()
      modifies this
      ensures Valid() && lastBlur == old(lastBlur)
      ensures State() == ResetStep(old(State()))
    {
      placeholder := ResetPlaceholder;
      inputError := false;
      labelError := false;
      messageShown := false;
      assert State() == ResetStep(old(State()));
      ResetPreserves(old(State()), countries, initCountry, lastBlur);
    }

    /** The user edits the input to `newText` (after formatter.js has masked it); keyup/change runs `reset`. */
    method Input(newText: string)
      requires Valid()
      modifies this
      ensures Valid() && lastBlur == old(lastBlur)
      ensures State() == InputStep(old(State()), newText)
    {
      text := newText;
      Reset();
    }

    /** The blur handler. */
    method Blur()
      requires Valid()
      modifies this
      ensures Valid()
      ensures State() == BlurStep(old(State()), isValidNumber(old(selected), old(text)))
      ensures lastBlur == BlurVerdict(old(State()), isValidNumber(old(selected), old(text)), old(lastBlur))
    {
      ghost var before := State();
      ghost var valid := isValidNumber(selected, text);
      BlurPreserves(before, valid, countries, initCountry, lastBlur);
      Reset();
      ghost var cleared := State();
      if !IsBlank(text) {
        if isValidNumber(selected, text) {
          fullNumber := dialCode + text;
          lastBlur := Accepted;
          assert State() == cleared.(fullNumber := cleared.dialCode + cleared.text);
        } else {
          inputError := true;
          labelError := true;
          messageShown := true;
          fullNumber := "";
          lastBlur := Rejected;
          assert State() == cleared.(inputError := true, labelError := true, messageShown := true, fullNumber := "");
        }
      }
    }

    /** The dropdown's change handler, for the option with value `iso2`. */
    method Change(iso2: string)
      requires Valid()
      requires Offers(options, iso2)
      modifies this
      ensures Valid() && lastBlur == old(lastBlur)
      ensures Lookup(countries, iso2).Some?
      ensures State() == ChangeStep(old(State()), Lookup(countries, iso2).value)
    {
      OffersIffKnown(countries, iso2);
      var c := Lookup(countries, iso2).value;
      LookupFinds(countries, iso2);
      ChangePreserves(State(), c, countries, initCountry, lastBlur);
      ghost var before := State();
      // the plugin selects the country; its example number is the placeholder the mask is read from
      selected, dropdownValue := iso2, iso2;
      dialCode := c.dialCode;
      prefix := "+" + dialCode;
      pattern := Derive(c.example);
      text, placeholder := "", DisplayPlaceholder;
      assert State() == ChangeStep(before, c);
    }
  }
}
