/**
  The country data intl-tel-input hands the controller, and the dropdown
  the controller fills from it.

  The plugin itself is not modelled: its country list becomes a sequence of
  records in the plugin's order, and the example number it would write into
  the input's placeholder for a country is a field of that country's record.
*/
module CountryTable {
  import opened Wrappers

  /** One entry of `$.fn.intlTelInput.getCountryData()`, with the placeholder the plugin shows for it. */
  datatype Country = Country(iso2: string, name: string, dialCode: string, example: string)

  /** An `<option>` of the country dropdown. */
  datatype DropdownOption = DropdownOption(value: string, text: string)

  /** The plugin's record for a country code: the first record with that code, as its lookup finds it. */
  function Lookup(table: seq<Country>, iso2: string): Option<Country> {
    if table == [] then None
    else if table[0].iso2 == iso2 then Some(table[0])
    else Lookup(table[1..], iso2)
  }

  /** A lookup finds a record with the code, and finds nothing only when no record has it. */
  lemma {:induction false} LookupFinds(table: seq<Country>, iso2: string)
    ensures Lookup(table, iso2).Some? ==> Lookup(table, iso2).value.iso2 == iso2 && Lookup(table, iso2).value in table
    ensures Lookup(table, iso2).None? ==> forall i :: 0 <= i < |table| ==> table[i].iso2 != iso2
  {
    if table != [] && table[0].iso2 != iso2 {
      LookupFinds(table[1..], iso2);
      assert forall i :: 1 <= i < |table| ==> table[i] == table[1..][i - 1];
    }
  }

  /** The record found is the first one with the code. */
  lemma {:induction false} LookupFirst(table: seq<Country>, iso2: string, i: nat)
    requires i < |table| && table[i].iso2 == iso2
    requires forall j :: 0 <= j < i ==> table[j].iso2 != iso2
    ensures Lookup(table, iso2) == Some(table[i])
    decreases i
  {
    if i > 0 {
      assert forall j :: 0 <= j < i - 1 ==> table[1..][j] == table[j + 1];
      LookupFirst(table[1..], iso2, i - 1);
    }
  }

  /** The option the controller appends for a country: value the code, text the name. */
  function OptionFor(c: Country): DropdownOption {
    DropdownOption(c.iso2, c.name)
  }

  /** The dropdown's options after the population loop: one per record, in the table's order. */
  function OptionsFor(table: seq<Country>): seq<DropdownOption> {
    if table == [] then [] else [OptionFor(table[0])] + OptionsFor(table[1..])
  }

  /** One option per record, in the table's order: value the code, text the name. */
  lemma {:induction false} OptionsForIndex(table: seq<Country>)
    ensures |OptionsFor(table)| == |table|
    ensures forall i :: 0 <= i < |table| ==>
      OptionsFor(table)[i].value == table[i].iso2 && OptionsFor(table)[i].text == table[i].name
  {
    if table != [] {
      OptionsForIndex(table[1..]);
      assert forall i :: 1 <= i < |table| ==> table[i] == table[1..][i - 1];
    }
  }

  /** Whether the dropdown offers an option with this value. */
  predicate Offers(opts: seq<DropdownOption>, value: string) {
    exists i :: 0 <= i < |opts| && opts[i].value == value
  }

  /** Every value the filled dropdown offers is a code the plugin knows, and conversely. */
  lemma OffersIffKnown(table: seq<Country>, iso2: string)
    ensures Offers(OptionsFor(table), iso2) <==> Lookup(table, iso2).Some?
  {
    var opts := OptionsFor(table);
    OptionsForIndex(table);
    LookupFinds(table, iso2);
    if Lookup(table, iso2).Some? {
      var i :| 0 <= i < |table| && table[i] == Lookup(table, iso2).value && table[i].iso2 == iso2;
      assert opts[i].value == iso2;
    }
  }
}
