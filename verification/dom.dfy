/**
 * The questionnaire page as the scripts see it: the values of its text and number inputs,
 * textareas and selects, its radio groups in document order, which error indicators exist and
 * whether they are shown, and the two character counters.
 */
module Dom {
  import opened Wrappers

  /** One radio button: its value attribute and whether it is checked. */
  datatype Radio = Radio(value: string, checked: bool)

  /** A select element: the values of its options and its current value ("" when none is selected). */
  datatype Select = Select(options: seq<string>, value: string)

  /** A character counter: its text and its colour. */
  datatype Counter = Counter(text: string, color: string)

  /**
   * Elements are looked up by name (inputs, textareas, selects, radio groups) or by id (error
   * indicators, counters); a name or id missing from its map is an element that is not on the page.
   * An error indicator maps to true when it is displayed.
   */
  datatype Page = Page(
    inputs: map<string, string>,
    textareas: map<string, string>,
    selects: map<string, Select>,
    radios: map<string, seq<Radio>>,
    errors: map<string, bool>,
    counters: map<string, Counter>)

  /** Shows or hides the indicator `id` when it exists; every other indicator stays as it was. */
  function SetShown(errors: map<string, bool>, id: string, shown: bool): (r: map<string, bool>)
    ensures r.Keys == errors.Keys
    ensures id in errors ==> r[id] == shown
    ensures forall k :: k in errors && k != id ==> r[k] == errors[k]
  {
    if id in errors then errors[id := shown] else errors
  }

  /** `after` differs from `before` at most in the indicator `id`, which shows exactly when `valid` is false. */
  predicate Reports(before: Page, after: Page, id: string, valid: bool) {
    && after == before.(errors := after.errors)
    && after.errors.Keys == before.errors.Keys
    && (id in before.errors ==> after.errors[id] == !valid)
    && (forall k :: k in before.errors && k != id ==> after.errors[k] == before.errors[k])
  }

  /** Some radio of the group is checked. */
  predicate SomeChecked(group: seq<Radio>) {
    exists i :: 0 <= i < |group| && group[i].checked
  }

  /** Radio i is checked and no radio before it is. */
  predicate IsFirstChecked(group: seq<Radio>, i: int)
    requires 0 <= i < |group|
  {
    group[i].checked && forall j :: 0 <= j < i ==> !group[j].checked
  }

  /** The value of the first checked radio of a group: what `input[name=...]:checked` finds. */
  function CheckedValue(group: seq<Radio>): (r: Option<string>)
    ensures r.None? <==> !SomeChecked(group)
    ensures r.Some? ==> exists i :: 0 <= i < |group| && IsFirstChecked(group, i) && group[i].value == r.value
  {
    if group == [] then None
    else if group[0].checked then Some(group[0].value)
    else
      var r := CheckedValue(group[1..]);
      assert forall i :: 0 < i < |group| ==> group[i] == group[1..][i - 1];
      r
  }

  /** The checked value of the radio group `name`, None when the group is absent or unchecked. */
  function GroupValue(page: Page, name: string): Option<string> {
    if name in page.radios then CheckedValue(page.radios[name]) else None
  }
}
