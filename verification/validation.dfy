/**
 * The field validators of the questionnaire (stuteapot_test_interact.js) and the character
 * counters of its two free-text fields. Each validator returns its verdict together with the page
 * it leaves behind, whose only change is the display of the validator's error indicator.
 */
module Validation {
  import opened Wrappers
  import opened Text
  import opened JsNumber
  import opened Dom

  /** What a validator returns and the page after it has shown or hidden its indicator. */
  datatype Outcome = Outcome(valid: bool, page: Page)

  /** parseFloat on a string: None for NaN. Its grammar is not part of this model. */
  type ParseFloat = string -> Option<real>

  /** validateRequiredRadio: some radio of the group is checked. */
  function ValidateRequiredRadio(page: Page, group: string, errorId: string): (o: Outcome)
    ensures o.valid <==> group in page.radios && SomeChecked(page.radios[group])
    ensures Reports(page, o.page, errorId, o.valid)
  {
    var valid := GroupValue(page, group).Some?;
    Outcome(valid, page.(errors := SetShown(page.errors, errorId, !valid)))
  }

  /** validateRequiredSelect: the select exists and its value is not empty; a missing select fails. */
  function ValidateRequiredSelect(page: Page, name: string, errorId: string): (o: Outcome)
    ensures o.valid <==> name in page.selects && page.selects[name].value != ""
    ensures Reports(page, o.page, errorId, o.valid)
  {
    var valid := name in page.selects && page.selects[name].value != "";
    Outcome(valid, page.(errors := SetShown(page.errors, errorId, !valid)))
  }

  /** The trimmed value is empty or has between minLength and maxLength UTF-16 code units. */
  predicate LengthAllowed(value: string, minLength: nat, maxLength: nat) {
    var t := JsTrim(value);
    t == [] || minLength <= Utf16Length(t) <= maxLength
  }

  /**
   * validateTextLength: a missing input passes without touching its indicator; otherwise the
   * trimmed value must be empty or of a length within the bounds.
   */
  function ValidateTextLength(page: Page, name: string, errorId: string, minLength: nat, maxLength: nat): (o: Outcome)
    ensures o.valid <==> (
      || name !in page.inputs
      || (forall i :: 0 <= i < |page.inputs[name]| ==> IsJsWhitespace(page.inputs[name][i]))
      || minLength <= Utf16Length(JsTrim(page.inputs[name])) <= maxLength)
    ensures name !in page.inputs ==> o.page == page
    ensures name in page.inputs ==> Reports(page, o.page, errorId, o.valid)
  {
    if name !in page.inputs then Outcome(true, page)
    else
      var valid := LengthAllowed(page.inputs[name], minLength, maxLength);
      Outcome(valid, page.(errors := SetShown(page.errors, errorId, !valid)))
  }

  /**
   * validateNumberRange: a missing input passes without touching its indicator; otherwise
   * parseFloat of the value must be a number within [min, max]. NaN fails every bound.
   */
  function ValidateNumberRange(parseFloat: ParseFloat, page: Page, name: string, errorId: string, min: real, max: real): (o: Outcome)
    ensures o.valid <==> (
      || name !in page.inputs
      || (parseFloat(page.inputs[name]).Some? && min <= parseFloat(page.inputs[name]).value <= max))
    ensures name !in page.inputs ==> o.page == page
    ensures name in page.inputs ==> Reports(page, o.page, errorId, o.valid)
  {
    if name !in page.inputs then Outcome(true, page)
    else
      var value := parseFloat(page.inputs[name]);
      var valid := value.Some? && min <= value.value <= max;
      Outcome(valid, page.(errors := SetShown(page.errors, errorId, !valid)))
  }

  /** The limit of both free-text fields, and the length from which the counter turns to a warning. */
  const MaxChars: nat := 600
  const WarnChars: nat := 480

  /**
   * validateRemarksAdmin / validateStudyTips: with both the textarea and its indicator present,
   * the untrimmed value may hold at most 600 UTF-16 code units; if either is missing the check passes
   * and nothing changes.
   */
  function ValidateTextareaCap(page: Page, name: string, errorId: string): (o: Outcome)
    ensures o.valid <==> (
      || name !in page.textareas
      || errorId !in page.errors
      || Utf16Length(page.textareas[name]) <= MaxChars)
    ensures name !in page.textareas || errorId !in page.errors ==> o.page == page
    ensures name in page.textareas && errorId in page.errors ==> Reports(page, o.page, errorId, o.valid)
  {
    if name !in page.textareas || errorId !in page.errors then Outcome(true, page)
    else
      var valid := Utf16Length(page.textareas[name]) <= MaxChars;
      Outcome(valid, page.(errors := page.errors[errorId := !valid]))
  }

  /** The administrators' remarks may hold at most 600 UTF-16 code units. */
  function ValidateRemarksAdmin(page: Page): (o: Outcome)
    ensures o.valid <==> (
      || "remarks-admin" !in page.textareas
      || "remarks-admin-error" !in page.errors
      || Utf16Length(page.textareas["remarks-admin"]) <= 600)
    ensures "remarks-admin" !in page.textareas || "remarks-admin-error" !in page.errors ==> o.page == page
    ensures "remarks-admin" in page.textareas && "remarks-admin-error" in page.errors ==>
      Reports(page, o.page, "remarks-admin-error", o.valid)
  {
    ValidateTextareaCap(page, "remarks-admin", "remarks-admin-error")
  }

  /** The study tips may hold at most 600 UTF-16 code units. */
  function ValidateStudyTips(page: Page): (o: Outcome)
    ensures o.valid <==> (
      || "study-tips" !in page.textareas
      || "study-tips-error" !in page.errors
      || Utf16Length(page.textareas["study-tips"]) <= 600)
    ensures "study-tips" !in page.textareas || "study-tips-error" !in page.errors ==> o.page == page
    ensures "study-tips" in page.textareas && "study-tips-error" in page.errors ==>
      Reports(page, o.page, "study-tips-error", o.valid)
  {
    ValidateTextareaCap(page, "study-tips", "study-tips-error")
  }

  /** The colour band of a character counter. */
  datatype Tier = Normal | Warning | Exceeded

  function CountTier(length: nat): (t: Tier)
    ensures t == Exceeded <==> length > MaxChars
    ensures t == Warning <==> WarnChars < length <= MaxChars
    ensures t == Normal <==> length <= WarnChars
  {
    if length > MaxChars then Exceeded else if length > WarnChars then Warning else Normal
  }

  function TierColor(t: Tier): string {
    match t
    case Exceeded => "#ff6b6b"
    case Warning => "#ffa500"
    case Normal => "#5c564f"
  }

  /** "<length>/600 characters", the counter's text. */
  function CountText(length: nat): string {
    DecimalString(length) + "/600 characters"
  }

  /**
   * update*Count: with both the textarea and its counter present, the counter shows the value's
   * UTF-16 length out of 600 in the colour of its tier; otherwise nothing changes.
   */
  function UpdateCount(page: Page, name: string, counterId: string): (p: Page)
    ensures name !in page.textareas || counterId !in page.counters ==> p == page
    ensures name in page.textareas && counterId in page.counters ==>
      && p == page.(counters := p.counters)
      && p.counters.Keys == page.counters.Keys
      && p.counters[counterId].color == TierColor(CountTier(Utf16Length(page.textareas[name])))
      && p.counters[counterId].text == CountText(Utf16Length(page.textareas[name]))
      && (forall k :: k in page.counters && k != counterId ==> p.counters[k] == page.counters[k])
  {
    if name !in page.textareas || counterId !in page.counters then page
    else
      var n := Utf16Length(page.textareas[name]);
      page.(counters := page.counters[counterId := Counter(CountText(n), TierColor(CountTier(n)))])
  }

  function UpdateRemarksAdminCount(page: Page): Page {
    UpdateCount(page, "remarks-admin", "remarks-admin-char-count")
  }

  function UpdateStudyTipsCount(page: Page): Page {
    UpdateCount(page, "study-tips", "study-tips-char-count")
  }

  /**
   * The cap and the counter agree: where both apply, the field fails its cap exactly when its
   * counter is red, and the warning band still passes.
   */
  lemma CapFailsExactlyWhenCounterRed(page: Page, name: string, errorId: string, counterId: string)
    requires name in page.textareas && errorId in page.errors && counterId in page.counters
    ensures !ValidateTextareaCap(page, name, errorId).valid <==>
      UpdateCount(page, name, counterId).counters[counterId].color == TierColor(Exceeded)
  {
    var t := CountTier(Utf16Length(page.textareas[name]));
    assert TierColor(t) == TierColor(Exceeded) <==> t == Exceeded;
  }

  /** An empty free-text field passes its cap and its counter reads "0/600 characters" in the normal colour. */
  lemma EmptyTextareaPasses(page: Page, name: string, errorId: string, counterId: string)
    requires name in page.textareas && page.textareas[name] == "" && counterId in page.counters
    ensures ValidateTextareaCap(page, name, errorId).valid
    ensures UpdateCount(page, name, counterId).counters[counterId] == Counter("0/600 characters", "#5c564f")
  {
    assert DecimalString(0) == "0";
  }

  /** A value made only of white space passes the length check whatever the bounds. */
  lemma BlankTextPasses(page: Page, name: string, errorId: string, minLength: nat, maxLength: nat)
    requires name in page.inputs
    requires forall i :: 0 <= i < |page.inputs[name]| ==> IsJsWhitespace(page.inputs[name][i])
    ensures ValidateTextLength(page, name, errorId, minLength, maxLength).valid
    ensures errorId in page.errors ==> !ValidateTextLength(page, name, errorId, minLength, maxLength).page.errors[errorId]
  {
  }

  /** Running a validator a second time on its own output gives the same verdict and the same page. */
  lemma ChoiceValidatorsAreIdempotent(page: Page, name: string, errorId: string)
    ensures var o := ValidateRequiredRadio(page, name, errorId);
      ValidateRequiredRadio(o.page, name, errorId) == o
    ensures var o := ValidateRequiredSelect(page, name, errorId);
      ValidateRequiredSelect(o.page, name, errorId) == o
  {
  }

  lemma TextLengthIsIdempotent(page: Page, name: string, errorId: string, minLength: nat, maxLength: nat)
    ensures var o := ValidateTextLength(page, name, errorId, minLength, maxLength);
      ValidateTextLength(o.page, name, errorId, minLength, maxLength) == o
  {
  }

  lemma NumberRangeIsIdempotent(parseFloat: ParseFloat, page: Page, name: string, errorId: string, min: real, max: real)
    ensures var o := ValidateNumberRange(parseFloat, page, name, errorId, min, max);
      ValidateNumberRange(parseFloat, o.page, name, errorId, min, max) == o
  {
  }

  lemma TextareaCapIsIdempotent(page: Page, name: string, errorId: string)
    ensures var o := ValidateTextareaCap(page, name, errorId);
      ValidateTextareaCap(o.page, name, errorId) == o
  {
  }
}
