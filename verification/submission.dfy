/**
 * The submission gate of the questionnaire (validateAll and its group validators) and the
 * per-field rules the page runs as the user answers (the listeners of setupDynamicValidation).
 */
module Submission {
  import opened Wrappers
  import opened Dom
  import opened Validation
  import opened Fields
  import opened AnswerStore
  import opened Results
  import JsNumber

  /** One validator call, with the arguments the script passes to it. */
  datatype Check =
    | TextLength(name: string, errorId: string, minLength: nat, maxLength: nat)
    | NumberRange(name: string, errorId: string, min: real, max: real)
    | RequiredRadio(name: string, errorId: string)
    | RequiredSelect(name: string, errorId: string)
    | TextareaCap(name: string, errorId: string)

  /** The verdict of a check, read off the page's values. */
  predicate Passes(parseFloat: ParseFloat, page: Page, c: Check) {
    match c
    case TextLength(n, _, lo, hi) => n !in page.inputs || LengthAllowed(page.inputs[n], lo, hi)
    case NumberRange(n, _, lo, hi) =>
      n !in page.inputs || (parseFloat(page.inputs[n]).Some? && lo <= parseFloat(page.inputs[n]).value <= hi)
    case RequiredRadio(n, _) => n in page.radios && SomeChecked(page.radios[n])
    case RequiredSelect(n, _) => n in page.selects && page.selects[n].value != ""
    case TextareaCap(n, e) => n !in page.textareas || e !in page.errors || JsNumber.Utf16Length(page.textareas[n]) <= MaxChars
  }

  /** The check sets its indicator: the indicator is on the page and the validator does not return before it. */
  predicate Writes(page: Page, c: Check) {
    && c.errorId in page.errors
    && match c
       case TextLength(n, _, _, _) => n in page.inputs
       case NumberRange(n, _, _, _) => n in page.inputs
       case TextareaCap(n, _) => n in page.textareas
       case _ => true
  }

  /** The page after a check: its indicator, when it sets one, shown exactly when the check fails. */
  function Reported(parseFloat: ParseFloat, page: Page, c: Check): Page {
    page.(errors := if Writes(page, c) then page.errors[c.errorId := !Passes(parseFloat, page, c)] else page.errors)
  }

  /** Runs the validator a check names. */
  function Run(parseFloat: ParseFloat, page: Page, c: Check): (o: Outcome)
    ensures o.valid == Passes(parseFloat, page, c)
    ensures o.page == Reported(parseFloat, page, c)
  {
    match c
    case TextLength(n, e, lo, hi) => ValidateTextLength(page, n, e, lo, hi)
    case NumberRange(n, e, lo, hi) => ValidateNumberRange(parseFloat, page, n, e, lo, hi)
    case RequiredRadio(n, e) => ValidateRequiredRadio(page, n, e)
    case RequiredSelect(n, e) => ValidateRequiredSelect(page, n, e)
    case TextareaCap(n, e) => ValidateTextareaCap(page, n, e)
  }

  /** No check reads whether an indicator is displayed, only whether it exists. */
  lemma ChecksIgnoreDisplay(parseFloat: ParseFloat, page: Page, errors: map<string, bool>, c: Check)
    requires errors.Keys == page.errors.Keys
    ensures Passes(parseFloat, page.(errors := errors), c) == Passes(parseFloat, page, c)
    ensures Writes(page.(errors := errors), c) == Writes(page, c)
  {
  }

  predicate AllPass(parseFloat: ParseFloat, page: Page, checks: seq<Check>) {
    forall i :: 0 <= i < |checks| ==> Passes(parseFloat, page, checks[i])
  }

  /** Check i sets its indicator and no later check before `upto` sets the same one. */
  predicate LastWriter(page: Page, checks: seq<Check>, i: int, upto: int)
    requires 0 <= i < upto <= |checks|
  {
    && Writes(page, checks[i])
    && forall j :: i < j < upto && Writes(page, checks[j]) ==> checks[j].errorId != checks[i].errorId
  }

  /** Some check before `upto` sets the indicator `id`. */
  predicate Written(page: Page, checks: seq<Check>, id: string, upto: int)
    requires 0 <= upto <= |checks|
  {
    exists i :: 0 <= i < upto && Writes(page, checks[i]) && checks[i].errorId == id
  }

  /** What a check does to the indicators: shows or hides one of them, or nothing. */
  datatype Effect = Sets(id: string, shown: bool) | Untouched

  function EffectOf(parseFloat: ParseFloat, page: Page, c: Check): Effect {
    if Writes(page, c) then Sets(c.errorId, !Passes(parseFloat, page, c)) else Untouched
  }

  function Effects(parseFloat: ParseFloat, page: Page, checks: seq<Check>): (effects: seq<Effect>)
    ensures |effects| == |checks|
    ensures forall i :: 0 <= i < |checks| ==> effects[i] == EffectOf(parseFloat, page, checks[i])
  {
    seq(|checks|, i requires 0 <= i < |checks| => EffectOf(parseFloat, page, checks[i]))
  }

  function Apply(errors: map<string, bool>, e: Effect): map<string, bool> {
    match e
    case Sets(id, shown) => SetShown(errors, id, shown)
    case Untouched => errors
  }

  /** The indicators after the effects have been applied in order. */
  function ApplyAll(errors: map<string, bool>, effects: seq<Effect>): map<string, bool> {
    if effects == [] then errors else Apply(ApplyAll(errors, effects[..|effects| - 1]), effects[|effects| - 1])
  }

  /** Effect i shows or hides its indicator and no later effect touches the same one. */
  predicate LastSet(effects: seq<Effect>, i: int)
    requires 0 <= i < |effects|
  {
    effects[i].Sets? && forall j :: i < j < |effects| && effects[j].Sets? ==> effects[j].id != effects[i].id
  }

  predicate SetsId(effects: seq<Effect>, id: string) {
    exists i :: 0 <= i < |effects| && effects[i].Sets? && effects[i].id == id
  }

  /**
   * Applying effects in order keeps the set of indicators, leaves each one as the last effect on
   * it sets it, and leaves one no effect touches as it was.
   */
  lemma {:induction false} ApplyAllKeepsLast(errors: map<string, bool>, effects: seq<Effect>)
    ensures ApplyAll(errors, effects).Keys == errors.Keys
    ensures forall i :: 0 <= i < |effects| && LastSet(effects, i) && effects[i].id in errors ==>
      ApplyAll(errors, effects)[effects[i].id] == effects[i].shown
    ensures forall id :: id in errors && !SetsId(effects, id) ==> ApplyAll(errors, effects)[id] == errors[id]
  {
    if effects != [] {
      var init := effects[..|effects| - 1];
      var last := effects[|effects| - 1];
      ApplyAllKeepsLast(errors, init);
      assert forall i :: 0 <= i < |init| ==> init[i] == effects[i];
      forall i | 0 <= i < |effects| - 1 && LastSet(effects, i) && effects[i].id in errors
        ensures ApplyAll(errors, effects)[effects[i].id] == effects[i].shown
      {
        assert LastSet(init, i);
      }
      forall id | id in errors && !SetsId(effects, id)
        ensures ApplyAll(errors, effects)[id] == errors[id]
      {
        assert !SetsId(init, id);
      }
    }
  }

  /** The effects of a list of checks, read back as the checks' verdicts. */
  lemma EffectsShowVerdicts(parseFloat: ParseFloat, page: Page, checks: seq<Check>)
    ensures var errors := ApplyAll(page.errors, Effects(parseFloat, page, checks));
      && errors.Keys == page.errors.Keys
      && (forall i :: 0 <= i < |checks| && LastWriter(page, checks, i, |checks|) ==>
        errors[checks[i].errorId] == !Passes(parseFloat, page, checks[i]))
      && (forall id :: id in page.errors && !Written(page, checks, id, |checks|) ==> errors[id] == page.errors[id])
  {
    var effects := Effects(parseFloat, page, checks);
    ApplyAllKeepsLast(page.errors, effects);
    forall i | 0 <= i < |checks| && LastWriter(page, checks, i, |checks|)
      ensures LastSet(effects, i) && effects[i].id in page.errors
    {
    }
    forall id | id in page.errors && !Written(page, checks, id, |checks|)
      ensures !SetsId(effects, id)
    {
    }
  }

  /**
   * Runs every check of the list in order, with no short circuit, and returns the AND of the
   * verdicts: each indicator ends up as the last check that sets it leaves it, and an indicator
   * no check sets is not touched.
   */
  method RunChecks(parseFloat: ParseFloat, page: Page, checks: seq<Check>) returns (valid: bool, after: Page)
    ensures valid <==> AllPass(parseFloat, page, checks)
    ensures after == page.(errors := after.errors) && after.errors.Keys == page.errors.Keys
    ensures forall i :: 0 <= i < |checks| && LastWriter(page, checks, i, |checks|) ==>
      after.errors[checks[i].errorId] == !Passes(parseFloat, page, checks[i])
    ensures forall id :: id in page.errors && !Written(page, checks, id, |checks|) ==> after.errors[id] == page.errors[id]
  {
    var effects := Effects(parseFloat, page, checks);
    valid := true;
    after := page;
    var k := 0;
    while k < |checks|
      invariant 0 <= k <= |checks|
      invariant after == page.(errors := ApplyAll(page.errors, effects[..k]))
      invariant valid <==> forall i :: 0 <= i < k ==> Passes(parseFloat, page, checks[i])
    {
      ApplyAllKeepsLast(page.errors, effects[..k]);
      ChecksIgnoreDisplay(parseFloat, page, after.errors, checks[k]);
      var o := Run(parseFloat, after, checks[k]);
      if !o.valid {
        valid := false;
      }
      assert effects[..k + 1][..k] == effects[..k];
      after := o.page;
      k := k + 1;
    }
    assert effects[..k] == effects;
    EffectsShowVerdicts(parseFloat, page, checks);
  }

  /** A list passes exactly when both of its parts pass. */
  lemma AllPassConcat(parseFloat: ParseFloat, page: Page, a: seq<Check>, b: seq<Check>)
    ensures AllPass(parseFloat, page, a + b) <==> AllPass(parseFloat, page, a) && AllPass(parseFloat, page, b)
  {
    if AllPass(parseFloat, page, a) && AllPass(parseFloat, page, b) {
      forall i | 0 <= i < |a + b|
        ensures Passes(parseFloat, page, (a + b)[i])
      {
        if i >= |a| {
          assert (a + b)[i] == b[i - |a|];
        }
      }
    }
    if AllPass(parseFloat, page, a + b) {
      forall i | 0 <= i < |a|
        ensures Passes(parseFloat, page, a[i])
      {
        assert (a + b)[i] == a[i];
      }
      forall i | 0 <= i < |b|
        ensures Passes(parseFloat, page, b[i])
      {
        assert (a + b)[|a| + i] == b[i];
      }
    }
  }

  // ---------------------------------------------------------------------------------------
  // The checks of validateAll

  /** The checks validateAll lists by hand, in its order; the select's indicator is "eco-error". */
  const ScalarChecks: seq<Check> := [
    TextLength("anonymous-id", "anonymous-id-error", 3, 20),
    RequiredRadio("gender", "gender-error"),
    NumberRange("age", "age-error", 1.0, 120.0),
    RequiredSelect("economic-situation", "eco-error"),
    RequiredRadio("class-year", "class-year-error"),
    RequiredRadio("study-field", "study-field-error"),
    NumberRange("grades", "grades-error", 0.0, 20.0),
    RequiredRadio("self-confidence", "self-confidence-error"),
    RequiredRadio("stress", "stress-error"),
    RequiredRadio("well-being", "well-being-error"),
    RequiredRadio("knowledge-durability", "knowledge-durability-error"),
    RequiredRadio("cheating", "cheating-error")]

  /** A group validator's checks: each group required, with the indicator "<group>-error". */
  function RadioChecks(names: seq<string>): (cs: seq<Check>)
    ensures |cs| == |names|
    ensures forall i :: 0 <= i < |names| ==> cs[i] == RequiredRadio(names[i], names[i] + "-error")
  {
    seq(|names|, i requires 0 <= i < |names| => RequiredRadio(names[i], names[i] + "-error"))
  }

  /** validateRemarksAdmin and validateStudyTips. */
  const CapChecks: seq<Check> := [TextareaCap("remarks-admin", "remarks-admin-error"), TextareaCap("study-tips", "study-tips-error")]

  /** The radio groups of validateAll's five group validators, in its order. */
  function AllGroups(): seq<string> {
    FfmGroups() + IlsActGroups() + IlsMotGroups() + PedagogyGroups() + TeachingStyleGroups()
  }

  /** Every check validateAll makes, in its order. */
  function SubmissionChecks(): seq<Check> {
    ScalarChecks + RadioChecks(AllGroups()) + CapChecks
  }

  /** Every group of the list has a checked radio. */
  predicate AllAnswered(page: Page, names: seq<string>) {
    forall i :: 0 <= i < |names| ==> names[i] in page.radios && SomeChecked(page.radios[names[i]])
  }

  lemma RadioChecksPassWhenAnswered(parseFloat: ParseFloat, page: Page, names: seq<string>)
    ensures AllPass(parseFloat, page, RadioChecks(names)) <==> AllAnswered(page, names)
  {
    var cs := RadioChecks(names);
    assert forall i :: 0 <= i < |names| ==> (Passes(parseFloat, page, cs[i]) <==> names[i] in page.radios && SomeChecked(page.radios[names[i]]));
  }

  /** Two indicator ids "<a>-error" and "<b>-error" coincide only for the same group. */
  lemma SuffixCancels(a: string, b: string, suffix: string)
    requires a + suffix == b + suffix
    ensures a == b
  {
    assert |a| == |b|;
    forall i | 0 <= i < |a|
      ensures a[i] == b[i]
    {
      assert (a + suffix)[i] == a[i] && (b + suffix)[i] == b[i];
    }
  }

  /** From a check that sets its indicator, the last check setting the same indicator. */
  lemma {:induction false} LastWriterFrom(page: Page, checks: seq<Check>, i: nat) returns (last: nat)
    requires i < |checks| && Writes(page, checks[i])
    ensures i <= last < |checks| && LastWriter(page, checks, last, |checks|) && checks[last].errorId == checks[i].errorId
    decreases |checks| - i
  {
    if exists j :: i < j < |checks| && Writes(page, checks[j]) && checks[j].errorId == checks[i].errorId {
      var j :| i < j < |checks| && Writes(page, checks[j]) && checks[j].errorId == checks[i].errorId;
      last := LastWriterFrom(page, checks, j);
    } else {
      last := i;
    }
  }

  /**
   * validateFFMQuestions, validateILSActQuestions, validateILSMotQuestions,
   * validatePedagogyQuestions and validateTeachingStyleQuestions: every group of the list is
   * required, the result is true exactly when all are answered, and every group's indicator shows
   * whether that group is answered.
   */
  method ValidateRadioGroups(page: Page, names: seq<string>) returns (valid: bool, after: Page)
    ensures valid <==> AllAnswered(page, names)
    ensures after == page.(errors := after.errors) && after.errors.Keys == page.errors.Keys
    ensures forall i :: 0 <= i < |names| && names[i] + "-error" in page.errors ==>
      after.errors[names[i] + "-error"] == !(names[i] in page.radios && SomeChecked(page.radios[names[i]]))
    ensures forall id :: id in page.errors && (forall i :: 0 <= i < |names| ==> id != names[i] + "-error") ==>
      after.errors[id] == page.errors[id]
  {
    var parseFloat: ParseFloat := s => None;
    var checks := RadioChecks(names);
    valid, after := RunChecks(parseFloat, page, checks);
    RadioChecksPassWhenAnswered(parseFloat, page, names);
    forall i | 0 <= i < |names| && names[i] + "-error" in page.errors
      ensures after.errors[names[i] + "-error"] == !(names[i] in page.radios && SomeChecked(page.radios[names[i]]))
    {
      var last := LastWriterFrom(page, checks, i);
      SuffixCancels(names[last], names[i], "-error");
    }
  }

  lemma AllAnsweredConcat(page: Page, a: seq<string>, b: seq<string>)
    ensures AllAnswered(page, a + b) <==> AllAnswered(page, a) && AllAnswered(page, b)
  {
    assert forall i :: 0 <= i < |a| ==> (a + b)[i] == a[i];
    assert forall i :: 0 <= i < |b| ==> (a + b)[|a| + i] == b[i];
  }

  /** What a successful validateAll requires of the page, part by part. */
  lemma SubmissionPassesByPart(parseFloat: ParseFloat, page: Page)
    ensures AllPass(parseFloat, page, SubmissionChecks()) <==>
      && AllPass(parseFloat, page, ScalarChecks)
      && AllAnswered(page, FfmGroups())
      && AllAnswered(page, IlsActGroups())
      && AllAnswered(page, IlsMotGroups())
      && AllAnswered(page, PedagogyGroups())
      && AllAnswered(page, TeachingStyleGroups())
      && AllPass(parseFloat, page, CapChecks)
  {
    var f, a, m, p, t := FfmGroups(), IlsActGroups(), IlsMotGroups(), PedagogyGroups(), TeachingStyleGroups();
    AllPassConcat(parseFloat, page, ScalarChecks + RadioChecks(AllGroups()), CapChecks);
    AllPassConcat(parseFloat, page, ScalarChecks, RadioChecks(AllGroups()));
    RadioChecksPassWhenAnswered(parseFloat, page, AllGroups());
    AllAnsweredConcat(page, f + a + m + p, t);
    AllAnsweredConcat(page, f + a + m, p);
    AllAnsweredConcat(page, f + a, m);
    AllAnsweredConcat(page, f, a);
  }

  /** A page that passes validateAll has all twenty learning-style questions answered. */
  lemma SubmittedPageAnswersEveryIlsQuestion(parseFloat: ParseFloat, page: Page, n: nat)
    requires AllPass(parseFloat, page, SubmissionChecks())
    requires 1 <= n <= 10
    ensures GroupValue(page, "ils-act" + Text.DecimalString(n)).Some?
    ensures GroupValue(page, "ils-mot" + Text.DecimalString(n)).Some?
  {
    SubmissionPassesByPart(parseFloat, page);
    assert IlsActGroups()[n - 1] == "ils-act" + Text.DecimalString(n);
    assert IlsMotGroups()[n - 1] == "ils-mot" + Text.DecimalString(n);
  }

  /**
   * validateAll: every check runs and updates its indicator; only when none fails is the form
   * data collected and saved with `timestamp` (saveAllFormData) and the form submitted. The alert
   * and the scroll to the first visible indicator are not part of this model.
   */
  method ValidateAll(parseFloat: ParseFloat, page: Page, store: Store, timestamp: string)
    returns (submitted: bool, after: Page, saved: Store)
    ensures submitted <==> AllPass(parseFloat, page, SubmissionChecks())
    ensures after == page.(errors := after.errors) && after.errors.Keys == page.errors.Keys
    ensures forall i :: 0 <= i < |SubmissionChecks()| && LastWriter(page, SubmissionChecks(), i, |SubmissionChecks()|) ==>
      after.errors[SubmissionChecks()[i].errorId] == !Passes(parseFloat, page, SubmissionChecks()[i])
    ensures forall id :: id in page.errors && !Written(page, SubmissionChecks(), id, |SubmissionChecks()|) ==> after.errors[id] == page.errors[id]
    ensures submitted ==> IsSnapshot(store, CollectFormData(after), timestamp, saved)
    ensures !submitted ==> saved == store
  {
    var checks := SubmissionChecks();
    submitted, after := RunChecks(parseFloat, page, checks);
    if submitted {
      saved := SaveAllFormData(store, CollectFormData(after), timestamp);
    } else {
      saved := store;
    }
  }

  // ---------------------------------------------------------------------------------------
  // The per-field rules run on change and on input

  /**
   * What a listener is called for: a radio of group `name` newly checked with value `value`, a
   * select changed, or a text or number input edited.
   */
  datatype Event = RadioChanged(name: string, value: string) | SelectChanged(name: string) | TextInput(name: string)

  /** The element that fires the event is on the page; a changed radio is checked. */
  predicate OnPage(page: Page, e: Event) {
    match e
    case RadioChanged(n, v) => n in page.radios && exists i :: 0 <= i < |page.radios[n]| && page.radios[n][i].checked && page.radios[n][i].value == v
    case SelectChanged(n) => n in page.selects
    case TextInput(n) => n in page.inputs
  }

  /** this.value of the element that fires the event. */
  function EventValue(page: Page, e: Event): string
    requires OnPage(page, e)
  {
    match e
    case RadioChanged(_, v) => v
    case SelectChanged(n) => page.selects[n].value
    case TextInput(n) => page.inputs[n]
  }

  /**
   * The check a listener runs, with the indicator "<name>-error": radios and selects are
   * required, and of the text and number inputs only anonymous-id, age and grades are checked.
   */
  function ReactiveCheck(e: Event): (r: Option<Check>)
    ensures r.None? <==> e.TextInput? && e.name != "anonymous-id" && e.name != "age" && e.name != "grades"
    ensures r.Some? ==> r.value.name == e.name && r.value.errorId == e.name + "-error"
    ensures r.Some? ==> (r.value.RequiredRadio? <==> e.RadioChanged?) && (r.value.RequiredSelect? <==> e.SelectChanged?)
  {
    match e
    case RadioChanged(n, _) => Some(RequiredRadio(n, n + "-error"))
    case SelectChanged(n) => Some(RequiredSelect(n, n + "-error"))
    case TextInput(n) =>
      if n == "anonymous-id" then Some(TextLength(n, n + "-error", 3, 20))
      else if n == "age" then Some(NumberRange(n, n + "-error", 1.0, 120.0))
      else if n == "grades" then Some(NumberRange(n, n + "-error", 0.0, 20.0))
      else None
  }

  /** The store and the page after a listener has run. */
  datatype Reaction = Reaction(store: Store, page: Page)

  /** A listener: save the element's value with saveAnswerToStorage, then run its check if it has one. */
  function React(parseFloat: ParseFloat, check: Event -> Option<Check>, page: Page, store: Store, e: Event): (r: Reaction)
    requires OnPage(page, e)
    ensures EventValue(page, e) != "" ==> r.store == store[e.name := EventValue(page, e)]
    ensures EventValue(page, e) == "" ==> r.store == store
    ensures check(e).None? ==> r.page == page
    ensures check(e).Some? ==> r.page == Reported(parseFloat, page, check(e).value)
  {
    var saved := SaveAnswerToStorage(store, e.name, Some(EventValue(page, e)));
    match check(e)
    case None => Reaction(saved, page)
    case Some(c) => Reaction(saved, Run(parseFloat, page, c).page)
  }

  /** The listeners as the script installs them. */
  function OnEvent(parseFloat: ParseFloat, page: Page, store: Store, e: Event): (r: Reaction)
    requires OnPage(page, e)
    ensures r.page == page.(errors := r.page.errors) && r.page.errors.Keys == page.errors.Keys
    ensures forall id :: id in page.errors && id != e.name + "-error" ==> r.page.errors[id] == page.errors[id]
    ensures EventValue(page, e) != "" ==> r.store.Keys == store.Keys + {e.name} && r.store[e.name] == EventValue(page, e)
    ensures forall k :: k in store && (k != e.name || EventValue(page, e) == "") ==> k in r.store && r.store[k] == store[k]
  {
    React(parseFloat, ReactiveCheck, page, store, e)
  }

  /** A radio change always hides its group's indicator "<name>-error". */
  lemma RadioChangeHidesIndicator(parseFloat: ParseFloat, page: Page, store: Store, name: string, value: string)
    requires OnPage(page, RadioChanged(name, value)) && name + "-error" in page.errors
    ensures !OnEvent(parseFloat, page, store, RadioChanged(name, value)).page.errors[name + "-error"]
  {
  }

  /**
   * Emptying a text input does not remove its stored answer, so the previous non-empty value is
   * what the next load puts back.
   */
  lemma ClearedInputComesBack(parseFloat: ParseFloat, page: Page, store: Store, name: string)
    requires name in page.inputs && page.inputs[name] == "" && HasAnswer(store, name)
    ensures var r := OnEvent(parseFloat, page, store, TextInput(name));
      LoadSavedAnswers(r.page, r.store).inputs[name] == store[name]
  {
  }

  /**
   * The text and number inputs the listeners check are checked with the bounds and indicators
   * the submission uses: anonymous-id 3..20, age 1..120, grades 0..20.
   */
  lemma ReactiveBoundsMatchSubmission()
    ensures ReactiveCheck(TextInput("anonymous-id")) == Some(ScalarChecks[0])
    ensures ReactiveCheck(TextInput("age")) == Some(ScalarChecks[2])
    ensures ReactiveCheck(TextInput("grades")) == Some(ScalarChecks[6])
  {
    ScalarIdsFollowConvention();
  }

  /** Every required radio group of the list has the indicator "<group>-error". */
  predicate ConventionalRadioIds(checks: seq<Check>) {
    forall i :: 0 <= i < |checks| && checks[i].RequiredRadio? ==> checks[i].errorId == checks[i].name + "-error"
  }

  lemma ConventionalConcat(a: seq<Check>, b: seq<Check>)
    requires ConventionalRadioIds(a) && ConventionalRadioIds(b)
    ensures ConventionalRadioIds(a + b)
  {
    forall i | 0 <= i < |a + b| && (a + b)[i].RequiredRadio?
      ensures (a + b)[i].errorId == (a + b)[i].name + "-error"
    {
      if i < |a| {
        assert (a + b)[i] == a[i];
      } else {
        assert (a + b)[i] == b[i - |a|];
      }
    }
  }

  /** The indicator ids validateAll writes by hand follow "<name>-error", except the select's "eco-error". */
  lemma ScalarIdsFollowConvention()
    ensures ConventionalRadioIds(ScalarChecks)
    ensures forall i :: 0 <= i < |ScalarChecks| && ScalarChecks[i].name != "economic-situation" ==>
      ScalarChecks[i].errorId == ScalarChecks[i].name + "-error"
  {
    assert "anonymous-id" + "-error" == "anonymous-id-error";
    assert "gender" + "-error" == "gender-error";
    assert "age" + "-error" == "age-error";
    assert "class-year" + "-error" == "class-year-error";
    assert "study-field" + "-error" == "study-field-error";
    assert "grades" + "-error" == "grades-error";
    assert "self-confidence" + "-error" == "self-confidence-error";
    assert "stress" + "-error" == "stress-error";
    assert "well-being" + "-error" == "well-being-error";
    assert "knowledge-durability" + "-error" == "knowledge-durability-error";
    assert "cheating" + "-error" == "cheating-error";
  }

  /** The checks of the form validateAll has, whatever the group validators' groups. */
  lemma ListIdsFollowConvention(groups: seq<string>)
    ensures ConventionalRadioIds(ScalarChecks + RadioChecks(groups) + CapChecks)
  {
    ScalarIdsFollowConvention();
    var r := RadioChecks(groups);
    assert ConventionalRadioIds(r);
    ConventionalConcat(ScalarChecks, r);
    ConventionalConcat(ScalarChecks + r, CapChecks);
  }

  lemma SubmissionIdsFollowConvention()
    ensures ConventionalRadioIds(SubmissionChecks())
  {
    ListIdsFollowConvention(AllGroups());
  }

  /** Every radio group the submission requires is checked on change with the submission's own check. */
  lemma ReactiveRadiosMatchSubmission(i: nat, value: string)
    requires i < |SubmissionChecks()| && SubmissionChecks()[i].RequiredRadio?
    ensures ReactiveCheck(RadioChanged(SubmissionChecks()[i].name, value)) == Some(SubmissionChecks()[i])
  {
    SubmissionIdsFollowConvention();
  }

  /**
   * As written, the select listener validates "economic-situation" against the indicator
   * "economic-situation-error", while the submission uses "eco-error" for the same select.
   */
  lemma EconomicSituationIndicatorsDiffer()
    ensures ReactiveCheck(SelectChanged("economic-situation")) == Some(RequiredSelect("economic-situation", "economic-situation-error"))
    ensures ScalarChecks[3] == RequiredSelect("economic-situation", "eco-error")
  {
    assert "economic-situation" + "-error" == "economic-situation-error";
  }

  /**
   * So when the page has the submission's indicator, choosing an economic situation after a
   * failed submission leaves "eco-error" shown although the field now passes; and when the page
   * has the listener's indicator instead, a submission with no economic situation shows none.
   */
  lemma StaleEconomicSituationIndicator(parseFloat: ParseFloat, page: Page, store: Store)
    requires "economic-situation" in page.selects && page.selects["economic-situation"].value != ""
    requires "eco-error" in page.errors && page.errors["eco-error"]
    ensures Passes(parseFloat, page, ScalarChecks[3])
    ensures OnEvent(parseFloat, page, store, SelectChanged("economic-situation")).page.errors["eco-error"]
  {
  }

  lemma MissingEconomicSituationUnreported(parseFloat: ParseFloat, page: Page)
    requires "economic-situation" in page.selects && page.selects["economic-situation"].value == ""
    requires "eco-error" !in page.errors
    ensures !Passes(parseFloat, page, ScalarChecks[3])
    ensures Run(parseFloat, page, ScalarChecks[3]).page == page
  {
  }

  /** The listener's check with the indicator ids the submission uses: "eco-error" for the select. */
  function ReactiveCheckCorrected(e: Event): Option<Check> {
    match e
    case SelectChanged(n) =>
      if n == "economic-situation" then Some(RequiredSelect(n, "eco-error")) else Some(RequiredSelect(n, n + "-error"))
    case _ => ReactiveCheck(e)
  }

  function OnEventCorrected(parseFloat: ParseFloat, page: Page, store: Store, e: Event): Reaction
    requires OnPage(page, e)
  {
    React(parseFloat, ReactiveCheckCorrected, page, store, e)
  }

  /**
   * With the corrected ids, every field the submission lists by hand and a listener checks is
   * checked on change exactly as the submission checks it.
   */
  lemma CorrectedReactiveMatchesSubmission(i: nat, value: string)
    requires i < |ScalarChecks|
    ensures ScalarChecks[i].RequiredRadio? ==> ReactiveCheckCorrected(RadioChanged(ScalarChecks[i].name, value)) == Some(ScalarChecks[i])
    ensures ScalarChecks[i].RequiredSelect? ==> ReactiveCheckCorrected(SelectChanged(ScalarChecks[i].name)) == Some(ScalarChecks[i])
    ensures ScalarChecks[i].TextLength? || ScalarChecks[i].NumberRange? ==>
      ReactiveCheckCorrected(TextInput(ScalarChecks[i].name)) == Some(ScalarChecks[i])
  {
    ScalarIdsFollowConvention();
  }

  /** With the corrected ids, choosing an economic situation hides the indicator a failed submission showed. */
  lemma CorrectedSelectClearsIndicator(parseFloat: ParseFloat, page: Page, store: Store)
    requires "economic-situation" in page.selects && page.selects["economic-situation"].value != ""
    requires "eco-error" in page.errors
    ensures !OnEventCorrected(parseFloat, page, store, SelectChanged("economic-situation")).page.errors["eco-error"]
  {
  }
}
