/**
 * The server's copy of the learning-style scoring (app.py): the same four category lists under the
 * form's underscore names, Python's int() on each submitted answer, Python's round on each mean,
 * the first-maximum main style, and the error path a non-integer answer sends a submission down.
 */
module Server {
  import opened Wrappers
  import opened Text
  import opened PyNumber
  import opened LearningStyles
  import Results

  /** form_data as submit_test builds it, restricted to fields that are not None. */
  type FormData = map<string, string>

  /** The ValueError int() raises, carrying the text it could not read. */
  datatype ValueError = ValueError(text: string)

  const MeaningVars: seq<string> := ["ils_act1", "ils_act2", "ils_act6", "ils_act7", "ils_mot1", "ils_mot6"]
  const ReproductionVars: seq<string> := ["ils_act3", "ils_act4", "ils_act8", "ils_act9", "ils_mot2", "ils_mot7"]
  const ApplicationVars: seq<string> := ["ils_act5", "ils_mot3", "ils_mot7", "ils_mot9"]
  const UndirectedVars: seq<string> := ["ils_act10", "ils_mot4", "ils_mot5", "ils_mot10", "ils_mot8"]

  function Vars(st: Style): seq<string> {
    match st
    case Meaning => MeaningVars
    case Reproduction => ReproductionVars
    case Application => ApplicationVars
    case Undirected => UndirectedVars
  }

  /** The server name of a browser field: every '-' becomes '_' ("ils-act1" is "ils_act1"). */
  function Underscored(s: string): (r: string)
    ensures |r| == |s|
    ensures forall i :: 0 <= i < |s| ==> r[i] == (if s[i] == '-' then '_' else s[i])
  {
    seq(|s|, i requires 0 <= i < |s| => if s[i] == '-' then '_' else s[i])
  }

  /** The server's category lists are the browser's, field for field, under the server names. */
  lemma CategoryListsMatchBrowser(st: Style)
    ensures |Vars(st)| == |Results.Vars(st)|
    ensures forall i :: 0 <= i < |Vars(st)| ==> Vars(st)[i] == Underscored(Results.Vars(st)[i])
  {
    match st
    case Meaning => MeaningListMatches();
    case Reproduction => ReproductionListMatches();
    case Application => ApplicationListMatches();
    case Undirected => UndirectedListMatches();
  }

  lemma MeaningListMatches()
    ensures forall i :: 0 <= i < |MeaningVars| ==> MeaningVars[i] == Underscored(Results.MeaningVars[i])
  {
  }

  lemma ReproductionListMatches()
    ensures forall i :: 0 <= i < |ReproductionVars| ==> ReproductionVars[i] == Underscored(Results.ReproductionVars[i])
  {
  }

  lemma ApplicationListMatches()
    ensures forall i :: 0 <= i < |ApplicationVars| ==> ApplicationVars[i] == Underscored(Results.ApplicationVars[i])
  {
  }

  lemma UndirectedListMatches()
    ensures forall i :: 0 <= i < |UndirectedVars| ==> UndirectedVars[i] == Underscored(Results.UndirectedVars[i])
  {
  }

  /** normalize_score: 0 for None, else ((int(value) - 1) / 4) * 100, raising where int() does. */
  function NormalizeScore(value: Option<string>): (r: Result<int, ValueError>)
    ensures value.None? ==> r == Success(0)
    ensures value.Some? ==> (r.Failure? <==> Int(value.value).None?)
    ensures value.Some? && r.Success? ==> r.value == Normalise(Int(value.value).value)
  {
    match value
    case None => Success(0)
    case Some(s) =>
      match Int(s)
      case None => Failure(ValueError(s))
      case Some(n) => Success(Normalise(n))
  }

  /** A present field whose text int() cannot read. */
  predicate Unreadable(form: FormData, k: string) {
    k in form && Int(form[k]).None?
  }

  /** The error names the text of a present field that int() cannot read. */
  predicate RaisedOnUnreadable(form: FormData, e: ValueError) {
    exists k :: k in form && Unreadable(form, k) && e == ValueError(form[k])
  }

  /**
   * The list comprehension of one category: int() of every present field, in list order;
   * the first unreadable one raises.
   */
  function CategoryValues(form: FormData, vars: seq<string>): (r: Result<seq<int>, ValueError>)
    ensures r.Success? ==> |r.value| <= |vars|
    ensures r.Failure? ==> RaisedOnUnreadable(form, r.error)
  {
    if vars == [] then Success([])
    else
      var rest := CategoryValues(form, vars[1..]);
      if vars[0] !in form then rest
      else match NormalizeScore(Some(form[vars[0]]))
        case Failure(e) => Failure(e)
        case Success(_) =>
          match rest
          case Failure(e) => Failure(e)
          case Success(vals) => Success([Int(form[vars[0]]).value] + vals)
  }

  /** A category raises exactly when one of its present fields is unreadable; else it reads at most one value per field. */
  lemma CategoryRaisesOnUnreadable(form: FormData, vars: seq<string>)
    ensures CategoryValues(form, vars).Failure? <==> exists i :: 0 <= i < |vars| && Unreadable(form, vars[i])
    ensures CategoryValues(form, vars).Success? ==> |CategoryValues(form, vars).value| <= |vars|
  {
    if CategoryValues(form, vars).Failure? {
      FailedCategoryHasUnreadable(form, vars);
    } else {
      forall i | 0 <= i < |vars| ensures !Unreadable(form, vars[i]) {
        if Unreadable(form, vars[i]) {
          UnreadableFailsCategory(form, vars, i);
        }
      }
    }
  }

  lemma {:induction false} UnreadableFailsCategory(form: FormData, vars: seq<string>, i: nat)
    requires i < |vars| && Unreadable(form, vars[i])
    ensures CategoryValues(form, vars).Failure?
  {
    if i == 0 {
      assert NormalizeScore(Some(form[vars[0]])).Failure?;
    } else {
      assert vars[1..][i - 1] == vars[i];
      UnreadableFailsCategory(form, vars[1..], i - 1);
    }
  }

  lemma {:induction false} FailedCategoryHasUnreadable(form: FormData, vars: seq<string>)
    requires CategoryValues(form, vars).Failure?
    ensures exists i :: 0 <= i < |vars| && Unreadable(form, vars[i])
  {
    assert vars != [];
    if Unreadable(form, vars[0]) {
      assert 0 < |vars| && Unreadable(form, vars[0]);
    } else {
      var tail := vars[1..];
      assert vars[0] in form ==> NormalizeScore(Some(form[vars[0]])).Success?;
      assert CategoryValues(form, tail).Failure?;
      FailedCategoryHasUnreadable(form, tail);
      var i :| 0 <= i < |tail| && Unreadable(form, tail[i]);
      assert vars[i + 1] == tail[i];
    }
  }

  /** The category reads its values and its score is the rounded mean of them. */
  predicate RoundsCategory(form: FormData, mode: RoundingMode, vars: seq<string>, score: int) {
    CategoryValues(form, vars).Success? && IsRoundedMean(CategoryValues(form, vars).value, mode, score)
  }

  /** Every category reads its values and each score is the rounded mean of its category's values. */
  predicate RoundsCategoryMeans(form: FormData, mode: RoundingMode, s: Scores) {
    && RoundsCategory(form, mode, Vars(Meaning), s.meaning)
    && RoundsCategory(form, mode, Vars(Reproduction), s.reproduction)
    && RoundsCategory(form, mode, Vars(Application), s.application)
    && RoundsCategory(form, mode, Vars(Undirected), s.undirected)
  }

  /** calculate_learning_style_scores with a chosen rounding of the four means. */
  function ScoresWith(form: FormData, mode: RoundingMode): (r: Result<Scores, ValueError>)
    ensures r.Success? ==> RoundsCategoryMeans(form, mode, r.value)
    ensures r.Failure? ==> RaisedOnUnreadable(form, r.error)
  {
    var m := CategoryValues(form, Vars(Meaning));
    var r := CategoryValues(form, Vars(Reproduction));
    var a := CategoryValues(form, Vars(Application));
    var u := CategoryValues(form, Vars(Undirected));
    if m.Failure? then Failure(m.error)
    else if r.Failure? then Failure(r.error)
    else if a.Failure? then Failure(a.error)
    else if u.Failure? then Failure(u.error)
    else Success(Scores(CategoryScore(m.value, mode), CategoryScore(r.value, mode),
                        CategoryScore(a.value, mode), CategoryScore(u.value, mode)))
  }

  /** calculate_learning_style_scores as written: Python's round, halves to even. */
  function CalculateLearningStyleScores(form: FormData): (r: Result<Scores, ValueError>)
    ensures r.Success? ==> RoundsCategoryMeans(form, HalfEven, r.value)
    ensures r.Failure? ==> RaisedOnUnreadable(form, r.error)
  {
    ScoresWith(form, HalfEven)
  }

  /** The same computation rounding halves up, as the browser does. */
  function CalculateLearningStyleScoresHalfUp(form: FormData): (r: Result<Scores, ValueError>)
    ensures r.Success? ==> RoundsCategoryMeans(form, HalfUp, r.value)
    ensures r.Failure? ==> RaisedOnUnreadable(form, r.error)
  {
    ScoresWith(form, HalfUp)
  }

  /** Some present field of some category is not an integer. */
  predicate AnyUnreadable(form: FormData) {
    exists st: Style, i :: 0 <= i < |Vars(st)| && Unreadable(form, Vars(st)[i])
  }

  /** Scoring raises exactly when some present ILS field is not an integer, whatever the rounding. */
  lemma ScoringRaisesOnUnreadable(form: FormData, mode: RoundingMode)
    ensures ScoresWith(form, mode).Failure? <==> AnyUnreadable(form)
  {
    ScoringRaisesOnFailedCategory(form, mode);
    forall st: Style ensures CategoryValues(form, Vars(st)).Failure? <==> exists i :: 0 <= i < |Vars(st)| && Unreadable(form, Vars(st)[i]) {
      CategoryRaisesOnUnreadable(form, Vars(st));
    }
    if AnyUnreadable(form) {
      var st: Style, i :| 0 <= i < |Vars(st)| && Unreadable(form, Vars(st)[i]);
      assert CategoryValues(form, Vars(st)).Failure?;
      match st
      case Meaning =>
      case Reproduction =>
      case Application =>
      case Undirected =>
    } else {
      forall st: Style ensures CategoryValues(form, Vars(st)).Success? {
        assert !exists i :: 0 <= i < |Vars(st)| && Unreadable(form, Vars(st)[i]);
      }
      assert CategoryValues(form, Vars(Meaning)).Success? && CategoryValues(form, Vars(Reproduction)).Success?;
      assert CategoryValues(form, Vars(Application)).Success? && CategoryValues(form, Vars(Undirected)).Success?;
    }
  }

  lemma ScoringRaisesOnFailedCategory(form: FormData, mode: RoundingMode)
    ensures ScoresWith(form, mode).Failure? <==>
      || CategoryValues(form, Vars(Meaning)).Failure? || CategoryValues(form, Vars(Reproduction)).Failure?
      || CategoryValues(form, Vars(Application)).Failure? || CategoryValues(form, Vars(Undirected)).Failure?
  {
  }

  /** The names get_main_learning_style returns. */
  function StyleName(st: Style): string {
    match st
    case Meaning => "Meaning-Oriented"
    case Reproduction => "Reproduction-Oriented"
    case Application => "Application-Oriented"
    case Undirected => "Undirected"
  }

  /** get_main_learning_style: Python's max keeps the first of several equal maxima. */
  function GetMainLearningStyle(scores: Scores): (name: string)
    ensures forall st: Style :: name == StyleName(st) <==> IsMainStyle(scores, st)
  {
    var k := FirstMax(ScoreList(scores));
    var st := Order[k];
    assert IsMainStyle(scores, st);
    forall o: Style | IsMainStyle(scores, o) ensures o == st {
      MainStyleIsUnique(scores, o);
      MainStyleIsUnique(scores, st);
    }
    StyleName(st)
  }

  /** What submit_test answers: the rendered results, or a flash message and a redirect. */
  datatype Response = ResultsPage(scores: Scores, mainStyle: string) | RedirectToStart(flash: string)

  const SubmitErrorMessage := "There was an error submitting your test. Please try again."

  /** submit_test, from form_data on: score, pick the main style, or take the except branch. */
  function SubmitTest(form: FormData): (r: Response)
    ensures r.RedirectToStart? <==> AnyUnreadable(form)
    ensures r.RedirectToStart? ==> r.flash == SubmitErrorMessage
    ensures r.ResultsPage? ==> CalculateLearningStyleScores(form) == Success(r.scores)
    ensures r.ResultsPage? ==> forall st: Style :: r.mainStyle == StyleName(st) <==> IsMainStyle(r.scores, st)
  {
    ScoringRaisesOnUnreadable(form, HalfEven);
    match CalculateLearningStyleScores(form)
    case Failure(_) => RedirectToStart(SubmitErrorMessage)
    case Success(scores) => ResultsPage(scores, GetMainLearningStyle(scores))
  }
}

/**
 * How the server's scores relate to the browser's when both read the same answers.
 */
module ServerAgreement {
  import opened Wrappers
  import opened Text
  import JsNumber
  import opened PyNumber
  import opened LearningStyles
  import Results
  import opened Server

  /** The browser key ck and the form field sk carry the same answer. */
  predicate KeyAgrees(answers: Results.Answers, form: FormData, ck: string, sk: string) {
    (Results.Numeric(answers, ck) <==> sk in form)
    && (sk in form ==> Int(form[sk]) == answers[ck])
  }

  /** Every ILS answer the browser can use is submitted under its server name, and nothing else is. */
  ghost predicate Corresponds(answers: Results.Answers, form: FormData) {
    forall k :: Results.IsIlsKey(k) ==> KeyAgrees(answers, form, k, Underscored(k))
  }

  /** Over agreeing key lists the server reads exactly the browser's present answers. */
  lemma {:induction false} CategoryValuesOfAgreeing(answers: Results.Answers, form: FormData,
                                                    cvars: seq<string>, svars: seq<string>)
    requires |cvars| == |svars|
    requires forall i :: 0 <= i < |cvars| ==> KeyAgrees(answers, form, cvars[i], svars[i])
    ensures CategoryValues(form, svars) == Success(Results.Present(answers, cvars))
  {
    if cvars != [] {
      assert KeyAgrees(answers, form, cvars[0], svars[0]);
      forall i | 0 <= i < |cvars[1..]| ensures KeyAgrees(answers, form, cvars[1..][i], svars[1..][i]) {
        assert cvars[1..][i] == cvars[i + 1] && svars[1..][i] == svars[i + 1];
      }
      CategoryValuesOfAgreeing(answers, form, cvars[1..], svars[1..]);
      var rest := Results.Present(answers, cvars[1..]);
      if svars[0] in form {
        assert Int(form[svars[0]]) == answers[cvars[0]] == Some(answers[cvars[0]].value);
        assert Results.Present(answers, cvars) == [answers[cvars[0]].value] + rest;
      } else {
        assert Results.Present(answers, cvars) == rest;
      }
    }
  }

  lemma CategoryOfCorresponding(answers: Results.Answers, form: FormData, st: Style)
    requires Corresponds(answers, form)
    ensures CategoryValues(form, Vars(st)) == Success(Results.Present(answers, Results.Vars(st)))
  {
    CategoryListsMatchBrowser(st);
    Results.CategoriesCoverIlsKeys();
    forall i | 0 <= i < |Results.Vars(st)|
      ensures KeyAgrees(answers, form, Results.Vars(st)[i], Vars(st)[i])
    {
      assert Results.IsIlsKey(Results.Vars(st)[i]);
    }
    CategoryValuesOfAgreeing(answers, form, Results.Vars(st), Vars(st));
  }

  /** On corresponding answers the server rounds the browser's category means, with either rule. */
  lemma ScoresOfCorresponding(answers: Results.Answers, form: FormData, mode: RoundingMode)
    requires Corresponds(answers, form)
    ensures ScoresWith(form, mode) == Success(Scores(
      CategoryScore(Results.Present(answers, Results.MeaningVars), mode),
      CategoryScore(Results.Present(answers, Results.ReproductionVars), mode),
      CategoryScore(Results.Present(answers, Results.ApplicationVars), mode),
      CategoryScore(Results.Present(answers, Results.UndirectedVars), mode)))
  {
    CategoryOfCorresponding(answers, form, Meaning);
    CategoryOfCorresponding(answers, form, Reproduction);
    CategoryOfCorresponding(answers, form, Application);
    CategoryOfCorresponding(answers, form, Undirected);
  }

  /** Rounding halves up, the server computes the browser's four scores from the same answers. */
  lemma CorrectedServerMatchesClient(answers: Results.Answers, form: FormData)
    requires Corresponds(answers, form)
    ensures CalculateLearningStyleScoresHalfUp(form) == Success(Results.CalculateLearningStyleScores(answers))
  {
    ScoresOfCorresponding(answers, form, HalfUp);
  }

  /** As written, the server agrees with the browser whenever no category mean is a half. */
  lemma AsWrittenMatchesClientOffHalfway(answers: Results.Answers, form: FormData)
    requires Corresponds(answers, form)
    requires !HasHalfwayMean(Results.Present(answers, Results.MeaningVars))
    requires !HasHalfwayMean(Results.Present(answers, Results.ReproductionVars))
    requires !HasHalfwayMean(Results.Present(answers, Results.ApplicationVars))
    requires !HasHalfwayMean(Results.Present(answers, Results.UndirectedVars))
    ensures CalculateLearningStyleScores(form) == Success(Results.CalculateLearningStyleScores(answers))
  {
    ScoresOfCorresponding(answers, form, HalfEven);
    ModesAgreeOffHalfway(Results.Present(answers, Results.MeaningVars));
    ModesAgreeOffHalfway(Results.Present(answers, Results.ReproductionVars));
    ModesAgreeOffHalfway(Results.Present(answers, Results.ApplicationVars));
    ModesAgreeOffHalfway(Results.Present(answers, Results.UndirectedVars));
  }

  /**
   * Where the two parsers part: a stored "n.f" counts as n in the browser, while the same text
   * submitted to the server makes int() raise.
   */
  lemma ParsersDisagreeOnFractions(n: int, f: string)
    requires forall i :: 0 <= i < |f| ==> IsDecimalDigit(f[i])
    ensures JsNumber.ParseInt(IntToString(n) + "." + f) == Some(n)
    ensures Int(IntToString(n) + "." + f) == None
  {
    ParseIntStopsAtPoint(n, f);
    IntRejectsFraction(n, f);
  }

  lemma ParseIntStopsAtPoint(n: int, f: string)
    ensures JsNumber.ParseInt(IntToString(n) + "." + f) == Some(n)
  {
    var s := IntToString(n);
    var t := "." + f;
    assert s + "." + f == s + t;
    assert "" + s + t == s + t;
    assert t[0] == '.';
    JsNumber.ParseIntReadsLeadingInteger("", n, t);
  }

  /** On a plain decimal numeral the two parsers agree. */
  lemma ParsersAgreeOnDecimals(n: int)
    ensures JsNumber.ParseInt(IntToString(n)) == Int(IntToString(n)) == Some(n)
  {
    JsNumber.ParseIntRoundTrip(n);
    IntRoundTrip(n);
  }
}

/**
 * A submission whose application mean is exactly half-way, scored by the browser and by the server.
 */
module RoundingExample {
  import opened Wrappers
  import opened LearningStyles
  import Results
  import opened Server
  import opened ServerAgreement

  /** Only two ILS answers: act5 = 2 and mot3 = 1, both application questions. */
  predicate IsExampleAnswers(answers: Results.Answers) {
    answers == map["ils-act5" := Some(2), "ils-mot3" := Some(1)]
  }

  lemma {:induction false} AbsentKeysGiveNoAnswers(answers: Results.Answers, vars: seq<string>)
    requires forall i :: 0 <= i < |vars| ==> vars[i] !in answers
    ensures Results.Present(answers, vars) == []
  {
    if vars != [] {
      assert forall i :: 0 <= i < |vars[1..]| ==> vars[1..][i] == vars[i + 1];
      AbsentKeysGiveNoAnswers(answers, vars[1..]);
    }
  }

  lemma ExampleApplicationAnswers(answers: Results.Answers)
    requires IsExampleAnswers(answers)
    ensures Results.Present(answers, Results.ApplicationVars) == [2, 1]
  {
    var v1 := Results.ApplicationVars[1..];
    AbsentKeysGiveNoAnswers(answers, v1[1..]);
    assert v1[0] == "ils-mot3" && answers[v1[0]] == Some(1);
    assert [1] + [] == [1];
    assert Results.Present(answers, v1) == [1];
    assert Results.ApplicationVars[0] == "ils-act5" && answers[Results.ApplicationVars[0]] == Some(2);
    assert [2] + [1] == [2, 1];
  }

  lemma ExampleCategories(answers: Results.Answers)
    requires IsExampleAnswers(answers)
    ensures Results.Present(answers, Results.MeaningVars) == []
    ensures Results.Present(answers, Results.ReproductionVars) == []
    ensures Results.Present(answers, Results.UndirectedVars) == []
    ensures Results.Present(answers, Results.ApplicationVars) == [2, 1]
  {
    AbsentKeysGiveNoAnswers(answers, Results.MeaningVars);
    AbsentKeysGiveNoAnswers(answers, Results.ReproductionVars);
    AbsentKeysGiveNoAnswers(answers, Results.UndirectedVars);
    ExampleApplicationAnswers(answers);
  }

  /**
   * The two answers normalise to 25 and 0, a mean of 12.5: the browser shows 13, the server as
   * written shows 12 for the same submission, and the server rounding halves up shows 13.
   */
  lemma HalfwayApplicationScoresDiffer(answers: Results.Answers, form: FormData)
    requires IsExampleAnswers(answers) && Corresponds(answers, form)
    ensures Results.CalculateLearningStyleScores(answers) == Scores(0, 0, 13, 0)
    ensures CalculateLearningStyleScores(form) == Success(Scores(0, 0, 12, 0))
    ensures CalculateLearningStyleScoresHalfUp(form) == Success(Scores(0, 0, 13, 0))
  {
    ExampleCategories(answers);
    ScoresOfCorresponding(answers, form, HalfEven);
    ScoresOfCorresponding(answers, form, HalfUp);
    assert NormalisedSum([2, 1]) == 25;
  }
}
