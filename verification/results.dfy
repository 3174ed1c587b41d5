/**
 * The results page script: reads the twenty ILS answers back from the browser store, scores the
 * four learning-style categories, picks the main style, and clears the stored answers on request.
 */
module Results {
  import opened Wrappers
  import opened Text
  import opened JsNumber
  import opened LearningStyles

  /** The browser's localStorage: string keys to string values. */
  type Store = map<string, string>

  /** What getILSAnswersFromStorage returns: parseInt of each stored answer (None for NaN). */
  type Answers = map<string, Option<int>>

  const ResultsKey := "learningStyleResults"
  const NoAnswersMessage := "No ILS answers found. Please complete the questionnaire first."

  /** The storage key `${battery}${i}` of the i-th question of an ILS battery. */
  function IlsKey(battery: string, i: nat): string {
    battery + DecimalString(i)
  }

  const ActKeys: seq<string> := ["ils-act1", "ils-act2", "ils-act3", "ils-act4", "ils-act5",
                                 "ils-act6", "ils-act7", "ils-act8", "ils-act9", "ils-act10"]
  const MotKeys: seq<string> := ["ils-mot1", "ils-mot2", "ils-mot3", "ils-mot4", "ils-mot5",
                                 "ils-mot6", "ils-mot7", "ils-mot8", "ils-mot9", "ils-mot10"]

  /** The two battery templates spell exactly the twenty keys listed above. */
  lemma IlsKeysSpelled()
    ensures forall i :: 1 <= i <= 10 ==> IlsKey("ils-act", i) == ActKeys[i - 1]
    ensures forall i :: 1 <= i <= 10 ==> IlsKey("ils-mot", i) == MotKeys[i - 1]
  {
    assert DecimalString(1) == "1";
    assert DecimalString(10) == "10";
  }

  predicate IsIlsKey(k: string) {
    k in ActKeys || k in MotKeys
  }

  /** The category lists, in the order the script lists their fields. */
  const MeaningVars: seq<string> := ["ils-act1", "ils-act2", "ils-act6", "ils-act7", "ils-mot1", "ils-mot6"]
  const ReproductionVars: seq<string> := ["ils-act3", "ils-act4", "ils-act8", "ils-act9", "ils-mot2", "ils-mot7"]
  const ApplicationVars: seq<string> := ["ils-act5", "ils-mot3", "ils-mot7", "ils-mot9"]
  const UndirectedVars: seq<string> := ["ils-act10", "ils-mot4", "ils-mot5", "ils-mot10", "ils-mot8"]

  function Vars(st: Style): seq<string> {
    match st
    case Meaning => MeaningVars
    case Reproduction => ReproductionVars
    case Application => ApplicationVars
    case Undirected => UndirectedVars
  }

  /** Every category field is one of the twenty ILS keys, and every ILS key feeds some category. */
  lemma CategoriesCoverIlsKeys()
    ensures forall st: Style, i :: 0 <= i < |Vars(st)| ==> IsIlsKey(Vars(st)[i])
    ensures forall k :: IsIlsKey(k) ==> exists st: Style :: k in Vars(st)
  {
    forall k | IsIlsKey(k) ensures exists st: Style :: k in Vars(st) {
      if k in MeaningVars { assert k in Vars(Meaning); }
      else if k in ReproductionVars { assert k in Vars(Reproduction); }
      else if k in ApplicationVars { assert k in Vars(Application); }
      else { assert k in Vars(Undirected); }
    }
    assert forall k :: k in ActKeys ==> k in MeaningVars || k in ReproductionVars || k in ApplicationVars || k in UndirectedVars;
    assert forall k :: k in MotKeys ==> k in MeaningVars || k in ReproductionVars || k in ApplicationVars || k in UndirectedVars;
  }

  /** localStorage.getItem(k) is truthy: stored and not the empty string. */
  predicate HasAnswer(store: Store, k: string) {
    k in store && store[k] != ""
  }

  /** The answer to `k` is a number: present and not NaN. */
  predicate Numeric(answers: Answers, k: string) {
    k in answers && answers[k].Some?
  }

  /** getILSAnswersFromStorage: both ten-question loops, activities first. */
  method GetIlsAnswersFromStorage(store: Store) returns (answers: Answers)
    ensures forall k :: k in answers <==> IsIlsKey(k) && HasAnswer(store, k)
    ensures forall k :: k in answers ==> k in store && answers[k] == ParseInt(store[k])
  {
    IlsKeysSpelled();
    answers := map[];
    for i := 1 to 11
      invariant forall k :: k in answers <==> k in ActKeys[..i - 1] && HasAnswer(store, k)
      invariant forall k :: k in answers ==> HasAnswer(store, k) && answers[k] == ParseInt(store[k])
    {
      var actKey := IlsKey("ils-act", i);
      assert ActKeys[..i] == ActKeys[..i - 1] + [actKey];
      if actKey in store && store[actKey] != "" {
        answers := answers[actKey := ParseInt(store[actKey])];
      }
    }
    for i := 1 to 11
      invariant forall k :: k in answers <==> (k in ActKeys || k in MotKeys[..i - 1]) && HasAnswer(store, k)
      invariant forall k :: k in answers ==> HasAnswer(store, k) && answers[k] == ParseInt(store[k])
    {
      var motKey := IlsKey("ils-mot", i);
      assert MotKeys[..i] == MotKeys[..i - 1] + [motKey];
      if motKey in store && store[motKey] != "" {
        answers := answers[motKey := ParseInt(store[motKey])];
      }
    }
    assert MotKeys[..10] == MotKeys;
  }

  /** The answer map the loops above build, as one definition. */
  function StoredIlsAnswers(store: Store): Answers {
    AnswersFor(store, ActKeys + MotKeys)
  }

  /** parseInt of the stored answer of each key of `keys` that has one. */
  function AnswersFor(store: Store, keys: seq<string>): Answers {
    map k | k in keys && HasAnswer(store, k) :: ParseInt(store[k])
  }

  /** The numeric answers of `vars`, in list order, skipping missing and NaN ones. */
  function Present(answers: Answers, vars: seq<string>): (vals: seq<int>)
    ensures |vals| <= |vars|
  {
    if vars == [] then []
    else (if Numeric(answers, vars[0]) then [answers[vars[0]].value] else []) + Present(answers, vars[1..])
  }

  /** calculateLearningStyleScores: each category's Math.round-ed mean of its present answers. */
  function CalculateLearningStyleScores(answers: Answers): (s: Scores)
    ensures IsRoundedMean(Present(answers, MeaningVars), HalfUp, s.meaning)
    ensures IsRoundedMean(Present(answers, ReproductionVars), HalfUp, s.reproduction)
    ensures IsRoundedMean(Present(answers, ApplicationVars), HalfUp, s.application)
    ensures IsRoundedMean(Present(answers, UndirectedVars), HalfUp, s.undirected)
  {
    Scores(CategoryScore(Present(answers, MeaningVars), HalfUp),
           CategoryScore(Present(answers, ReproductionVars), HalfUp),
           CategoryScore(Present(answers, ApplicationVars), HalfUp),
           CategoryScore(Present(answers, UndirectedVars), HalfUp))
  }

  lemma ScoreOfCategory(answers: Answers, st: Style)
    ensures ScoreOf(CalculateLearningStyleScores(answers), st) == CategoryScore(Present(answers, Vars(st)), HalfUp)
  {
  }

  /** The name the results sentence uses for a style. */
  function StyleName(st: Style): string {
    match st
    case Meaning => "meaning-oriented"
    case Reproduction => "reproduction-oriented"
    case Application => "application-oriented"
    case Undirected => "undirected"
  }

  /** What the results page shows: the error message, or the four scores and the main style. */
  datatype Display = NoAnswersError(message: string) | Report(scores: Scores, main: Style)

  /** calculateAndDisplayResults, without the DOM writes. */
  method CalculateAndDisplayResults(store: Store) returns (d: Display)
    ensures d.NoAnswersError? <==> forall i :: 0 <= i < |ActKeys + MotKeys| ==> !HasAnswer(store, (ActKeys + MotKeys)[i])
    ensures d.NoAnswersError? ==> d.message == NoAnswersMessage
    ensures d.Report? ==> d.scores == CalculateLearningStyleScores(StoredIlsAnswers(store))
    ensures d.Report? ==> IsMainStyle(d.scores, d.main)
  {
    var answers := GetIlsAnswersFromStorage(store);
    assert answers == StoredIlsAnswers(store);
    if |answers| == 0 {
      forall i | 0 <= i < |ActKeys + MotKeys| ensures !HasAnswer(store, (ActKeys + MotKeys)[i]) {
        var k := (ActKeys + MotKeys)[i];
        assert k !in answers;
      }
      return NoAnswersError(NoAnswersMessage);
    }
    var k :| k in answers;
    assert k in ActKeys + MotKeys;
    var scores := CalculateLearningStyleScores(answers);
    return Report(scores, MainStyle(scores));
  }

  /** clearStoredResults: drops the twenty ILS answers and the saved results, nothing else. */
  method ClearStoredResults(store: Store) returns (cleared: Store)
    ensures forall k :: k in cleared <==> k in store && !IsIlsKey(k) && k != ResultsKey
    ensures forall k :: k in cleared ==> cleared[k] == store[k]
  {
    IlsKeysSpelled();
    cleared := store;
    for i := 1 to 11
      invariant forall k :: k in cleared <==> k in store && k !in ActKeys[..i - 1] && k !in MotKeys[..i - 1]
      invariant forall k :: k in cleared ==> cleared[k] == store[k]
    {
      assert ActKeys[..i] == ActKeys[..i - 1] + [IlsKey("ils-act", i)];
      assert MotKeys[..i] == MotKeys[..i - 1] + [IlsKey("ils-mot", i)];
      cleared := cleared - {IlsKey("ils-act", i)};
      cleared := cleared - {IlsKey("ils-mot", i)};
    }
    assert ActKeys[..10] == ActKeys && MotKeys[..10] == MotKeys;
    cleared := cleared - {ResultsKey};
  }

  /** Two answer maps that agree on which fields of `vars` are numeric, and on their values. */
  predicate SameNumericAnswers(a: Answers, b: Answers, vars: seq<string>) {
    forall i :: 0 <= i < |vars| ==>
      (Numeric(a, vars[i]) <==> Numeric(b, vars[i])) && (Numeric(a, vars[i]) ==> a[vars[i]] == b[vars[i]])
  }

  lemma {:induction false} PresentDependsOnNumericOnly(a: Answers, b: Answers, vars: seq<string>)
    requires SameNumericAnswers(a, b, vars)
    ensures Present(a, vars) == Present(b, vars)
  {
    if vars != [] {
      assert SameNumericAnswers(a, b, vars[1..]) by {
        forall i | 0 <= i < |vars| - 1 ensures vars[1..][i] == vars[i + 1] { }
      }
      PresentDependsOnNumericOnly(a, b, vars[1..]);
    }
  }

  lemma {:induction false} PresentOfNoNumbers(answers: Answers, vars: seq<string>)
    requires forall k :: k in answers ==> answers[k].None?
    ensures Present(answers, vars) == []
  {
    if vars != [] {
      PresentOfNoNumbers(answers, vars[1..]);
    }
  }

  lemma {:induction false} PresentIsLikert(answers: Answers, vars: seq<string>)
    requires forall k :: Numeric(answers, k) ==> 1 <= answers[k].value <= 5
    ensures AllLikert(Present(answers, vars))
  {
    if vars != [] {
      PresentIsLikert(answers, vars[1..]);
      var head := if Numeric(answers, vars[0]) then [answers[vars[0]].value] else [];
      assert Present(answers, vars) == head + Present(answers, vars[1..]);
    }
  }

  lemma {:induction false} PresentOfFullAnswers(answers: Answers, vars: seq<string>)
    requires forall i :: 0 <= i < |vars| ==> Numeric(answers, vars[i])
    ensures |Present(answers, vars)| == |vars|
    ensures forall i :: 0 <= i < |vars| ==> vars[i] in answers && answers[vars[i]] == Some(Present(answers, vars)[i])
  {
    if vars != [] {
      PresentOfFullAnswers(answers, vars[1..]);
    }
  }

  /** With no numeric answer at all (no answer, or only NaN ones) every score is 0, with no error. */
  lemma NoNumbersScoreZero(answers: Answers)
    requires forall k :: k in answers ==> answers[k].None?
    ensures CalculateLearningStyleScores(answers) == Scores(0, 0, 0, 0)
  {
    PresentOfNoNumbers(answers, MeaningVars);
    PresentOfNoNumbers(answers, ReproductionVars);
    PresentOfNoNumbers(answers, ApplicationVars);
    PresentOfNoNumbers(answers, UndirectedVars);
  }

  /** Answers on the 1..5 scale give four scores between 0 and 100. */
  lemma ScoresInRange(answers: Answers)
    requires forall k :: Numeric(answers, k) ==> 1 <= answers[k].value <= 5
    ensures forall st: Style :: 0 <= ScoreOf(CalculateLearningStyleScores(answers), st) <= 100
  {
    forall st: Style ensures 0 <= ScoreOf(CalculateLearningStyleScores(answers), st) <= 100 {
      ScoreOfCategory(answers, st);
      PresentIsLikert(answers, Vars(st));
      CategoryScoreInRange(Present(answers, Vars(st)), HalfUp);
    }
  }

  /** When all twenty answers are v, every category scores exactly the normalised v. */
  lemma UniformAnswers(answers: Answers, v: int)
    requires forall k :: IsIlsKey(k) ==> k in answers && answers[k] == Some(v)
    ensures forall st: Style :: ScoreOf(CalculateLearningStyleScores(answers), st) == Normalise(v)
  {
    CategoriesCoverIlsKeys();
    forall st: Style ensures ScoreOf(CalculateLearningStyleScores(answers), st) == Normalise(v) {
      UniformCategory(answers, v, st);
    }
  }

  lemma UniformCategory(answers: Answers, v: int, st: Style)
    requires forall i :: 0 <= i < |Vars(st)| ==> Vars(st)[i] in answers && answers[Vars(st)[i]] == Some(v)
    ensures ScoreOf(CalculateLearningStyleScores(answers), st) == Normalise(v)
  {
    ScoreOfCategory(answers, st);
    var vals := Present(answers, Vars(st));
    PresentOfFullAnswers(answers, Vars(st));
    assert forall i :: 0 <= i < |vals| ==> vals[i] == v;
    UniformCategoryScore(vals, v, HalfUp);
  }

  /** All twenty answers 3 ("neutral") give 50 in every category. */
  lemma AllNeutralGiveFifty(answers: Answers)
    requires forall k :: IsIlsKey(k) ==> k in answers && answers[k] == Some(3)
    ensures CalculateLearningStyleScores(answers) == Scores(50, 50, 50, 50)
  {
    UniformAnswers(answers, 3);
    assert ScoreOf(CalculateLearningStyleScores(answers), Meaning) == 50;
    assert ScoreOf(CalculateLearningStyleScores(answers), Reproduction) == 50;
    assert ScoreOf(CalculateLearningStyleScores(answers), Application) == 50;
    assert ScoreOf(CalculateLearningStyleScores(answers), Undirected) == 50;
  }

  /** `a` and `b` differ at most in the answer to `k`. */
  ghost predicate AgreeExcept(a: Answers, b: Answers, k: string) {
    forall x :: x != k ==> (x in a <==> x in b) && (x in a ==> a[x] == b[x])
  }

  lemma {:induction false} PresentShift(a: Answers, b: Answers, vars: seq<string>, k: string)
    requires AgreeExcept(a, b, k)
    requires Numeric(a, k) && Numeric(b, k)
    requires multiset(vars)[k] == 1
    ensures |Present(b, vars)| == |Present(a, vars)|
    ensures NormalisedSum(Present(b, vars))
         == NormalisedSum(Present(a, vars)) + Normalise(b[k].value) - Normalise(a[k].value)
  {
    assert vars == [vars[0]] + vars[1..];
    var pa, pb := Present(a, vars[1..]), Present(b, vars[1..]);
    if vars[0] == k {
      assert multiset(vars[1..])[k] == 0;
      assert SameNumericAnswers(a, b, vars[1..]) by {
        forall i | 0 <= i < |vars| - 1 ensures vars[1..][i] != k {
          assert vars[1..][i] in multiset(vars[1..]);
        }
      }
      PresentDependsOnNumericOnly(a, b, vars[1..]);
      assert Present(a, vars) == [a[k].value] + pa;
      assert Present(b, vars) == [b[k].value] + pb;
      assert ([a[k].value] + pa)[1..] == pa;
      assert ([b[k].value] + pb)[1..] == pb;
    } else {
      PresentShift(a, b, vars[1..], k);
      var head := if Numeric(a, vars[0]) then [a[vars[0]].value] else [];
      assert Present(a, vars) == head + pa;
      assert Present(b, vars) == head + pb;
      if head != [] {
        assert (head + pa)[1..] == pa;
        assert (head + pb)[1..] == pb;
      } else {
        assert head + pa == pa;
        assert head + pb == pb;
      }
    }
  }

  lemma AgreeExceptElsewhere(a: Answers, b: Answers, k: string, vars: seq<string>)
    requires AgreeExcept(a, b, k)
    requires k !in vars
    ensures Present(a, vars) == Present(b, vars)
  {
    assert SameNumericAnswers(a, b, vars) by {
      forall i | 0 <= i < |vars| ensures vars[i] != k { }
    }
    PresentDependsOnNumericOnly(a, b, vars);
  }

  /**
   * "ils-mot7" is listed under both reproduction and application: changing that answer alone leaves
   * the meaning and undirected scores as they are, and moves the sums behind the reproduction and
   * application means by the same amount.
   */
  lemma Mot7FeedsTwoCategories(a: Answers, b: Answers)
    requires AgreeExcept(a, b, "ils-mot7")
    ensures CalculateLearningStyleScores(b).meaning == CalculateLearningStyleScores(a).meaning
    ensures CalculateLearningStyleScores(b).undirected == CalculateLearningStyleScores(a).undirected
    ensures Numeric(a, "ils-mot7") && Numeric(b, "ils-mot7") ==>
      && |Present(b, ReproductionVars)| == |Present(a, ReproductionVars)|
      && |Present(b, ApplicationVars)| == |Present(a, ApplicationVars)|
      && NormalisedSum(Present(b, ReproductionVars)) - NormalisedSum(Present(a, ReproductionVars))
         == Normalise(b["ils-mot7"].value) - Normalise(a["ils-mot7"].value)
      && NormalisedSum(Present(b, ApplicationVars)) - NormalisedSum(Present(a, ApplicationVars))
         == Normalise(b["ils-mot7"].value) - Normalise(a["ils-mot7"].value)
    ensures Numeric(a, "ils-mot7") && Numeric(b, "ils-mot7") && a["ils-mot7"].value != b["ils-mot7"].value ==>
      && CalculateLearningStyleScores(b).reproduction != CalculateLearningStyleScores(a).reproduction
      && CalculateLearningStyleScores(b).application != CalculateLearningStyleScores(a).application
  {
    AgreeExceptElsewhere(a, b, "ils-mot7", MeaningVars);
    AgreeExceptElsewhere(a, b, "ils-mot7", UndirectedVars);
    if Numeric(a, "ils-mot7") && Numeric(b, "ils-mot7") {
      assert multiset(ReproductionVars)["ils-mot7"] == 1;
      assert multiset(ApplicationVars)["ils-mot7"] == 1;
      PresentShift(a, b, ReproductionVars, "ils-mot7");
      PresentShift(a, b, ApplicationVars, "ils-mot7");
      if a["ils-mot7"].value != b["ils-mot7"].value {
        Mot7MovesScore(a, b, ReproductionVars);
        Mot7MovesScore(a, b, ApplicationVars);
      }
    }
  }

  /** A category listing "ils-mot7" among at most six fields changes score when that answer changes. */
  lemma Mot7MovesScore(a: Answers, b: Answers, vars: seq<string>)
    requires AgreeExcept(a, b, "ils-mot7") && |vars| <= 6 && "ils-mot7" in vars
    requires Numeric(a, "ils-mot7") && Numeric(b, "ils-mot7") && a["ils-mot7"].value != b["ils-mot7"].value
    requires |Present(b, vars)| == |Present(a, vars)|
    requires NormalisedSum(Present(b, vars)) - NormalisedSum(Present(a, vars))
      == Normalise(b["ils-mot7"].value) - Normalise(a["ils-mot7"].value)
    ensures CategoryScore(Present(b, vars), HalfUp) != CategoryScore(Present(a, vars), HalfUp)
  {
    NumericFieldIsPresent(a, vars, "ils-mot7");
    ShiftMovesScore(Present(a, vars), Present(b, vars), b["ils-mot7"].value - a["ils-mot7"].value, HalfUp);
  }

  /** A listed field with a numeric answer gives its category at least one input. */
  lemma {:induction false} NumericFieldIsPresent(answers: Answers, vars: seq<string>, k: string)
    requires k in vars && Numeric(answers, k)
    ensures |Present(answers, vars)| > 0
  {
    if vars[0] != k {
      assert k in vars[1..];
      NumericFieldIsPresent(answers, vars[1..], k);
    }
  }

  /** A stored answer parseInt cannot read still counts as "an answer" but changes no score. */
  lemma UnreadableAnswerContributesNothing(store: Store, k: string)
    requires IsIlsKey(k) && HasAnswer(store, k) && ParseInt(store[k]) == None
    ensures k in StoredIlsAnswers(store)
    ensures CalculateLearningStyleScores(StoredIlsAnswers(store))
         == CalculateLearningStyleScores(StoredIlsAnswers(store - {k}))
  {
    var a, b := StoredIlsAnswers(store), StoredIlsAnswers(store - {k});
    RemovingUnreadableKeepsNumbers(store, ActKeys + MotKeys, k);
    PresentDependsOnNumericOnly(a, b, MeaningVars);
    PresentDependsOnNumericOnly(a, b, ReproductionVars);
    PresentDependsOnNumericOnly(a, b, ApplicationVars);
    PresentDependsOnNumericOnly(a, b, UndirectedVars);
  }

  /** Dropping an unreadable stored answer leaves the same numeric answers. */
  lemma RemovingUnreadableKeepsNumbers(store: Store, keys: seq<string>, k: string)
    requires HasAnswer(store, k) && ParseInt(store[k]) == None
    ensures var a, b := AnswersFor(store, keys), AnswersFor(store - {k}, keys);
      forall x :: (Numeric(a, x) <==> Numeric(b, x)) && (Numeric(a, x) ==> a[x] == b[x])
  {
    AnswersForWithout(store, keys, k);
    DroppingNaNKeepsNumbers(AnswersFor(store, keys), k);
  }

  lemma AnswersForWithout(store: Store, keys: seq<string>, k: string)
    ensures AnswersFor(store - {k}, keys) == AnswersFor(store, keys) - {k}
  {
  }

  lemma DroppingNaNKeepsNumbers(a: Answers, k: string)
    requires k in a ==> a[k] == None
    ensures forall x :: (Numeric(a, x) <==> Numeric(a - {k}, x)) && (Numeric(a, x) ==> a[x] == (a - {k})[x])
  {
  }
}
