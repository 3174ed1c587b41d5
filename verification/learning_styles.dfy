/**
 * The learning-style scoring rules the browser and the server share: the four styles in their
 * fixed order, the main style (first maximum), the 1..5 to 0..100 normalisation, and a category
 * score as the rounded mean of the normalised answers.
 */
module LearningStyles {
  import opened Rounding

  datatype Style = Meaning | Reproduction | Application | Undirected

  /** The four category scores, in percent. */
  datatype Scores = Scores(meaning: int, reproduction: int, application: int, undirected: int)

  /** The fixed listing order of the styles, which decides ties. */
  const Order: seq<Style> := [Meaning, Reproduction, Application, Undirected]

  function Rank(st: Style): (k: nat)
    ensures k < |Order| && Order[k] == st
  {
    match st
    case Meaning => 0
    case Reproduction => 1
    case Application => 2
    case Undirected => 3
  }

  function ScoreOf(s: Scores, st: Style): int {
    match st
    case Meaning => s.meaning
    case Reproduction => s.reproduction
    case Application => s.application
    case Undirected => s.undirected
  }

  /** `st` has the highest score, and every style listed before it scores strictly less. */
  predicate IsMainStyle(s: Scores, st: Style) {
    && (forall o: Style :: ScoreOf(s, o) <= ScoreOf(s, st))
    && (forall o: Style :: Rank(o) < Rank(st) ==> ScoreOf(s, o) < ScoreOf(s, st))
  }

  /**
   * Array.prototype.reduce without an initial value, keeping the accumulator unless an element
   * is strictly greater: `acc` is the index kept so far, `i` the next index to look at.
   */
  function FirstMaxFrom(xs: seq<int>, acc: nat, i: nat): (k: nat)
    requires acc < i <= |xs|
    requires forall j :: 0 <= j < i ==> xs[j] <= xs[acc]
    requires forall j :: 0 <= j < acc ==> xs[j] < xs[acc]
    ensures k < |xs|
    ensures forall j :: 0 <= j < |xs| ==> xs[j] <= xs[k]
    ensures forall j :: 0 <= j < k ==> xs[j] < xs[k]
    decreases |xs| - i
  {
    if i == |xs| then acc
    else if xs[i] > xs[acc] then FirstMaxFrom(xs, i, i + 1)
    else FirstMaxFrom(xs, acc, i + 1)
  }

  /** The index of the first maximal element. */
  function FirstMax(xs: seq<int>): (k: nat)
    requires |xs| > 0
    ensures k < |xs|
    ensures forall j :: 0 <= j < |xs| ==> xs[j] <= xs[k]
    ensures forall j :: 0 <= j < k ==> xs[j] < xs[k]
  {
    FirstMaxFrom(xs, 0, 1)
  }

  function ScoreList(s: Scores): (xs: seq<int>)
    ensures |xs| == |Order|
    ensures forall st: Style :: xs[Rank(st)] == ScoreOf(s, st)
  {
    [s.meaning, s.reproduction, s.application, s.undirected]
  }

  /** The style a reduce over the four styles in their fixed order keeps. */
  function MainStyle(s: Scores): (st: Style)
    ensures IsMainStyle(s, st)
  {
    var xs := ScoreList(s);
    var k := FirstMax(xs);
    assert forall o: Style :: ScoreOf(s, o) == xs[Rank(o)];
    Order[k]
  }

  /** The main style is fully determined by the scores: first maximum in the fixed order. */
  lemma MainStyleIsUnique(s: Scores, st: Style)
    requires IsMainStyle(s, st)
    ensures st == MainStyle(s)
  {
    var m := MainStyle(s);
    assert ScoreOf(s, m) <= ScoreOf(s, st) && ScoreOf(s, st) <= ScoreOf(s, m);
    assert Rank(m) == Rank(st);
  }

  /** ((v - 1) / 4) * 100 for an integer answer v, which is exact in floating point. */
  function Normalise(v: int): (r: int)
    ensures r as real == ((v - 1) as real / 4.0) * 100.0
    ensures 1 <= v <= 5 ==> r in {0, 25, 50, 75, 100}
  {
    25 * (v - 1)
  }

  /** The sum of the normalised answers. */
  function NormalisedSum(vals: seq<int>): int {
    if vals == [] then 0 else Normalise(vals[0]) + NormalisedSum(vals[1..])
  }

  predicate AllLikert(vals: seq<int>) {
    forall i :: 0 <= i < |vals| ==> 1 <= vals[i] <= 5
  }

  lemma {:induction false} NormalisedSumBounds(vals: seq<int>)
    requires AllLikert(vals)
    ensures 0 <= NormalisedSum(vals) <= 100 * |vals|
  {
    if vals != [] {
      assert AllLikert(vals[1..]);
      NormalisedSumBounds(vals[1..]);
    }
  }

  lemma {:induction false} NormalisedSumUniform(vals: seq<int>, v: int)
    requires forall i :: 0 <= i < |vals| ==> vals[i] == v
    ensures NormalisedSum(vals) == |vals| * Normalise(v)
  {
    if vals != [] {
      NormalisedSumUniform(vals[1..], v);
    }
  }

  /** How a mean is rounded: Math.round in the browser, Python's round on the server. */
  datatype RoundingMode = HalfUp | HalfEven

  /**
   * r is the mean of the normalised answers rounded as `mode` rounds, 0 when there are none:
   * within a half of the mean, a half going up (HalfUp) or to the even neighbour (HalfEven).
   */
  predicate IsRoundedMean(vals: seq<int>, mode: RoundingMode, r: int) {
    var n, d := |vals|, 2 * NormalisedSum(vals) - 2 * |vals| * r;
    if n == 0 then r == 0
    else -n <= d <= n && (mode == HalfUp ==> d < n) && (mode == HalfEven && (d == n || d == -n) ==> r % 2 == 0)
  }

  /** A category score: 0 with no answers, else the rounded mean of the normalised answers. */
  function CategoryScore(vals: seq<int>, mode: RoundingMode): (r: int)
    ensures |vals| == 0 ==> r == 0
    ensures |vals| > 0 ==> -|vals| <= 2 * NormalisedSum(vals) - 2 * |vals| * r <= |vals|
    ensures |vals| > 0 && mode == HalfUp ==> 2 * NormalisedSum(vals) - 2 * |vals| * r < |vals|
    ensures IsRoundedMean(vals, mode, r)
  {
    if |vals| == 0 then 0
    else match mode
      case HalfUp => RoundHalfUp(NormalisedSum(vals), |vals|)
      case HalfEven => RoundHalfEven(NormalisedSum(vals), |vals|)
  }

  /** The rounding rule leaves no choice: one integer is the rounded mean of a category. */
  lemma RoundedMeanIsUnique(vals: seq<int>, mode: RoundingMode, r: int, r': int)
    requires IsRoundedMean(vals, mode, r) && IsRoundedMean(vals, mode, r')
    ensures r == r'
  {
    var n := |vals|;
    if n > 0 {
      var d, d' := 2 * NormalisedSum(vals) - 2 * n * r, 2 * NormalisedSum(vals) - 2 * n * r';
      assert d' - d == 2 * n * (r - r');
      MulWithinBound(2 * n, r - r');
    }
  }

  /**
   * Fewer than 25 answers: moving their normalised sum by a non-zero multiple of 25 (one answer
   * changed) always moves the category score, under either rounding rule.
   */
  lemma ShiftMovesScore(vals: seq<int>, vals': seq<int>, k: int, mode: RoundingMode)
    requires 0 < |vals| == |vals'| < 25
    requires NormalisedSum(vals') == NormalisedSum(vals) + 25 * k && k != 0
    ensures CategoryScore(vals', mode) != CategoryScore(vals, mode)
  {
    var n, r, r' := |vals|, CategoryScore(vals, mode), CategoryScore(vals', mode);
    var d, d' := 2 * NormalisedSum(vals) - 2 * n * r, 2 * NormalisedSum(vals') - 2 * n * r';
    assert d' - d == 50 * k - (2 * n * r' - 2 * n * r);
  }

  /** A multiple of a positive bound that stays within the bound is at most one step from zero. */
  lemma MulWithinBound(c: int, k: int)
    requires c > 0 && -c <= c * k <= c
    ensures -1 <= k <= 1
  {
    assert c * (k - 1) == c * k - c && c * (k + 1) == c * k + c;
  }

  /** The mean of the normalised answers lies exactly half-way between two integers. */
  predicate HasHalfwayMean(vals: seq<int>) {
    |vals| > 0 && IsHalfway(NormalisedSum(vals), |vals|)
  }

  /** Answers on the 1..5 scale give a category score between 0 and 100. */
  lemma CategoryScoreInRange(vals: seq<int>, mode: RoundingMode)
    requires AllLikert(vals)
    ensures 0 <= CategoryScore(vals, mode) <= 100
  {
    if |vals| > 0 {
      NormalisedSumBounds(vals);
      NearestStaysInBounds(NormalisedSum(vals), |vals|, CategoryScore(vals, mode), 0, 100);
    }
  }

  /** When every answer of a category is v, the score is exactly the normalised v. */
  lemma UniformCategoryScore(vals: seq<int>, v: int, mode: RoundingMode)
    requires |vals| > 0
    requires forall i :: 0 <= i < |vals| ==> vals[i] == v
    ensures CategoryScore(vals, mode) == Normalise(v)
  {
    NormalisedSumUniform(vals, v);
    NearestStaysInBounds(NormalisedSum(vals), |vals|, CategoryScore(vals, mode), Normalise(v), Normalise(v));
  }

  /** Without a half-way mean the two rounding rules give the same category score. */
  lemma ModesAgreeOffHalfway(vals: seq<int>)
    requires !HasHalfwayMean(vals)
    ensures CategoryScore(vals, HalfUp) == CategoryScore(vals, HalfEven)
  {
    if |vals| > 0 {
      RoundingsAgreeOffHalfway(NormalisedSum(vals), |vals|);
    }
  }
}
