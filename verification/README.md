# StuTeaPot questionnaire core, modelled in Dafny

StuTeaPot is a student questionnaire. Its test page collects demographic answers, personality
(FFM) items, twenty learning-style (ILS) items and teaching preferences, and validates them before
it submits. It keeps every answer in the browser's `localStorage` while the student works. The
results page reads the twenty ILS answers back from that store and computes four learning-style
scores: meaning-, reproduction-, application-oriented and undirected. It then names the main
style. The Flask server (`app.py`) computes the same four scores from the submitted form.

This project models three parts of that system as pure functions over immutable data, and
proves their contracts:

- **Scoring.** The browser's scoring (`static/js/stuteapot_results_interact.js`) and the server's
  (`app.py`) share the `LearningStyles` module: the normalisation `((v - 1) / 4) * 100 = 25 * (v - 1)`,
  the category mean, and the first-maximum rule for the main style. The arithmetic is exact
  integer and rational arithmetic. `Math.round` and Python's `round` are both modelled, in
  `Rounding`.
- **Validation.** `Validation` holds the field validators and the character counters.
  `Submission` holds `validateAll`, its group validators and the per-field listeners. A page is
  a record (`Dom.Page`) of input and textarea values, selects, radio groups, error indicators and
  counters. A validator returns its verdict together with the page it leaves behind.
- **Answer store.** `AnswerStore` and part of `Results` cover saving one answer, restoring the
  page on load, the snapshot taken just before a submission, reading the ILS answers back, and
  clearing them. The store is a `map<string, string>`.

`parseInt` (`JsNumber`) and Python's `int()` (`PyNumber`) are modelled on strings, as far as the
scoring needs them.

Modules: `Wrappers`, `Text`, `JsNumber`, `PyNumber`, `Rounding`, `LearningStyles`, `Fields`, `Dom`,
`Results`, `Server`, `ServerAgreement`, `RoundingExample`, `Validation`, `AnswerStore`, `Submission`.

## Model

| member | source | states |
|---|---|---|
| LearningStyles.Normalise | static/js/stuteapot_results_interact.js:51 | for an integer answer v, the integer result equals `((v - 1) / 4) * 100` computed over the reals; for v in 1..5 the result is one of 0, 25, 50, 75, 100 |
| LearningStyles.NormalisedSumBounds | static/js/stuteapot_results_interact.js:51-121 | n answers on the 1..5 scale normalise to a sum between 0 and 100·n |
| LearningStyles.NormalisedSumUniform | static/js/stuteapot_results_interact.js:51-121 | n equal answers v sum to n times the normalised v |
| LearningStyles.CategoryScore | static/js/stuteapot_results_interact.js:62-69 | no answers give 0; otherwise the result is the rounded mean: within one half of the mean of the normalised answers, a half going up under half-up rounding and to the even neighbour under half-to-even |
| LearningStyles.RoundedMeanIsUnique | static/js/stuteapot_results_interact.js:62-69 | at most one integer is the rounded mean of a category under a given rule, so the score is determined by the answers and the rule |
| LearningStyles.ShiftMovesScore | static/js/stuteapot_results_interact.js:62-69 | in a category of fewer than 25 answers, changing one answer to a different number always changes the score, under either rounding rule |
| LearningStyles.CategoryScoreInRange | static/js/stuteapot_results_interact.js:62-69 | answers on the 1..5 scale give a category score in 0..100, under either rounding rule |
| LearningStyles.UniformCategoryScore | static/js/stuteapot_results_interact.js:62-69 | a non-empty category whose answers all equal v scores exactly the normalised v |
| LearningStyles.ModesAgreeOffHalfway | app.py:82-87 | when the mean is not exactly half-way between two integers, half-up and half-to-even rounding give the same category score |
| LearningStyles.Rank | static/js/stuteapot_results_interact.js:135-140 | each style has a position in the fixed listing order meaning, reproduction, application, undirected |
| LearningStyles.FirstMaxFrom | static/js/stuteapot_results_interact.js:142-144 | the scan returns an index whose element is at least every element and strictly greater than every earlier one |
| LearningStyles.FirstMax | static/js/stuteapot_results_interact.js:142-144 | the index of the first maximal element: no element is larger, and every earlier one is strictly smaller |
| LearningStyles.ScoreList | static/js/stuteapot_results_interact.js:135-140 | the list of scores in listing order; the score at each style's rank is that style's score |
| LearningStyles.MainStyle | static/js/stuteapot_results_interact.js:142-144 | the reduce keeps a main style: its score is the maximum, and every style listed before it scores strictly less |
| LearningStyles.MainStyleIsUnique | static/js/stuteapot_results_interact.js:142-144 | any style with the main-style property is the one the reduce keeps, so ties go to the first maximum |
| Rounding.RoundHalfUp | static/js/stuteapot_results_interact.js:123-128 | `Math.round(num/den)`: the integer r with r − ½ ≤ num/den < r + ½ |
| Rounding.RoundHalfEven | app.py:82-87 | Python's `round(num/den)`: an integer within ½ of num/den, and an even one when num/den is exactly half-way |
| Rounding.RoundingsAgreeOffHalfway | app.py:82-87 | off a half-way point both rounding rules give the same integer |
| Rounding.RoundingsAtHalfway | app.py:82-87 | at a half-way point the rules differ exactly when rounding up gives an odd integer, and Python's result is then one less |
| Rounding.NearestStaysInBounds | static/js/stuteapot_results_interact.js:123-128 | an integer within ½ of num/den stays within any integer bounds that num/den lies within |
| Fields.LikeLearn | static/js/stuteapot_test_interact.js:390-442 | for each item in order, its "-like" name followed by its "-learn" name |
| Results.IlsKeysSpelled | static/js/stuteapot_results_interact.js:29-44 | the templates `ils-act${i}` and `ils-mot${i}` for i = 1..10 spell exactly the twenty listed keys |
| Results.CategoriesCoverIlsKeys | static/js/stuteapot_results_interact.js:54-121 | every field of the four category lists is an ILS key, and every ILS key feeds at least one category |
| Results.GetIlsAnswersFromStorage | static/js/stuteapot_results_interact.js:25-47 | the answers hold exactly the ILS keys whose stored value is non-empty, each mapped to `parseInt` of that value (NaN included) |
| Results.Present | static/js/stuteapot_results_interact.js:62-64 | the numeric answers of a category are at most as many as its fields |
| Results.CalculateLearningStyleScores | static/js/stuteapot_results_interact.js:49-129 | each of the four scores is the `Math.round`-ed mean of the numeric answers of that category's own fields, 0 for a category with none |
| Results.CalculateAndDisplayResults | static/js/stuteapot_results_interact.js:6-23 | the "no answers" message appears exactly when none of the twenty keys has a non-empty stored value; otherwise the page reports the scores of the stored answers and a main style with the first-maximum property |
| Results.ClearStoredResults | static/js/stuteapot_results_interact.js:192-203 | the cleared store holds exactly the keys that are neither ILS keys nor `learningStyleResults`, each with its old value |
| Results.PresentDependsOnNumericOnly | static/js/stuteapot_results_interact.js:62-64 | two answer maps that agree on which fields are numeric, and on their values, give the same category inputs |
| Results.PresentOfNoNumbers | static/js/stuteapot_results_interact.js:62-64 | with no numeric answer, a category has no inputs |
| Results.PresentIsLikert | static/js/stuteapot_results_interact.js:62-64 | when every numeric answer is in 1..5, so is every category input |
| Results.PresentOfFullAnswers | static/js/stuteapot_results_interact.js:62-64 | when every field of a category is numeric, the inputs are exactly those answers, one per field, in list order |
| Results.NoNumbersScoreZero | static/js/stuteapot_results_interact.js:65-69 | with no numeric answer at all, every score is 0, with no error |
| Results.ScoresInRange | static/js/stuteapot_results_interact.js:51-128 | answers on the 1..5 scale give four scores between 0 and 100 |
| Results.UniformAnswers | static/js/stuteapot_results_interact.js:51-128 | when all twenty answers equal v, every score equals `25 * (v - 1)` |
| Results.AllNeutralGiveFifty | static/js/stuteapot_results_interact.js:51-128 | twenty answers of 3 give 50 in every category |
| Results.PresentShift | static/js/stuteapot_results_interact.js:62-64 | changing one numeric answer that occurs once in a category keeps the number of inputs and moves their normalised sum by the change in that answer |
| Results.AgreeExceptElsewhere | static/js/stuteapot_results_interact.js:62-64 | changing an answer outside a category leaves its inputs alone |
| Results.Mot7FeedsTwoCategories | static/js/stuteapot_results_interact.js:72-102 | changing `ils-mot7` alone leaves the meaning and undirected scores unchanged, moves the reproduction and application sums by the same amount, and, when both answers are numbers and differ, changes both the reproduction and the application score |
| Results.UnreadableAnswerContributesNothing | static/js/stuteapot_results_interact.js:8-15 | a stored ILS value that `parseInt` cannot read is still an answer (so it suppresses the error) but gives the same scores as no value at all |
| Results.RemovingUnreadableKeepsNumbers | static/js/stuteapot_results_interact.js:25-47 | removing an unreadable stored value keeps the same numeric answers |
| JsNumber.Utf16Length | static/js/stuteapot_test_interact.js:90-92 | a string's `length` counts UTF-16 code units: between one and two per character, and exactly one each when every character is below U+10000 |
| JsNumber.TrimStartSkipsBlanks | static/js/stuteapot_results_interact.js:33 | leading white space is dropped up to the first non-blank character |
| JsNumber.DigitPrefixOfDigits | static/js/stuteapot_results_interact.js:33 | the digit run stops exactly where the digits stop |
| JsNumber.ParseIntReadsLeadingInteger | static/js/stuteapot_results_interact.js:33 | `parseInt` of white space, the decimal spelling of n, then text that does not start with a digit reads n |
| JsNumber.ParseIntSkipsBlanks | static/js/stuteapot_results_interact.js:33 | `parseInt` ignores leading white space |
| JsNumber.SpellingStartsUnblank | static/js/stuteapot_results_interact.js:33 | a spelled integer starts with a character that is not white space |
| JsNumber.ParseSignedDecimal | static/js/stuteapot_results_interact.js:33 | after the white space, the sign and the decimal digits give back n |
| JsNumber.NegativeSpelling | static/js/stuteapot_results_interact.js:33 | a minus sign followed by the decimal spelling of m reads −m |
| JsNumber.UnsignedSpelling | static/js/stuteapot_results_interact.js:33 | an unsigned decimal spelling of m reads m |
| JsNumber.MagnitudeOfDecimal | static/js/stuteapot_results_interact.js:33 | the unsigned digits read as base 10 unless they are a "0x" prefix |
| JsNumber.ParseIntRoundTrip | static/js/stuteapot_results_interact.js:33 | `parseInt(String(n)) == n` for every integer n |
| JsNumber.ParseIntReadsADigit | static/js/stuteapot_results_interact.js:33 | whatever `parseInt` reads as a number holds at least one decimal digit, so a text without digits reads NaN |
| PyNumber.Digits | app.py:60 | dropping the underscores of an underscored numeral leaves only decimal digits, no more than there were, and leaves a plain numeral as it is |
| PyNumber.DigitsConcat | app.py:60 | dropping the underscores distributes over concatenation, so the digits keep their order |
| PyNumber.UnderscoreJoinsGroups | app.py:60 | an underscore between two digit groups is dropped and the groups are joined |
| PyNumber.LiteralReadsUnderscores | app.py:60 | the integer literal grammar reads "1_000" as 1000 |
| PyNumber.IntReadsUnderscores | app.py:60 | `int("1_000")` is 1000 |
| PyNumber.IntRejectsLeadingSeparator | app.py:60 | a text starting with one of the separators U+001C..U+001F makes `int()` raise, since `int()` does not strip them |
| PyNumber.IntReadsADigit | app.py:60 | whatever `int()` reads holds at least one decimal digit |
| PyNumber.IntRoundTrip | app.py:60 | `int(str(n)) == n` for every integer n |
| PyNumber.IntLiteralOfDecimal | app.py:60 | the integer literal grammar reads the decimal spelling of n as n |
| PyNumber.IntRejectsBlank | app.py:60 | `int()` raises on an empty string or one made only of the white space it strips |
| PyNumber.IntRejectsFraction | app.py:60 | `int()` raises on "n.f" |
| PyNumber.IntLiteralRejectsFraction | app.py:60 | the integer literal grammar rejects a decimal point |
| Server.CategoryListsMatchBrowser | app.py:63-78 | each server category list is the browser's list, field for field, under the server names, `ils_mot7` in both reproduction and application |
| Server.MeaningListMatches | app.py:63 | the meaning list matches the browser's under the server names |
| Server.ReproductionListMatches | app.py:68 | the reproduction list matches the browser's under the server names |
| Server.ApplicationListMatches | app.py:73 | the application list matches the browser's under the server names |
| Server.UndirectedListMatches | app.py:78 | the undirected list matches the browser's under the server names |
| Server.NormalizeScore | app.py:57-60 | None gives 0; a field `int()` can read gives the normalised integer; otherwise `int()` raises |
| Server.CategoryValues | app.py:64-80 | a category's comprehension reads at most one value per field, and when it raises, the error names the value of a present field `int()` cannot read |
| Server.UnreadableFailsCategory | app.py:64-80 | a present field that `int()` cannot read makes its category raise |
| Server.FailedCategoryHasUnreadable | app.py:64-80 | a category that raises has a present field `int()` cannot read |
| Server.CategoryRaisesOnUnreadable | app.py:64-80 | a category's comprehension raises exactly when one of its present fields is not an integer; otherwise it reads at most one value per field |
| Server.ScoringRaisesOnUnreadable | app.py:54-87 | scoring raises exactly when some present ILS field of some category is not an integer, whatever the rounding |
| Server.ScoresWith | app.py:54-87 | on success each of the four scores is its category's values rounded by the given rule; on failure the error names an unreadable present field |
| Server.CalculateLearningStyleScores | app.py:54-87 | as written: on success each score is its category mean rounded half to even, as Python's `round` does; on failure the error names an unreadable present field |
| Server.CalculateLearningStyleScoresHalfUp | app.py:54-87 | the corrected scoring: each score is its category mean rounded half up; on failure the error names an unreadable present field |
| Server.GetMainLearningStyle | app.py:89-99 | the returned name is a style's exactly when that style has the first maximum, as the browser's reduce picks it |
| Server.SubmitTest | app.py:204-225 | the submission redirects to the start page with the error flash exactly when some present ILS field is not an integer; otherwise it renders the scores and a main style with the first-maximum property |
| ServerAgreement.CategoryValuesOfAgreeing | app.py:64-80 | over key lists that carry the same answers, the server reads exactly the browser's numeric category inputs |
| ServerAgreement.CategoryOfCorresponding | app.py:63-80 | when the form carries the browser's answers under the server names, every server category reads the browser's category inputs |
| ServerAgreement.ScoresOfCorresponding | app.py:54-87 | on such a form the server's four scores are the browser's category means, rounded by the server's rule |
| ServerAgreement.CorrectedServerMatchesClient | app.py:54-87 | the server rounding halves up computes the browser's four scores from the same answers |
| ServerAgreement.AsWrittenMatchesClientOffHalfway | app.py:54-87 | as written, the server computes the browser's scores whenever no category mean is exactly half-way |
| ServerAgreement.ParsersDisagreeOnFractions | app.py:60 | a stored "n.f" reads as n in the browser, while the same text on the server makes `int()` raise |
| ServerAgreement.ParseIntStopsAtPoint | static/js/stuteapot_results_interact.js:33 | `parseInt` stops reading at a decimal point |
| ServerAgreement.ParsersAgreeOnDecimals | app.py:60 | `parseInt` and `int()` read every plain decimal numeral as the same integer |
| RoundingExample.AbsentKeysGiveNoAnswers | static/js/stuteapot_results_interact.js:62-64 | a category whose fields have no answer has no inputs |
| RoundingExample.ExampleApplicationAnswers | static/js/stuteapot_results_interact.js:92-102 | with only act5 = 2 and mot3 = 1 answered, the application inputs are [2, 1] |
| RoundingExample.ExampleCategories | static/js/stuteapot_results_interact.js:54-121 | with those two answers the other three categories have no inputs |
| RoundingExample.HalfwayApplicationScoresDiffer | app.py:82-87 | for that submission the browser scores application 13, the server as written 12, and the server rounding halves up 13 |
| Dom.SetShown | static/js/stuteapot_test_interact.js:58-61 | an existing indicator is shown or hidden as asked; the set of indicators and every other indicator are unchanged |
| Dom.CheckedValue | static/js/stuteapot_test_interact.js:54 | a value exactly when some radio of the group is checked, and then the value of the first checked radio, as `:checked` finds it |
| Validation.ValidateRequiredRadio | static/js/stuteapot_test_interact.js:53-64 | valid exactly when the group exists and one of its radios is checked; its indicator (when present) shows exactly when invalid, and nothing else changes |
| Validation.ValidateRequiredSelect | static/js/stuteapot_test_interact.js:66-77 | valid exactly when the select exists and its value is non-empty, so a missing select fails; the indicator shows exactly when invalid |
| Validation.ValidateTextLength | static/js/stuteapot_test_interact.js:79-98 | valid exactly when the input is missing, or its value is all white space, or its trimmed UTF-16 length is within the bounds; a missing input leaves the page unchanged |
| Validation.ValidateNumberRange | static/js/stuteapot_test_interact.js:100-113 | valid exactly when the input is missing, or `parseFloat` gives a number within [min, max]; NaN fails; a missing input leaves the page unchanged |
| Validation.ValidateTextareaCap | static/js/stuteapot_test_interact.js:245-269 | with the textarea and its indicator present, valid exactly when the untrimmed value has at most 600 UTF-16 units, the indicator then showing exactly when invalid; otherwise valid and nothing changes |
| Validation.ValidateRemarksAdmin | static/js/stuteapot_test_interact.js:245-256 | valid exactly when the remarks textarea or its indicator is missing, or the value has at most 600 UTF-16 units; with either missing the page is unchanged; with both present, only "remarks-admin-error" changes, showing exactly when invalid |
| Validation.ValidateStudyTips | static/js/stuteapot_test_interact.js:258-269 | the same rule for the study-tips textarea and "study-tips-error": with either missing the page is unchanged, otherwise only that indicator changes |
| Validation.CountTier | static/js/stuteapot_test_interact.js:217-223 | exceeded exactly above 600 characters, warning exactly from 481 to 600, normal exactly up to 480 |
| Validation.UpdateCount | static/js/stuteapot_test_interact.js:208-242 | with the textarea and its counter present, only that counter changes: its text is "<length>/600 characters" and its colour is its tier's colour; otherwise nothing changes |
| Validation.CapFailsExactlyWhenCounterRed | static/js/stuteapot_test_interact.js:217-269 | where both apply, a field fails its cap exactly when its counter turns red |
| Validation.EmptyTextareaPasses | static/js/stuteapot_test_interact.js:245-269 | an empty textarea passes its cap, and its counter reads "0/600 characters" in the normal colour |
| Validation.BlankTextPasses | static/js/stuteapot_test_interact.js:90-92 | a value made only of white space passes the length check whatever the bounds, and hides its indicator |
| Validation.ChoiceValidatorsAreIdempotent | static/js/stuteapot_test_interact.js:53-77 | running the radio or select validator again on its own output gives the same verdict and page |
| Validation.TextLengthIsIdempotent | static/js/stuteapot_test_interact.js:79-98 | running the length check again on its own output changes nothing |
| Validation.NumberRangeIsIdempotent | static/js/stuteapot_test_interact.js:100-113 | running the range check again on its own output changes nothing |
| Validation.TextareaCapIsIdempotent | static/js/stuteapot_test_interact.js:245-269 | running the cap check again on its own output changes nothing |
| Submission.Run | static/js/stuteapot_test_interact.js:450-470 | a listed validator call returns the verdict read off the page's values, and the page with only its own indicator updated |
| Submission.ChecksIgnoreDisplay | static/js/stuteapot_test_interact.js:53-113 | no validator's verdict depends on whether an indicator is currently shown, only on whether it exists, so earlier checks cannot change later verdicts |
| Submission.ApplyAllKeepsLast | static/js/stuteapot_test_interact.js:450-470 | applying the effects in order keeps the set of indicators; each indicator ends as its last effect sets it, and one no effect touches keeps its state |
| Submission.EffectsShowVerdicts | static/js/stuteapot_test_interact.js:450-470 | after all checks, each indicator whose last setter is check i shows exactly when check i fails, and an indicator no check sets is untouched |
| Submission.RunChecks | static/js/stuteapot_test_interact.js:450-472 | every check runs with no short circuit; the result is true exactly when all pass; only indicators change, each as its last setter leaves it |
| Submission.AllPassConcat | static/js/stuteapot_test_interact.js:450-472 | a list of checks passes exactly when both of its parts pass |
| Submission.RadioChecksPassWhenAnswered | static/js/stuteapot_test_interact.js:343-442 | a group validator's checks all pass exactly when every group of its list has a checked radio |
| Submission.LastWriterFrom | static/js/stuteapot_test_interact.js:450-470 | for any check that sets its indicator there is a last check setting the same one |
| Submission.ValidateRadioGroups | static/js/stuteapot_test_interact.js:343-442 | the group validators: true exactly when every group is answered; each group's indicator shows whether that group is unanswered; no other indicator changes |
| Submission.AllAnsweredConcat | static/js/stuteapot_test_interact.js:343-442 | a list of groups is all answered exactly when both of its parts are |
| Submission.SubmissionPassesByPart | static/js/stuteapot_test_interact.js:450-472 | the submission passes exactly when the hand-listed checks pass, every FFM, ILS, pedagogy and teaching-style group is answered, and both caps pass |
| Submission.SubmittedPageAnswersEveryIlsQuestion | static/js/stuteapot_test_interact.js:450-472 | a page that passes the submission has a checked radio in each of the twenty ILS groups |
| Submission.ValidateAll | static/js/stuteapot_test_interact.js:445-489 | submitted exactly when every check passes; every indicator is updated by its last check; only on submission is the store overwritten with the collected form data stamped with the timestamp, otherwise the store is unchanged |
| Submission.React | static/js/stuteapot_test_interact.js:133-164 | a listener saves the element's non-empty value under its name (an empty one leaves the store alone), then updates the page as its check reports, if it has one |
| Submission.ReactiveCheck | static/js/stuteapot_test_interact.js:133-164 | a radio or select change is checked as required under "<name>-error"; an input is checked only when it is anonymous-id, age or grades, under "<name>-error"; every other input has no check |
| Submission.OnEvent | static/js/stuteapot_test_interact.js:133-164 | a listener changes only indicators, and among them only "<name>-error"; a non-empty value is saved under the name and every other stored key keeps its value |
| Submission.RadioChangeHidesIndicator | static/js/stuteapot_test_interact.js:133-146 | checking a radio always hides its group's indicator "<name>-error" |
| Submission.ClearedInputComesBack | static/js/stuteapot_test_interact.js:149-164 | emptying a text input keeps its stored answer, so the next load puts the previous value back |
| Submission.ReactiveBoundsMatchSubmission | static/js/stuteapot_test_interact.js:156-161 | on input, anonymous-id, age and grades are checked with the bounds and indicators the submission uses: 3..20, 1..120, 0..20 |
| Submission.ConventionalConcat | static/js/stuteapot_test_interact.js:450-470 | the "<name>-error" convention for required radios holds of a concatenation when it holds of both parts |
| Submission.ScalarIdsFollowConvention | static/js/stuteapot_test_interact.js:450-461 | the hand-listed checks use "<name>-error", except the select, which uses "eco-error" |
| Submission.ListIdsFollowConvention | static/js/stuteapot_test_interact.js:450-470 | every required radio of the submission's check list uses "<group>-error", whatever the groups |
| Submission.SubmissionIdsFollowConvention | static/js/stuteapot_test_interact.js:450-470 | every required radio group of the submission uses "<group>-error" |
| Submission.ReactiveRadiosMatchSubmission | static/js/stuteapot_test_interact.js:141 | each radio group the submission requires is checked on change with the submission's own check |
| Submission.EconomicSituationIndicatorsDiffer | static/js/stuteapot_test_interact.js:143 | the select listener uses the indicator "economic-situation-error", the submission "eco-error" |
| Submission.StaleEconomicSituationIndicator | static/js/stuteapot_test_interact.js:142-143 | after a failed submission, choosing an economic situation passes the check but leaves "eco-error" shown |
| Submission.MissingEconomicSituationUnreported | static/js/stuteapot_test_interact.js:454 | on a page with only the listener's indicator, a submission without an economic situation fails with nothing shown |
| Submission.CorrectedReactiveMatchesSubmission | static/js/stuteapot_test_interact.js:133-164 | with the corrected ids, every hand-listed field a listener checks is checked on change exactly as the submission checks it |
| Submission.CorrectedSelectClearsIndicator | static/js/stuteapot_test_interact.js:142-143 | with the corrected ids, choosing an economic situation hides the indicator a failed submission showed |
| AnswerStore.SaveAnswerToStorage | static/js/stuteapot_test_interact.js:275-279 | null, undefined and "" leave the store unchanged; otherwise only `store[name]` changes, to the value |
| AnswerStore.CheckOnlyKeepsValues | static/js/stuteapot_test_interact.js:317-322 | checking a radio changes neither where a value occurs nor its last occurrence |
| AnswerStore.RestoreGroupFrom | static/js/stuteapot_test_interact.js:317-322 | the radio loop from a position on: values are kept; when the stored value occurs, exactly its last occurrence ends up checked; otherwise the group is unchanged |
| AnswerStore.RestoreGroup | static/js/stuteapot_test_interact.js:317-322 | a radio ends up checked only when its value is the stored one: the last such radio alone; a group with no such radio is unchanged |
| AnswerStore.RestoredGroupChecksSaved | static/js/stuteapot_test_interact.js:317-322 | after a successful restore the group's checked value is the stored one and no two radios are checked |
| AnswerStore.LastMatchFrom | static/js/stuteapot_test_interact.js:317-322 | from a matching radio, a last matching radio exists at or after it |
| AnswerStore.RefreshCounter | static/js/stuteapot_test_interact.js:299-303 | a restored free-text field refreshes its counter, and nothing else changes |
| AnswerStore.LoadSavedAnswers | static/js/stuteapot_test_interact.js:281-323 | inputs and textareas take any non-empty stored string under their name, selects are set to it, radio groups follow the restore rule; a restored remarks or study-tips field refreshes its own counter to the restored length and tier, and every other counter, the indicators and the set of elements are unchanged |
| AnswerStore.RefreshesMeetCounters | static/js/stuteapot_test_interact.js:297-303 | the two counter refreshes of a load each change only their own counter, leaving every other counter as it was |
| AnswerStore.RestoredCounterShowsLength | static/js/stuteapot_test_interact.js:297-303 | a restored remarks field's counter shows the restored value's length and tier |
| AnswerStore.SavedInputIsRestored | static/js/stuteapot_test_interact.js:275-291 | a non-empty text saved on input comes back into its input on the next load |
| AnswerStore.SavedRadioIsRestored | static/js/stuteapot_test_interact.js:275-322 | a radio value saved on change comes back as the group's checked value on the next load |
| AnswerStore.RestoreGroupIsIdempotent | static/js/stuteapot_test_interact.js:317-322 | restoring a group twice from the same store gives what restoring once gives |
| AnswerStore.CollectEntries | static/js/stuteapot_test_interact.js:492-553 | each collected key holds what its element gives; where a key repeats, the last entry decides |
| AnswerStore.CollectedKeys | static/js/stuteapot_test_interact.js:492-553 | the collected object has exactly the entries' keys |
| AnswerStore.CollectFormData | static/js/stuteapot_test_interact.js:492-553 | the snapshot holds exactly the keys of the hand-listed fields, the numbered groups and the pedagogy and teaching-style groups; each holds what the last entry under its key reads from the page |
| AnswerStore.SnapshotCoversIlsKeys | static/js/stuteapot_test_interact.js:520-531 | the snapshot holds `ils-act<n>` and `ils-mot<n>` for every n from 1 to 10, the keys the results page reads |
| AnswerStore.SaveAllFormData | static/js/stuteapot_test_interact.js:326-336 | every collected value that is not null or undefined is written, "" included; the timestamp key is set; every other key keeps its value |
| AnswerStore.SnapshotRestoresGroup | static/js/stuteapot_test_interact.js:317-336 | a non-empty radio value in the snapshot comes back as the group's checked value on the next load |
| AnswerStore.SnapshotRestoresInput | static/js/stuteapot_test_interact.js:286-336 | a non-empty text the snapshot holds under an input's own name comes back into that input on the next load |

## Left out

- Floating point: answers are integers, so means are exact rationals. Precision loss above 2^53 and IEEE rounding are not modelled, and neither is overflow to Infinity: `parseInt` of 309 or more digits gives Infinity, which passes the `isNaN` filter, so the browser would score Infinity or NaN where the model counts the answer as the integer it spells.
- Server.NormalizeScore: reads every integer `int()` accepts and normalises it exactly. In the source, `((int(value) - 1) / 4) * 100` is float division, which raises OverflowError once the quotient passes the float range (about 310 digits), so such a value would make scoring raise where the model succeeds.
- Server.SubmitTest: redirects exactly when some present ILS field is not an integer. The server would also redirect when `int()` overflows float division (see Server.NormalizeScore), when `round` meets an infinite mean, or when `int()` refuses a value of more than 4300 digits (the digit limit of CPython 3.11 and later); these raises are not modelled, so on such values the model renders results.
- PyNumber.IntRoundTrip: holds for every integer, as `int()` does before CPython 3.11. The 4300-digit limit that later versions apply to `int()` of a string is not modelled.
- `parseFloat` in `validateNumberRange` is a parameter (`string -> Option<real>`; None is NaN). Its grammar is not modelled. Infinity counts as NaN, since it fails every finite bound used.
- `parseInt`: only the sign, the "0x" prefix and the digit run are modelled. Precision loss on very long digit runs is not.
- `int()`: only ASCII digits, underscores, a sign and surrounding white space are modelled. Non-ASCII decimal digits are not.
- A page holds one element per name. Duplicate names, and the precedence of `querySelector` among them, are not modelled.
- `styleTextInputs`, the attribute removal in `setupDynamicValidation`, and the registration of its listeners are left out: they are styling and event plumbing. What a listener does when it fires is modelled (`Submission.React`).
- The debounce timers in `handleRemarksAdminInput` and `handleStudyTipsInput`, and `initializeCharacterCount`, are left out: they are timing and listener set-up.
- `saveResults` (JSON serialisation) is left out.
- The `new Date().toISOString()` timestamp is a parameter of `AnswerStore.SaveAllFormData` and `Submission.ValidateAll`.
- `alert`, `scrollIntoView`, `displayError`'s markup, and the text and bar writers of `displayMainLearningStyle` and `displayDetailedScores` are left out: they are UI effects. `Results.CalculateAndDisplayResults` returns what would be shown.
- The actual `form.submit()` is left out: `Submission.ValidateAll` returns whether the form is submitted.
- Flask routes, templates, file serving, the `print` calls and the append to `test_responses.json` are left out. An exception in that file write is not modelled either.
- The field-by-field `request.form` copy in `submit_test` is left out. The form is a map from server names to the present field values.
- `static/js/stuteapot_interact.js` and `static/js/stuteapot_start_test_interact.js` are not part of this model: they hold menu construction and clipboard code.
- The page markup is not part of this model, so which indicator ids and elements exist is a parameter (the page record).
- `collectFormData` writes nine hand-listed fields under camel-case keys that are not their element names (`anonymousID`, `economicSituation`, `classYear`, `studyField`, `selfConfidence`, `wellBeing`, `knowledgeDurability`, `remarksAdmin`, `studyTips`). `loadSavedAnswers` reads by element name, so the snapshot does not restore those nine. The keys `gender`, `age`, `grades`, `stress` and `cheating` are the element names, so those fields come back (`AnswerStore.SnapshotRestoresInput`, `AnswerStore.SnapshotRestoresGroup`), as do the numbered, pedagogy and teaching-style groups.
- AnswerStore.LoadSavedAnswers: puts a stored string into an input or textarea unchanged. The browser's value setters clean it first: a number input turns a value that is not a valid floating-point number into "", a text input drops carriage returns and line feeds, and a textarea turns CRLF into LF, so its refreshed counter can show a shorter length. Strings the page saved itself are already clean, since they are read back from the elements; for other stored strings the model, and so `AnswerStore.SavedInputIsRestored`, `AnswerStore.SnapshotRestoresInput` and `AnswerStore.RestoredCounterShowsLength`, does not follow this cleaning.
- Submission.SubmittedPageAnswersEveryIlsQuestion: states that every ILS group is answered, not that `collectFormData` then stores all twenty values. That follows from `AnswerStore.CollectEntries`, but it is not proved as one lemma.
- Results.Present: its own contract bounds the number of inputs only. What the inputs are is stated by `Results.PresentOfFullAnswers`, `Results.PresentDependsOnNumericOnly` and `Results.CalculateLearningStyleScores`.

## Findings

| source | as written | input that shows it | evidently intended | confidence | as-written member | corrected member |
|---|---|---|---|---|---|---|
| app.py:82-87 | The server rounds each category mean with Python's `round`, which rounds halves to even, while the browser uses `Math.round` (static/js/stuteapot_results_interact.js:123-128), which rounds halves up | only `ils-act5` = 2 and `ils-mot3` = 1 answered: the application mean is (25 + 0) / 2 = 12.5; the server scores 12, the browser 13 | both copies give the same scores for the same answers | not executed | Server.CalculateLearningStyleScores (RoundingExample.HalfwayApplicationScoresDiffer) | Server.CalculateLearningStyleScoresHalfUp (ServerAgreement.CorrectedServerMatchesClient) |
| static/js/stuteapot_test_interact.js:141-143 | The change listener validates every select against the indicator `${name}-error`, so "economic-situation" uses "economic-situation-error", while `validateAll` uses "eco-error" for the same select (line 454) | submit with no economic situation (the "eco-error" indicator shows), then choose one: the listener sets "economic-situation-error", and "eco-error" stays visible although the field is now valid | the listener and the submission use the same indicator for a field | not executed | Submission.StaleEconomicSituationIndicator (Submission.EconomicSituationIndicatorsDiffer, Submission.MissingEconomicSituationUnreported) | Submission.CorrectedSelectClearsIndicator (Submission.CorrectedReactiveMatchesSubmission) |
