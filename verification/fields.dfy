/** The names of the questionnaire's fields, as the test page's scripts spell them. */
module Fields {
  import opened Text

  const PedagogyMethods: seq<string> := [
    "lecture", "interactive-lecture", "directed-discussion", "classroom-assessment", "group-work",
    "student-peer-feedback", "cookbook-labs", "just-in-time", "case-method", "inquiry-based",
    "problem-based", "project-based", "role-plays", "fieldwork"]

  const TeachingStyles: seq<string> := ["expert", "formal-authority", "personal-model", "facilitator", "delegator"]

  /** prefix1, prefix2, ..., prefixN. */
  function Numbered(prefix: string, count: nat): (names: seq<string>)
    ensures |names| == count
    ensures forall i :: 0 <= i < count ==> names[i] == prefix + DecimalString(i + 1)
  {
    seq(count, i requires 0 <= i < count => prefix + DecimalString(i + 1))
  }

  /** For each item, prefix-item-like then prefix-item-learn. */
  function LikeLearn(prefix: string, items: seq<string>): (names: seq<string>)
    ensures |names| == 2 * |items|
    ensures forall i :: 0 <= i < |items| ==>
      names[2 * i] == prefix + items[i] + "-like" && names[2 * i + 1] == prefix + items[i] + "-learn"
  {
    seq(2 * |items|, k requires 0 <= k < 2 * |items| => prefix + items[k / 2] + (if k % 2 == 0 then "-like" else "-learn"))
  }

  function FfmGroups(): seq<string> { Numbered("ffm", 10) }
  function IlsActGroups(): seq<string> { Numbered("ils-act", 10) }
  function IlsMotGroups(): seq<string> { Numbered("ils-mot", 10) }
  function PedagogyGroups(): seq<string> { LikeLearn("pedagogy-", PedagogyMethods) }
  function TeachingStyleGroups(): seq<string> { LikeLearn("teaching-style-", TeachingStyles) }
}
