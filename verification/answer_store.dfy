/**
 * The test page's use of localStorage: saving one answer as it changes, restoring the page from
 * the stored answers when it loads, and the snapshot written just before a valid submission.
 */
module AnswerStore {
  import opened Wrappers
  import opened Dom
  import opened Validation
  import opened Fields
  import opened Results
  import Text

  /** The key the submission snapshot stamps with the time it was taken. */
  const TimestampKey := "questionnaire_timestamp"

  /** saveAnswerToStorage: null, undefined (None) and "" leave the store as it is. */
  function SaveAnswerToStorage(store: Store, name: string, value: Option<string>): (r: Store)
    ensures value.None? || value.value == "" ==> r == store
    ensures value.Some? && value.value != "" ==>
      && r.Keys == store.Keys + {name}
      && r[name] == value.value
      && (forall k :: k in store && k != name ==> r[k] == store[k])
  {
    if value.None? || value.value == "" then store else store[name := value.value]
  }

  // ---------------------------------------------------------------------------------------
  // Restoring radio groups

  /** j is the last radio of the group whose value is `saved`. */
  predicate IsLastMatch(group: seq<Radio>, saved: string, j: int) {
    && 0 <= j < |group|
    && group[j].value == saved
    && (forall k :: j < k < |group| ==> group[k].value != saved)
  }

  predicate HasValue(group: seq<Radio>, saved: string, from: nat) {
    exists j :: from <= j < |group| && group[j].value == saved
  }

  /** Checking radio i of a group unchecks every other radio of the same group. */
  function CheckOnly(group: seq<Radio>, i: nat): (r: seq<Radio>)
    requires i < |group|
    ensures |r| == |group|
    ensures forall j :: 0 <= j < |r| ==> r[j].value == group[j].value && (r[j].checked <==> j == i)
  {
    seq(|group|, j requires 0 <= j < |group| => group[j].(checked := j == i))
  }

  /** Checking a radio changes no value, so it changes neither where a value occurs nor its last occurrence. */
  lemma CheckOnlyKeepsValues(group: seq<Radio>, i: nat, saved: string)
    requires i < |group|
    ensures forall j :: 0 <= j < |group| ==> (IsLastMatch(CheckOnly(group, i), saved, j) <==> IsLastMatch(group, saved, j))
    ensures forall from: nat :: HasValue(CheckOnly(group, i), saved, from) <==> HasValue(group, saved, from)
  {
  }

  /** The radio loop of loadSavedAnswers over one group, from position `from` on. */
  function RestoreGroupFrom(group: seq<Radio>, saved: string, from: nat): (r: seq<Radio>)
    requires from <= |group|
    ensures |r| == |group|
    ensures forall j :: 0 <= j < |r| ==> r[j].value == group[j].value
    ensures HasValue(group, saved, from) ==> forall j :: 0 <= j < |r| ==> (r[j].checked <==> IsLastMatch(group, saved, j))
    ensures !HasValue(group, saved, from) ==> r == group
    decreases |group| - from
  {
    if from == |group| then group
    else if group[from].value == saved then
      var next := CheckOnly(group, from);
      CheckOnlyKeepsValues(group, from, saved);
      RestoreGroupFrom(next, saved, from + 1)
    else
      RestoreGroupFrom(group, saved, from + 1)
  }

  /**
   * The restore rule for one radio group: when some radio's value is the stored string, the last
   * such radio ends up the only checked one; otherwise the group is left as it is.
   */
  function RestoreGroup(group: seq<Radio>, saved: string): (r: seq<Radio>)
    ensures |r| == |group| && forall j :: 0 <= j < |r| ==> r[j].value == group[j].value
    ensures HasValue(group, saved, 0) ==> forall j :: 0 <= j < |r| ==> (r[j].checked <==> IsLastMatch(group, saved, j))
    ensures !HasValue(group, saved, 0) ==> r == group
  {
    RestoreGroupFrom(group, saved, 0)
  }

  /** After a successful restore exactly one radio is checked, and it carries the stored value. */
  lemma RestoredGroupChecksSaved(group: seq<Radio>, saved: string)
    requires HasValue(group, saved, 0)
    ensures CheckedValue(RestoreGroup(group, saved)) == Some(saved)
    ensures forall i, j :: 0 <= i < j < |group| ==> !(RestoreGroup(group, saved)[i].checked && RestoreGroup(group, saved)[j].checked)
  {
    var r := RestoreGroup(group, saved);
    var j :| 0 <= j < |group| && group[j].value == saved;
    var last := LastMatchFrom(group, saved, j);
    assert r[last].checked;
  }

  /** From a matching radio at j, the last matching radio exists at j or after. */
  lemma {:induction false} LastMatchFrom(group: seq<Radio>, saved: string, j: nat) returns (last: nat)
    requires j < |group| && group[j].value == saved
    ensures j <= last && IsLastMatch(group, saved, last)
    decreases |group| - j
  {
    if exists k :: j < k < |group| && group[k].value == saved {
      var k :| j < k < |group| && group[k].value == saved;
      last := LastMatchFrom(group, saved, k);
    } else {
      last := j;
    }
  }

  // ---------------------------------------------------------------------------------------
  // loadSavedAnswers

  /** A select set to a value: that value when one of its options has it, else nothing selected. */
  function SetSelectValue(s: Select, value: string): (r: Select)
    ensures r.options == s.options
    ensures value in s.options ==> r.value == value
    ensures value !in s.options ==> r.value == ""
  {
    Select(s.options, if value in s.options then value else "")
  }

  /** A text value restored from the store: the stored string when it is not empty. */
  function Restored(store: Store, name: string, current: string): string {
    if HasAnswer(store, name) then store[name] else current
  }

  function RestoreTexts(texts: map<string, string>, store: Store): (r: map<string, string>)
    ensures r.Keys == texts.Keys
    ensures forall k :: k in texts ==> r[k] == if HasAnswer(store, k) then store[k] else texts[k]
  {
    map k | k in texts :: Restored(store, k, texts[k])
  }

  function RestoreSelects(selects: map<string, Select>, store: Store): (r: map<string, Select>)
    ensures r.Keys == selects.Keys
    ensures forall k :: k in selects ==> r[k] == if HasAnswer(store, k) then SetSelectValue(selects[k], store[k]) else selects[k]
  {
    map k | k in selects :: if HasAnswer(store, k) then SetSelectValue(selects[k], store[k]) else selects[k]
  }

  function RestoreRadios(radios: map<string, seq<Radio>>, store: Store): (r: map<string, seq<Radio>>)
    ensures r.Keys == radios.Keys
    ensures forall k :: k in radios ==> r[k] == if HasAnswer(store, k) then RestoreGroup(radios[k], store[k]) else radios[k]
  {
    map k | k in radios :: if HasAnswer(store, k) then RestoreGroup(radios[k], store[k]) else radios[k]
  }

  /** The counter of a free-text field is refreshed when that field was restored. */
  function RefreshCounter(page: Page, store: Store, name: string, counterId: string): (p: Page)
    ensures p.inputs == page.inputs && p.textareas == page.textareas && p.selects == page.selects
    ensures p.radios == page.radios && p.errors == page.errors
    ensures name in page.textareas && HasAnswer(store, name) ==> p == UpdateCount(page, name, counterId)
    ensures !(name in page.textareas && HasAnswer(store, name)) ==> p == page
  {
    if name in page.textareas && HasAnswer(store, name) then UpdateCount(page, name, counterId) else page
  }

  /**
   * The counter `counterId` after a load: it shows the restored value's length and tier when the
   * textarea `name` was restored, and is as it was otherwise.
   */
  predicate CounterAfterLoad(page: Page, store: Store, p: Page, name: string, counterId: string)
    requires p.counters.Keys == page.counters.Keys
  {
    counterId in page.counters ==>
      p.counters[counterId] ==
        if name in page.textareas && HasAnswer(store, name) then
          var n := JsNumber.Utf16Length(store[name]);
          Counter(CountText(n), TierColor(CountTier(n)))
        else page.counters[counterId]
  }

  /**
   * loadSavedAnswers: text and number inputs and textareas take any non-empty stored string under
   * their name; a restored free-text field refreshes its counter; selects are set to the stored
   * string; radio groups follow RestoreGroup.
   */
  function LoadSavedAnswers(page: Page, store: Store): (p: Page)
    ensures p.inputs.Keys == page.inputs.Keys && p.textareas.Keys == page.textareas.Keys
    ensures p.selects.Keys == page.selects.Keys && p.radios.Keys == page.radios.Keys
    ensures p.errors == page.errors
    ensures forall k :: k in page.inputs ==> p.inputs[k] == if HasAnswer(store, k) then store[k] else page.inputs[k]
    ensures forall k :: k in page.textareas ==> p.textareas[k] == if HasAnswer(store, k) then store[k] else page.textareas[k]
    ensures forall k :: k in page.selects ==> p.selects[k] == if HasAnswer(store, k) then SetSelectValue(page.selects[k], store[k]) else page.selects[k]
    ensures forall k :: k in page.radios ==> p.radios[k] == if HasAnswer(store, k) then RestoreGroup(page.radios[k], store[k]) else page.radios[k]
    ensures p.counters.Keys == page.counters.Keys
    ensures CounterAfterLoad(page, store, p, "remarks-admin", "remarks-admin-char-count")
    ensures CounterAfterLoad(page, store, p, "study-tips", "study-tips-char-count")
    ensures forall k :: k in page.counters && k != "remarks-admin-char-count" && k != "study-tips-char-count" ==>
      p.counters[k] == page.counters[k]
  {
    var texts := page.(inputs := RestoreTexts(page.inputs, store), textareas := RestoreTexts(page.textareas, store));
    var remarks := RefreshCounter(texts, store, "remarks-admin", "remarks-admin-char-count");
    var counted := RefreshCounter(remarks, store, "study-tips", "study-tips-char-count");
    RefreshesMeetCounters(page, store, texts, remarks, counted);
    counted.(selects := RestoreSelects(page.selects, store), radios := RestoreRadios(page.radios, store))
  }

  /** The two counter refreshes of a load, each on its own counter. */
  lemma RefreshesMeetCounters(page: Page, store: Store, texts: Page, remarks: Page, counted: Page)
    requires texts == page.(inputs := RestoreTexts(page.inputs, store), textareas := RestoreTexts(page.textareas, store))
    requires remarks == RefreshCounter(texts, store, "remarks-admin", "remarks-admin-char-count")
    requires counted == RefreshCounter(remarks, store, "study-tips", "study-tips-char-count")
    ensures counted.counters.Keys == page.counters.Keys
    ensures CounterAfterLoad(page, store, counted, "remarks-admin", "remarks-admin-char-count")
    ensures CounterAfterLoad(page, store, counted, "study-tips", "study-tips-char-count")
    ensures forall k :: k in page.counters && k != "remarks-admin-char-count" && k != "study-tips-char-count" ==>
      counted.counters[k] == page.counters[k]
  {
    assert "remarks-admin-char-count"[0] != "study-tips-char-count"[0];
    assert remarks.textareas == texts.textareas;
  }

  /** A restored free-text field's counter shows the restored value's length and tier. */
  lemma RestoredCounterShowsLength(page: Page, store: Store)
    requires "remarks-admin" in page.textareas && HasAnswer(store, "remarks-admin")
    requires "remarks-admin-char-count" in page.counters
    ensures var c := LoadSavedAnswers(page, store).counters["remarks-admin-char-count"];
      var n := JsNumber.Utf16Length(store["remarks-admin"]);
      c.text == CountText(n) && c.color == TierColor(CountTier(n))
  {
  }

  // ---------------------------------------------------------------------------------------
  // Round trips through the store

  /** A non-empty text saved by saveAnswerToStorage comes back into its input on the next load. */
  lemma SavedInputIsRestored(page: Page, store: Store, name: string, value: string)
    requires name in page.inputs && value != ""
    ensures LoadSavedAnswers(page, SaveAnswerToStorage(store, name, Some(value))).inputs[name] == value
  {
  }

  /**
   * A radio's value saved on change comes back as the group's checked value on the next load,
   * whatever the page showed before.
   */
  lemma SavedRadioIsRestored(page: Page, store: Store, name: string, value: string)
    requires name in page.radios && HasValue(page.radios[name], value, 0) && value != ""
    ensures GroupValue(LoadSavedAnswers(page, SaveAnswerToStorage(store, name, Some(value))), name) == Some(value)
  {
    RestoredGroupChecksSaved(page.radios[name], value);
  }

  /** Loading twice from the same store gives the page loading once gives. */
  lemma {:induction false} RestoreGroupIsIdempotent(group: seq<Radio>, saved: string)
    ensures RestoreGroup(RestoreGroup(group, saved), saved) == RestoreGroup(group, saved)
  {
    var r := RestoreGroup(group, saved);
    if HasValue(group, saved, 0) {
      assert HasValue(r, saved, 0) by {
        var j :| 0 <= j < |group| && group[j].value == saved;
        assert r[j].value == saved;
      }
      var rr := RestoreGroup(r, saved);
      assert forall j :: 0 <= j < |group| ==> (IsLastMatch(r, saved, j) <==> IsLastMatch(group, saved, j));
      assert forall j :: 0 <= j < |group| ==> rr[j] == r[j];
    }
  }

  // ---------------------------------------------------------------------------------------
  // The snapshot before submission

  /** Where a snapshot entry reads its value: an element found by name. */
  datatype Source = InputOf(name: string) | RadioOf(name: string) | SelectOf(name: string) | TextareaOf(name: string)

  /** What `querySelector(...)?.value` gives for the source: None when no element matches. */
  function Read(page: Page, src: Source): Option<string> {
    match src
    case InputOf(n) => if n in page.inputs then Some(page.inputs[n]) else None
    case RadioOf(n) => GroupValue(page, n)
    case SelectOf(n) => if n in page.selects then Some(page.selects[n].value) else None
    case TextareaOf(n) => if n in page.textareas then Some(page.textareas[n]) else None
  }

  /** The fields collectFormData lists by hand, under their camel-case keys. */
  const ScalarEntries: seq<(string, Source)> := [
    ("anonymousID", InputOf("anonymous-id")),
    ("gender", RadioOf("gender")),
    ("age", InputOf("age")),
    ("economicSituation", SelectOf("economic-situation")),
    ("classYear", RadioOf("class-year")),
    ("studyField", RadioOf("study-field")),
    ("grades", InputOf("grades")),
    ("selfConfidence", RadioOf("self-confidence")),
    ("stress", RadioOf("stress")),
    ("wellBeing", RadioOf("well-being")),
    ("knowledgeDurability", RadioOf("knowledge-durability")),
    ("cheating", RadioOf("cheating")),
    ("remarksAdmin", TextareaOf("remarks-admin")),
    ("studyTips", TextareaOf("study-tips"))]

  /** The numbered loop of collectFormData runs over questions 1 to 10 of each battery. */
  const QuestionsPerBattery: nat := 10

  /** ffm1, ils-act1, ils-mot1, ffm2, ..., ils-mot<n>: the order of collectFormData's numbered loop. */
  function NumberedGroups(n: nat): seq<string> {
    if n == 0 then []
    else NumberedGroups(n - 1) + ["ffm" + Text.DecimalString(n), "ils-act" + Text.DecimalString(n), "ils-mot" + Text.DecimalString(n)]
  }

  /** Each radio group read under its own name. */
  function RadioEntries(names: seq<string>): (entries: seq<(string, Source)>)
    ensures |entries| == |names|
    ensures forall i :: 0 <= i < |names| ==> entries[i] == (names[i], RadioOf(names[i]))
  {
    seq(|names|, i requires 0 <= i < |names| => (names[i], RadioOf(names[i])))
  }

  /** The radio groups collectFormData adds: ffm, ils-act and ils-mot by number, then pedagogy, then teaching styles. */
  function GroupEntries(): seq<(string, Source)> {
    RadioEntries(NumberedGroups(QuestionsPerBattery) + PedagogyGroups() + TeachingStyleGroups())
  }

  /** Each entry's key mapped to what its element gives; the last entry with a key decides it. */
  function CollectEntries(page: Page, entries: seq<(string, Source)>): (data: map<string, Option<string>>)
    ensures forall i :: 0 <= i < |entries| && LastWithKey(entries, i) ==>
      entries[i].0 in data && data[entries[i].0] == Read(page, entries[i].1)
  {
    if entries == [] then map[]
    else
      var init := entries[..|entries| - 1];
      var data := CollectEntries(page, init);
      assert forall i :: 0 <= i < |init| ==> init[i] == entries[i];
      data[entries[|entries| - 1].0 := Read(page, entries[|entries| - 1].1)]
  }

  /** The collected object has exactly the entries' keys. */
  lemma {:induction false} CollectedKeys(page: Page, entries: seq<(string, Source)>)
    ensures forall k :: k in CollectEntries(page, entries) <==> exists i :: 0 <= i < |entries| && entries[i].0 == k
  {
    if entries != [] {
      var init := entries[..|entries| - 1];
      CollectedKeys(page, init);
      assert forall i :: 0 <= i < |init| ==> init[i] == entries[i];
    }
  }

  /** collectFormData. */
  function CollectFormData(page: Page): (data: map<string, Option<string>>)
    ensures forall k :: k in data <==> exists i :: 0 <= i < |SnapshotEntries()| && SnapshotEntries()[i].0 == k
    ensures forall i :: 0 <= i < |SnapshotEntries()| && LastWithKey(SnapshotEntries(), i) ==>
      data[SnapshotEntries()[i].0] == Read(page, SnapshotEntries()[i].1)
  {
    var entries := SnapshotEntries();
    CollectedKeys(page, entries);
    CollectEntries(page, entries)
  }

  function SnapshotEntries(): seq<(string, Source)> {
    ScalarEntries + GroupEntries()
  }

  /** The numbered loop reaches question n of both ILS batteries for every n up to its bound. */
  lemma {:induction false} NumberedGroupsHoldIls(m: nat, n: nat)
    requires 1 <= n <= m
    ensures |NumberedGroups(m)| == 3 * m
    ensures NumberedGroups(m)[3 * (n - 1) + 1] == IlsKey("ils-act", n)
    ensures NumberedGroups(m)[3 * (n - 1) + 2] == IlsKey("ils-mot", n)
  {
    NumberedGroupsLength(m - 1);
    if n < m {
      NumberedGroupsHoldIls(m - 1, n);
    }
  }

  lemma {:induction false} NumberedGroupsLength(m: nat)
    ensures |NumberedGroups(m)| == 3 * m
  {
    if m > 0 {
      NumberedGroupsLength(m - 1);
    }
  }

  /** The snapshot saves every ILS answer under the storage key the results page reads it from. */
  lemma SnapshotCoversIlsKeys(page: Page)
    ensures forall n :: 1 <= n <= QuestionsPerBattery ==> IlsKey("ils-act", n) in CollectFormData(page)
    ensures forall n :: 1 <= n <= QuestionsPerBattery ==> IlsKey("ils-mot", n) in CollectFormData(page)
  {
    forall n | 1 <= n <= QuestionsPerBattery
      ensures IlsKey("ils-act", n) in CollectFormData(page) && IlsKey("ils-mot", n) in CollectFormData(page)
    {
      BatteryKeyCollected(page, "ils-act", n, 1);
      BatteryKeyCollected(page, "ils-mot", n, 2);
    }
  }

  /** Question n of a battery sits at place `offset` of the n-th triple of the numbered loop. */
  lemma BatteryKeyCollected(page: Page, battery: string, n: nat, offset: nat)
    requires 1 <= n <= QuestionsPerBattery
    requires (battery == "ils-act" && offset == 1) || (battery == "ils-mot" && offset == 2)
    ensures IlsKey(battery, n) in CollectFormData(page)
  {
    var j := 3 * (n - 1) + offset;
    NumberedGroupsHoldIls(QuestionsPerBattery, n);
    NumberedNameCollected(page, j);
  }

  lemma NumberedNameCollected(page: Page, j: nat)
    requires j < |NumberedGroups(QuestionsPerBattery)|
    ensures NumberedGroups(QuestionsPerBattery)[j] in CollectFormData(page)
  {
    GroupNameAt(j);
    SnapshotGroupAt(j);
    EntryKeyCollected(page, |ScalarEntries| + j);
  }

  lemma GroupNameAt(j: nat)
    requires j < |NumberedGroups(QuestionsPerBattery)|
    ensures j < |GroupEntries()| && GroupEntries()[j].0 == NumberedGroups(QuestionsPerBattery)[j]
  {
    var names := NumberedGroups(QuestionsPerBattery) + PedagogyGroups() + TeachingStyleGroups();
    assert names[j] == NumberedGroups(QuestionsPerBattery)[j];
  }

  lemma SnapshotGroupAt(j: nat)
    requires j < |GroupEntries()|
    ensures |ScalarEntries| + j < |SnapshotEntries()| && SnapshotEntries()[|ScalarEntries| + j] == GroupEntries()[j]
  {
  }

  lemma EntryKeyCollected(page: Page, i: nat)
    requires i < |SnapshotEntries()|
    ensures SnapshotEntries()[i].0 in CollectFormData(page)
  {
  }

  /** No later entry has the key of entry i. */
  predicate LastWithKey(entries: seq<(string, Source)>, i: int)
    requires 0 <= i < |entries|
  {
    forall j :: i < j < |entries| ==> entries[j].0 != entries[i].0
  }

  /**
   * saveAllFormData: every collected value that is not null or undefined is written, the empty
   * string included, and the snapshot is stamped with `timestamp` (new Date().toISOString(), a
   * parameter here).
   */
  method SaveAllFormData(store: Store, data: map<string, Option<string>>, timestamp: string) returns (r: Store)
    ensures forall k :: k in r <==> k in store || (k in data && data[k].Some?) || k == TimestampKey
    ensures r[TimestampKey] == timestamp
    ensures forall k :: k != TimestampKey && k in data && data[k].Some? ==> r[k] == data[k].value
    ensures forall k :: k != TimestampKey && k in store && !(k in data && data[k].Some?) ==> r[k] == store[k]
  {
    r := store;
    var pending := data.Keys;
    while pending != {}
      invariant pending <= data.Keys
      invariant forall k :: k in r <==> k in store || (k in data && k !in pending && data[k].Some?)
      invariant forall k :: k in data && k !in pending && data[k].Some? ==> r[k] == data[k].value
      invariant forall k :: k in store && !(k in data && k !in pending && data[k].Some?) ==> r[k] == store[k]
      decreases |pending|
    {
      var k :| k in pending;
      if data[k].Some? {
        r := r[k := data[k].value];
      }
      pending := pending - {k};
    }
    r := r[TimestampKey := timestamp];
  }

  /** `snapshot` is what saveAllFormData leaves when it writes `data` stamped with `timestamp` over `store`. */
  ghost predicate IsSnapshot(store: Store, data: map<string, Option<string>>, timestamp: string, snapshot: Store) {
    && (forall k :: k in snapshot <==> k in store || (k in data && data[k].Some?) || k == TimestampKey)
    && TimestampKey in snapshot && snapshot[TimestampKey] == timestamp
    && (forall k :: k != TimestampKey && k in data && data[k].Some? ==> snapshot[k] == data[k].value)
    && (forall k :: k != TimestampKey && k in store && !(k in data && data[k].Some?) ==> snapshot[k] == store[k])
  }

  /**
   * A radio value captured by the snapshot comes back on the next load: the snapshot and the
   * restore rule meet under the group's own name.
   */
  lemma SnapshotRestoresGroup(later: Page, store: Store, data: map<string, Option<string>>,
                              timestamp: string, snapshot: Store, name: string, value: string)
    requires IsSnapshot(store, data, timestamp, snapshot)
    requires name != TimestampKey && name in data && data[name] == Some(value) && value != ""
    requires name in later.radios && HasValue(later.radios[name], value, 0)
    ensures GroupValue(LoadSavedAnswers(later, snapshot), name) == Some(value)
  {
    RestoredGroupChecksSaved(later.radios[name], value);
  }

  /** A non-empty text captured by the snapshot under an input's own name comes back into that input on the next load. */
  lemma SnapshotRestoresInput(later: Page, store: Store, data: map<string, Option<string>>,
                              timestamp: string, snapshot: Store, name: string, value: string)
    requires IsSnapshot(store, data, timestamp, snapshot)
    requires name != TimestampKey && name in data && data[name] == Some(value) && value != ""
    requires name in later.inputs
    ensures LoadSavedAnswers(later, snapshot).inputs[name] == value
  {
  }
}
