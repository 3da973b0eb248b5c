/**
 * The write half of the action handler in backend/app.py: the roster
 * dictionary `valid_map`, the two ways of resolving which students a command
 * targets (explicit id suffixes or a name/id pattern), the attendance store
 * and its upsert, and the confirmation message.
 */
module Attendance {
  import opened Wrappers
  import opened Text
  import opened Json

  /** A row of the `students` table: roll id, display name and free-form details. */
  datatype Student = Student(id: string, name: string, details: Json)

  /** The conflict key of `attendance_records`: (student_id, class_id, date). */
  datatype Key = Key(studentId: string, classId: string, date: Json)

  /** A Python dict from roll id to name, as its items in iteration order. */
  type Roster = seq<(string, string)>

  predicate HasId(d: Roster, id: string) {
    exists i :: 0 <= i < |d| && d[i].0 == id
  }

  predicate DistinctIds(d: Roster) {
    forall i, j :: 0 <= i < j < |d| ==> d[i].0 != d[j].0
  }

  /** `d.get(id)` */
  function Lookup(d: Roster, id: string): Option<string> {
    match FindKey(d, id)
    case Some(i) => Some(d[i].1)
    case None => None
  }

  /** `d[id]` for an id the dict holds. */
  function NameOf(d: Roster, id: string): string
    requires HasId(d, id)
  {
    match FindKey(d, id)
    case Some(i) => d[i].1
    case None => assert false; ""
  }

  /** `d[id] = name`: an existing key keeps its place, a new one goes last. */
  function Insert(d: Roster, id: string, name: string): Roster {
    match FindKey(d, id)
    case Some(i) => d[i := (id, name)]
    case None => d + [(id, name)]
  }

  /** `{str(s['student_id']): s['name'] for s in st_data}` */
  function ValidMap(students: seq<Student>): Roster
    decreases |students|
  {
    if students == [] then []
    else
      var last := students[|students| - 1];
      Insert(ValidMap(students[..|students| - 1]), last.id, last.name)
  }

  /** The name of the last student in `students` whose id is `id`. */
  function LastNameWith(students: seq<Student>, id: string): Option<string>
    decreases |students|
  {
    if students == [] then None
    else if students[|students| - 1].id == id then Some(students[|students| - 1].name)
    else LastNameWith(students[..|students| - 1], id)
  }

  // ---------------------------------------------------------------------
  // The roster dict
  // ---------------------------------------------------------------------

  lemma {:induction false} FindKeySameKeys(a: Roster, b: Roster, id: string)
    requires |a| == |b| && forall i :: 0 <= i < |a| ==> a[i].0 == b[i].0
    ensures FindKey(a, id) == FindKey(b, id)
  {
    match FindKey(a, id)
    case Some(i) =>
      assert b[i].0 == id;
    case None =>
  }

  /** Looking a key up after `d[id] = name` gives `name` for `id` and the old value elsewhere. */
  lemma InsertLookup(d: Roster, id: string, name: string, other: string)
    ensures Lookup(Insert(d, id, name), other) == if other == id then Some(name) else Lookup(d, other)
  {
    match FindKey(d, id)
    case Some(i) =>
      var e := d[i := (id, name)];
      FindKeySameKeys(d, e, other);
    case None =>
      var e := d + [(id, name)];
      if other != id {
        match FindKey(d, other)
        case Some(j) =>
        case None =>
      }
  }

  lemma InsertKeys(d: Roster, id: string, name: string)
    requires DistinctIds(d)
    ensures DistinctIds(Insert(d, id, name))
    ensures forall k :: HasId(Insert(d, id, name), k) <==> HasId(d, k) || k == id
  {
    var e := Insert(d, id, name);
    match FindKey(d, id)
    case Some(i) =>
      assert forall j :: 0 <= j < |e| ==> e[j].0 == d[j].0;
    case None =>
      assert e[|d|].0 == id;
      assert forall j :: 0 <= j < |d| ==> e[j] == d[j];
  }

  /**
   * `valid_map` has one key per distinct roster id, and each key maps to the
   * name of the last student with that id (a later dict entry overwrites).
   */
  lemma {:induction false} ValidMapSpec(students: seq<Student>)
    ensures DistinctIds(ValidMap(students))
    ensures forall k :: HasId(ValidMap(students), k) <==> exists i :: 0 <= i < |students| && students[i].id == k
    ensures forall k :: Lookup(ValidMap(students), k) == LastNameWith(students, k)
    decreases |students|
  {
    if students != [] {
      var init := students[..|students| - 1];
      var last := students[|students| - 1];
      ValidMapSpec(init);
      InsertKeys(ValidMap(init), last.id, last.name);
      forall k
        ensures Lookup(ValidMap(students), k) == LastNameWith(students, k)
      {
        InsertLookup(ValidMap(init), last.id, last.name, k);
      }
      forall k
        ensures HasId(ValidMap(students), k) <==> exists i :: 0 <= i < |students| && students[i].id == k
      {
        if exists i :: 0 <= i < |students| && students[i].id == k {
          var i :| 0 <= i < |students| && students[i].id == k;
          if i < |students| - 1 {
            assert init[i].id == k;
          }
        }
        if exists i :: 0 <= i < |init| && init[i].id == k {
          var i :| 0 <= i < |init| && init[i].id == k;
          assert students[i].id == k;
        }
      }
    }
  }

  /** With distinct roll ids, `valid_map` lists the roster in roster order. */
  lemma {:induction false} ValidMapOfDistinctIds(students: seq<Student>)
    requires forall i, j :: 0 <= i < j < |students| ==> students[i].id != students[j].id
    ensures ValidMap(students) == seq(|students|, i requires 0 <= i < |students| => (students[i].id, students[i].name))
    decreases |students|
  {
    if students != [] {
      var init := students[..|students| - 1];
      var last := students[|students| - 1];
      ValidMapOfDistinctIds(init);
      assert FindKey(ValidMap(init), last.id).None? by {
        forall i | 0 <= i < |init|
          ensures ValidMap(init)[i].0 != last.id
        {
          assert students[i].id == init[i].id;
        }
      }
    }
  }

  // ---------------------------------------------------------------------
  // Case A: explicit ids
  // ---------------------------------------------------------------------

  /** `next((k for k in valid_map.keys() if k.endswith(tid)), None)` */
  function FirstEndingWith(d: Roster, token: string): Option<string>
    decreases |d|
  {
    if d == [] then None
    else if EndsWith(d[0].0, token) then Some(d[0].0)
    else FirstEndingWith(d[1..], token)
  }

  /** The first key in dict order that ends with the token, and no earlier key does. */
  lemma {:induction false} FirstEndingWithSpec(d: Roster, token: string)
    ensures FirstEndingWith(d, token).Some? ==>
      exists i :: 0 <= i < |d| && d[i].0 == FirstEndingWith(d, token).value && EndsWith(d[i].0, token)
        && forall j :: 0 <= j < i ==> !EndsWith(d[j].0, token)
    ensures FirstEndingWith(d, token).None? <==> forall i :: 0 <= i < |d| ==> !EndsWith(d[i].0, token)
    decreases |d|
  {
    if d != [] && !EndsWith(d[0].0, token) {
      FirstEndingWithSpec(d[1..], token);
      var r := FirstEndingWith(d, token);
      if r.Some? {
        var i :| 0 <= i < |d[1..]| && d[1..][i].0 == r.value && EndsWith(d[1..][i].0, token)
          && forall j :: 0 <= j < i ==> !EndsWith(d[1..][j].0, token);
        assert d[i + 1] == d[1..][i];
        assert forall j :: 0 < j < i + 1 ==> d[j] == d[1..][j - 1];
      }
      assert forall i :: 0 < i < |d| ==> d[i] == d[1..][i - 1];
    }
  }

  /** One token of case A: its match, unless there is none or it is the falsy `""`. */
  function Resolve(d: Roster, token: string): seq<string> {
    match FirstEndingWith(d, token)
    case Some(k) => if k != "" then [k] else []
    case None => []
  }

  /** The targets of case A, one per token that resolves, in token order. */
  function ExplicitTargets(d: Roster, tokens: seq<string>): seq<string>
    decreases |tokens|
  {
    if tokens == [] then [] else ExplicitTargets(d, tokens[..|tokens| - 1]) + Resolve(d, tokens[|tokens| - 1])
  }

  /** `[str(i) for i in cmd.get('ids', [])]`: `None` when the value is not iterable. */
  function IdTokens(ids: Json): Option<seq<string>> {
    match ids
    case JArray(items, _) => Some(seq(|items|, i requires 0 <= i < |items| => PyStr(items[i])))
    case JStr(s) => Some(seq(|s|, i requires 0 <= i < |s| => [s[i]]))
    case JObject(fields, _) => Some(seq(|fields|, i requires 0 <= i < |fields| => fields[i].0))
    case _ => None
  }

  /** The loop over `raw_ids` in case A. */
  method ResolveIds(d: Roster, tokens: seq<string>) returns (targets: seq<string>)
    ensures targets == ExplicitTargets(d, tokens)
  {
    targets := [];
    var n := 0;
    while n < |tokens|
      invariant n <= |tokens|
      invariant targets == ExplicitTargets(d, tokens[..n])
    {
      var matched := FirstEndingWith(d, tokens[n]);
      if matched.Some? && matched.value != "" {
        targets := targets + [matched.value];
      }
      assert tokens[..n + 1][..n] == tokens[..n];
      n := n + 1;
    }
    assert tokens[..n] == tokens;
  }

  /**
   * Case A yields at most one target per token, every target is a non-empty
   * key of the dict, and it ends with the token it came from.
   */
  lemma {:induction false} ExplicitTargetsSpec(d: Roster, tokens: seq<string>)
    ensures |ExplicitTargets(d, tokens)| <= |tokens|
    ensures forall t :: t in ExplicitTargets(d, tokens) ==>
      (t != "" && HasId(d, t) && exists j :: 0 <= j < |tokens| && EndsWith(t, tokens[j]))
    decreases |tokens|
  {
    if tokens != [] {
      var init := tokens[..|tokens| - 1];
      var last := tokens[|tokens| - 1];
      ExplicitTargetsSpec(d, init);
      FirstEndingWithSpec(d, last);
      forall t | t in ExplicitTargets(d, tokens)
        ensures t != "" && HasId(d, t) && exists j :: 0 <= j < |tokens| && EndsWith(t, tokens[j])
      {
        if t in ExplicitTargets(d, init) {
          var j :| 0 <= j < |init| && EndsWith(t, init[j]);
          assert tokens[j] == init[j];
        } else {
          assert t in Resolve(d, last);
          assert EndsWith(t, tokens[|tokens| - 1]);
        }
      }
    }
  }

  /** A token that no key ends with contributes nothing. */
  lemma UnmatchedTokenDropped(d: Roster, tokens: seq<string>, token: string)
    requires forall i :: 0 <= i < |d| ==> !EndsWith(d[i].0, token)
    ensures ExplicitTargets(d, tokens + [token]) == ExplicitTargets(d, tokens)
  {
    FirstEndingWithSpec(d, token);
    assert (tokens + [token])[..|tokens|] == tokens;
  }

  // ---------------------------------------------------------------------
  // Case B: a pattern
  // ---------------------------------------------------------------------

  /** The pattern test of one roster entry against the lower-cased value. */
  predicate Matches(field: Json, kind: Json, value: string, id: string, name: string) {
    var check := if field == JStr("name") then Lower(name) else Lower(id);
    || (kind == JStr("startswith") && StartsWith(check, value))
    || (kind == JStr("endswith") && EndsWith(check, value))
    || (kind == JStr("contains") && Contains(check, value))
  }

  /** The ids case B selects, in dict order. */
  function PatternTargets(d: Roster, field: Json, kind: Json, value: string): seq<string>
    decreases |d|
  {
    if d == [] then []
    else
      var last := d[|d| - 1];
      PatternTargets(d[..|d| - 1], field, kind, value)
        + (if Matches(field, kind, value, last.0, last.1) then [last.0] else [])
  }

  /** The loop over `valid_map.items()` in case B. */
  method ResolvePattern(d: Roster, field: Json, kind: Json, value: string) returns (targets: seq<string>)
    ensures targets == PatternTargets(d, field, kind, value)
  {
    targets := [];
    var n := 0;
    while n < |d|
      invariant n <= |d|
      invariant targets == PatternTargets(d[..n], field, kind, value)
    {
      var (id, name) := d[n];
      var check := if field == JStr("name") then Lower(name) else Lower(id);
      var match_ := false;
      if kind == JStr("startswith") && StartsWith(check, value) {
        match_ := true;
      } else if kind == JStr("endswith") && EndsWith(check, value) {
        match_ := true;
      } else if kind == JStr("contains") && Contains(check, value) {
        match_ := true;
      }
      if match_ {
        targets := targets + [id];
      }
      assert d[..n + 1][..n] == d[..n];
      n := n + 1;
    }
    assert d[..n] == d;
  }

  /** Case B selects exactly the entries that match, each at most once per entry. */
  lemma {:induction false} PatternTargetsSpec(d: Roster, field: Json, kind: Json, value: string)
    ensures |PatternTargets(d, field, kind, value)| <= |d|
    ensures forall t :: t in PatternTargets(d, field, kind, value) <==>
      exists i :: 0 <= i < |d| && d[i].0 == t && Matches(field, kind, value, d[i].0, d[i].1)
    decreases |d|
  {
    if d != [] {
      var init := d[..|d| - 1];
      PatternTargetsSpec(init, field, kind, value);
      forall t
        ensures t in PatternTargets(d, field, kind, value) <==>
          exists i :: 0 <= i < |d| && d[i].0 == t && Matches(field, kind, value, d[i].0, d[i].1)
      {
        if exists i :: 0 <= i < |d| && d[i].0 == t && Matches(field, kind, value, d[i].0, d[i].1) {
          var i :| 0 <= i < |d| && d[i].0 == t && Matches(field, kind, value, d[i].0, d[i].1);
          if i < |d| - 1 {
            assert init[i] == d[i];
          }
        }
        if exists i :: 0 <= i < |init| && init[i].0 == t && Matches(field, kind, value, init[i].0, init[i].1) {
          var i :| 0 <= i < |init| && init[i].0 == t && Matches(field, kind, value, init[i].0, init[i].1);
          assert d[i] == init[i];
        }
      }
    }
  }

  /** A pattern type other than startswith, endswith or contains selects nobody. */
  lemma {:induction false} UnknownPatternTypeSelectsNobody(d: Roster, field: Json, kind: Json, value: string)
    requires kind != JStr("startswith") && kind != JStr("endswith") && kind != JStr("contains")
    ensures PatternTargets(d, field, kind, value) == []
    decreases |d|
  {
    if d != [] {
      UnknownPatternTypeSelectsNobody(d[..|d| - 1], field, kind, value);
    }
  }

  /** Three roll ids of which two end in 101. */
  const SampleRoster: Roster := [("CSE101", "Asha"), ("ECE101", "Kai"), ("CSE102", "Ravi")]

  lemma LowerSampleIds()
    ensures Lower("CSE101") == "cse101" && Lower("ECE101") == "ece101" && Lower("CSE102") == "cse102"
  {
  }

  /** `endswith "101"` on the id selects both ids ending in 101, in roster order. */
  lemma PatternEndsWith101()
    ensures PatternTargets(SampleRoster, JStr("id"), JStr("endswith"), "101") == ["CSE101", "ECE101"]
  {
    LowerSampleIds();
    var d := SampleRoster;
    var f, k := JStr("id"), JStr("endswith");
    assert Matches(f, k, "101", d[0].0, d[0].1) by { assert EndsWith("cse101", "101"); }
    assert Matches(f, k, "101", d[1].0, d[1].1) by { assert EndsWith("ece101", "101"); }
    assert !Matches(f, k, "101", d[2].0, d[2].1) by { assert !EndsWith("cse102", "101"); }
    assert [d[0]][..0] == [];
    assert PatternTargets([d[0]], f, k, "101") == ["CSE101"];
    assert [d[0], d[1]][..1] == [d[0]];
    assert PatternTargets([d[0], d[1]], f, k, "101") == ["CSE101", "ECE101"];
    assert d[..2] == [d[0], d[1]];
  }

  /** The token "101" is ambiguous; it resolves to the first id ending with it. */
  lemma AmbiguousTokenTakesFirst()
    ensures ExplicitTargets(SampleRoster, ["101"]) == ["CSE101"]
    ensures ExplicitTargets(SampleRoster, ["999"]) == []
  {
    var d := SampleRoster;
    assert ["101"][..0] == [];
    assert ["999"][..0] == [];
    assert EndsWith(d[0].0, "101");
    assert !EndsWith(d[0].0, "999") && !EndsWith(d[1].0, "999") && !EndsWith(d[2].0, "999");
    assert d[1..][1..][1..] == [];
  }

  // ---------------------------------------------------------------------
  // The store and the upsert
  // ---------------------------------------------------------------------

  /** `attendance_records` with its (student, class, date) conflict key. */
  class AttendanceStore {
    var records: map<Key, Json>

    constructor (initial: map<Key, Json>)
      ensures records == initial
    {
      records := initial;
    }

    /** `upsert({...}, on_conflict="student_id, class_id, date")` */
    method Upsert(studentId: string, classId: string, date: Json, status: Json)
      modifies this
      ensures records == old(records)[Key(studentId, classId, date) := status]
    {
      records := records[Key(studentId, classId, date) := status];
    }
  }

  /** The store after upserting `status` for every target, in order. */
  function UpsertAll(m: map<Key, Json>, targets: seq<string>, classId: string, date: Json, status: Json): map<Key, Json>
    decreases |targets|
  {
    if targets == [] then m
    else UpsertAll(m, targets[..|targets| - 1], classId, date, status)[Key(targets[|targets| - 1], classId, date) := status]
  }

  predicate Targeted(k: Key, targets: seq<string>, classId: string, date: Json) {
    k.studentId in targets && k.classId == classId && k.date == date
  }

  /**
   * After the upserts every targeted key holds `status`; every other key is
   * present exactly when it was before and keeps its value.
   */
  lemma {:induction false} UpsertAllSpec(m: map<Key, Json>, targets: seq<string>, classId: string, date: Json, status: Json)
    ensures var r := UpsertAll(m, targets, classId, date, status);
      forall k :: (k in r <==> k in m || Targeted(k, targets, classId, date))
        && (k in r ==> r[k] == if Targeted(k, targets, classId, date) then status else m[k])
    decreases |targets|
  {
    if targets != [] {
      var init := targets[..|targets| - 1];
      UpsertAllSpec(m, init, classId, date, status);
      assert forall s :: s in targets <==> s in init || s == targets[|targets| - 1];
    }
  }

  /** Replaying the same command leaves the store as the first run left it. */
  lemma UpsertAllIdempotent(m: map<Key, Json>, targets: seq<string>, classId: string, date: Json, status: Json)
    ensures var once := UpsertAll(m, targets, classId, date, status);
      UpsertAll(once, targets, classId, date, status) == once
  {
    var once := UpsertAll(m, targets, classId, date, status);
    UpsertAllSpec(m, targets, classId, date, status);
    UpsertAllSpec(once, targets, classId, date, status);
  }

  /** The names of the targets, looked up in the dict (`valid_map[sid]`). */
  function NamesOf(d: Roster, targets: seq<string>): (names: seq<string>)
    requires forall t :: t in targets ==> HasId(d, t)
    ensures |names| == |targets|
  {
    seq(|targets|, i requires 0 <= i < |targets| => NameOf(d, targets[i]))
  }

  /** The upsert loop: one upsert per target, collecting the names. */
  method ApplyAttendance(store: AttendanceStore, d: Roster, targets: seq<string>, classId: string, date: Json, status: Json)
    returns (names: seq<string>)
    requires forall t :: t in targets ==> HasId(d, t)
    modifies store
    ensures store.records == UpsertAll(old(store.records), targets, classId, date, status)
    ensures names == NamesOf(d, targets)
  {
    names := [];
    var n := 0;
    while n < |targets|
      invariant n <= |targets|
      invariant store.records == UpsertAll(old(store.records), targets[..n], classId, date, status)
      invariant names == NamesOf(d, targets[..n])
    {
      var sid := targets[n];
      store.Upsert(sid, classId, date, status);
      names := names + [NameOf(d, sid)];
      assert targets[..n + 1][..n] == targets[..n];
      n := n + 1;
    }
    assert targets[..n] == targets;
  }

  // ---------------------------------------------------------------------
  // The confirmation
  // ---------------------------------------------------------------------

  const Check := "\U{2705}"

  /** The reply after the upserts: the full list for up to five names, a summary beyond. */
  function Confirmation(status: Json, names: seq<string>): string {
    var head := Check + " Marked **" + PyStr(status) + "** for";
    if |names| > 5 then
      head + " **" + IntToString(|names|) + " students** (including " + names[0] + ", " + names[1] + "...)"
    else head + ": " + Join(names, ", ")
  }

  /** Up to five names: every name appears in the reply. */
  lemma ConfirmationListsEveryName(status: Json, names: seq<string>, i: nat)
    requires |names| <= 5 && i < |names|
    ensures Contains(Confirmation(status, names), names[i])
  {
    var head := Check + " Marked **" + PyStr(status) + "** for";
    JoinContains(names, ", ", i);
    ContainsInSuffix(head + ": ", Join(names, ", "), names[i]);
  }

  /** More than five names: the reply gives the count and the first two names. */
  lemma ConfirmationSummarises(status: Json, names: seq<string>)
    requires |names| > 5
    ensures Contains(Confirmation(status, names), IntToString(|names|))
    ensures Contains(Confirmation(status, names), names[0])
    ensures Contains(Confirmation(status, names), names[1])
  {
    var head := Check + " Marked **" + PyStr(status) + "** for";
    var a := head + " **";
    var n := IntToString(|names|);
    var b := " students** (including ";
    var msg := a + n + b + names[0] + ", " + names[1] + "...)";
    assert msg == a + n + (b + names[0] + ", " + names[1] + "...)");
    ContainsInfix(a, n, b + names[0] + ", " + names[1] + "...)");
    assert msg == (a + n + b) + names[0] + (", " + names[1] + "...)");
    ContainsInfix(a + n + b, names[0], ", " + names[1] + "...)");
    assert msg == (a + n + b + names[0] + ", ") + names[1] + "...)";
    ContainsInfix(a + n + b + names[0] + ", ", names[1], "...)");
  }

  /** Both forms open with the status. */
  lemma ConfirmationStartsWithStatus(status: Json, names: seq<string>)
    ensures StartsWith(Confirmation(status, names), Check + " Marked **" + PyStr(status) + "**")
  {
    var p := Check + " Marked **" + PyStr(status) + "**";
    var msg := Confirmation(status, names);
    assert msg[..|p|] == p;
  }
}
