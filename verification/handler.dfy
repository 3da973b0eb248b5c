/**
 * The action branch of the `/chat` route in backend/app.py: when the model's
 * reply carries `"action":`, strip the code fences, parse it as JSON and run
 * either the attendance update or the read-only analysis for the teacher's
 * class; in every other case, and on any exception, reply with the model's
 * text unchanged.
 */
module ActionHandler {
  import opened Wrappers
  import opened Text
  import opened Json
  import opened Attendance
  import opened Analysis

  const Marker := "\"action\":"
  const NoStudents := "\U{274C} No students found matching your criteria."

  /** The reply sent back and the attendance store afterwards. */
  datatype Outcome = Outcome(reply: string, records: map<Key, Json>)

  /** `txt.replace('```json','').replace('```','').strip()` */
  function Clean(txt: string): string {
    Strip(ReplaceAll(ReplaceAll(txt, "```json", ""), "```", ""))
  }

  /**
   * The students case A or case B selects; `None` stands for the exceptions
   * raised on the way (ids that cannot be iterated, a pattern that is not a
   * dict, a pattern value that is not a string).
   */
  function TargetsOf(cmd: Json, d: Roster): Option<seq<string>>
    requires cmd.JObject?
  {
    if HasKey(cmd, "ids") then
      match IdTokens(GetOr(cmd, "ids", JArray([], "[]")))
      case None => None
      case Some(tokens) => Some(ExplicitTargets(d, tokens))
    else if HasKey(cmd, "pattern") then
      var p := Get(cmd, "pattern");
      if !p.JObject? then None
      else
        match GetOr(p, "value", JStr(""))
        case JStr(v) => Some(PatternTargets(d, Get(p, "field"), Get(p, "type"), Lower(v)))
        case _ => None
    else Some([])
  }

  /** Every selected target is a key of the roster dict. */
  lemma TargetsAreRosterIds(cmd: Json, d: Roster)
    requires cmd.JObject?
    ensures TargetsOf(cmd, d).Some? ==> forall t :: t in TargetsOf(cmd, d).value ==> HasId(d, t)
  {
    if HasKey(cmd, "ids") {
      match IdTokens(GetOr(cmd, "ids", JArray([], "[]")))
      case None =>
      case Some(tokens) => ExplicitTargetsSpec(d, tokens);
    } else if HasKey(cmd, "pattern") {
      var p := Get(cmd, "pattern");
      if p.JObject? {
        match GetOr(p, "value", JStr(""))
        case JStr(v) =>
          PatternTargetsSpec(d, Get(p, "field"), Get(p, "type"), Lower(v));
          forall t | t in PatternTargets(d, Get(p, "field"), Get(p, "type"), Lower(v))
            ensures HasId(d, t)
          {
            var i :| 0 <= i < |d| && d[i].0 == t && Matches(Get(p, "field"), Get(p, "type"), Lower(v), d[i].0, d[i].1);
          }
        case _ =>
      }
    }
  }

  /** `update_attendance` for the class, over its students and the store. */
  function UpdateAttendance(txt: string, cmd: Json, classId: string, students: seq<Student>, records: map<Key, Json>): Outcome
    requires cmd.JObject?
  {
    var status := GetOr(cmd, "status", JStr("Present"));
    var date := Get(cmd, "date");
    var d := ValidMap(students);
    match TargetsOf(cmd, d)
    case None => Outcome(txt, records)
    case Some(targets) =>
      if targets == [] then Outcome(NoStudents, records)
      else
        TargetsAreRosterIds(cmd, d);
        Outcome(Confirmation(status, NamesOf(d, targets)), UpsertAll(records, targets, classId, date, status))
  }

  /** `analyze_data`: never writes; a `search_name` that is not a string raises. */
  function AnalyzeData(txt: string, cmd: Json, classId: string, students: seq<Student>, records: map<Key, Json>): Outcome
    requires cmd.JObject?
  {
    var filterType := GetOr(cmd, "filter_type", JStr("attendance"));
    var op := Get(cmd, "operator");
    var val := Get(cmd, "value");
    match GetOr(cmd, "search_name", JStr(""))
    case JStr(name) =>
      Outcome(AnalysisReply(students, records, classId, Lower(name), filterType, op, val), records)
    case _ => Outcome(txt, records)
  }

  /**
   * The whole branch. `parse` is `json.loads`, `None` standing for a parse
   * error; `classId` is `""` when the request has no class.
   */
  function Handle(txt: string, parse: string -> Option<Json>, classId: string,
                  students: seq<Student>, records: map<Key, Json>): Outcome
  {
    if !Contains(txt, Marker) then Outcome(txt, records)
    else
      match parse(Clean(txt))
      case None => Outcome(txt, records)
      case Some(cmd) =>
        if classId == "" || !cmd.JObject? then Outcome(txt, records)
        else if Get(cmd, "action") == JStr("update_attendance") then UpdateAttendance(txt, cmd, classId, students, records)
        else if Get(cmd, "action") == JStr("analyze_data") then AnalyzeData(txt, cmd, classId, students, records)
        else Outcome(txt, records)
  }

  /** The action handler, writing to the store. */
  method HandleReply(store: AttendanceStore, txt: string, parse: string -> Option<Json>, classId: string,
                     students: seq<Student>) returns (reply: string)
    modifies store
    ensures reply == Handle(txt, parse, classId, students, old(store.records)).reply
    ensures store.records == Handle(txt, parse, classId, students, old(store.records)).records
  {
    reply := txt;
    if !Contains(txt, Marker) {
      return;
    }
    var parsed := parse(Clean(txt));
    if parsed.None? || classId == "" || !parsed.value.JObject? {
      return;
    }
    var cmd := parsed.value;
    if Get(cmd, "action") == JStr("update_attendance") {
      var status := GetOr(cmd, "status", JStr("Present"));
      var date := Get(cmd, "date");
      var d := ValidMap(students);
      var targets: seq<string> := [];
      if HasKey(cmd, "ids") {
        var tokens := IdTokens(GetOr(cmd, "ids", JArray([], "[]")));
        if tokens.None? {
          return;
        }
        targets := ResolveIds(d, tokens.value);
      } else if HasKey(cmd, "pattern") {
        var p := Get(cmd, "pattern");
        if !p.JObject? {
          return;
        }
        var value := GetOr(p, "value", JStr(""));
        if !value.JStr? {
          return;
        }
        targets := ResolvePattern(d, Get(p, "field"), Get(p, "type"), Lower(value.s));
      }
      assert TargetsOf(cmd, d) == Some(targets);
      if targets == [] {
        return NoStudents;
      }
      TargetsAreRosterIds(cmd, d);
      var names := ApplyAttendance(store, d, targets, classId, date, status);
      reply := Confirmation(status, names);
    } else if Get(cmd, "action") == JStr("analyze_data") {
      var filterType := GetOr(cmd, "filter_type", JStr("attendance"));
      var op := Get(cmd, "operator");
      var val := Get(cmd, "value");
      var name := GetOr(cmd, "search_name", JStr(""));
      if !name.JStr? {
        return;
      }
      reply := Analyze(students, store.records, classId, Lower(name.s), filterType, op, val);
    }
  }

  // ---------------------------------------------------------------------
  // Properties
  // ---------------------------------------------------------------------

  /** The outcome that replies with the model's own text and leaves the store alone. */
  predicate FallsBack(o: Outcome, txt: string, records: map<Key, Json>) {
    o == Outcome(txt, records)
  }

  /** No marker, a parse error or no class: the model's text, unchanged store. */
  lemma FallbackCases(txt: string, parse: string -> Option<Json>, classId: string,
                      students: seq<Student>, records: map<Key, Json>)
    requires !Contains(txt, Marker) || parse(Clean(txt)).None? || classId == ""
    ensures FallsBack(Handle(txt, parse, classId, students, records), txt, records)
  {
  }

  /** A parsed command that is not a dict, or names another action, also falls back. */
  lemma UnknownActionFallsBack(txt: string, parse: string -> Option<Json>, classId: string,
                               students: seq<Student>, records: map<Key, Json>)
    requires parse(Clean(txt)).Some?
    requires var cmd := parse(Clean(txt)).value;
      !cmd.JObject? || (Get(cmd, "action") != JStr("update_attendance") && Get(cmd, "action") != JStr("analyze_data"))
    ensures FallsBack(Handle(txt, parse, classId, students, records), txt, records)
  {
  }

  /** The analysis never writes to the store. */
  lemma AnalysisIsReadOnly(txt: string, parse: string -> Option<Json>, classId: string,
                           students: seq<Student>, records: map<Key, Json>)
    requires parse(Clean(txt)).Some? && parse(Clean(txt)).value.JObject?
    requires Get(parse(Clean(txt)).value, "action") == JStr("analyze_data")
    ensures Handle(txt, parse, classId, students, records).records == records
  {
  }

  /** An update that selects nobody says so and writes nothing. */
  lemma NoTargetNoWrite(txt: string, cmd: Json, classId: string, students: seq<Student>, records: map<Key, Json>)
    requires cmd.JObject? && TargetsOf(cmd, ValidMap(students)) == Some([])
    ensures UpdateAttendance(txt, cmd, classId, students, records) == Outcome(NoStudents, records)
  {
  }

  /**
   * Whatever the reply, the store only changes at keys of the request's
   * class and date whose student is on the class roster, and those keys then
   * hold the command's status.
   */
  lemma OnlyRosterKeysChange(txt: string, parse: string -> Option<Json>, classId: string,
                             students: seq<Student>, records: map<Key, Json>, k: Key)
    requires k.classId != classId || !(exists i :: 0 <= i < |students| && students[i].id == k.studentId)
    ensures var r := Handle(txt, parse, classId, students, records).records;
      (k in r <==> k in records) && (k in r ==> r[k] == records[k])
  {
    if Contains(txt, Marker) && parse(Clean(txt)).Some? && classId != "" && parse(Clean(txt)).value.JObject? {
      var cmd := parse(Clean(txt)).value;
      if Get(cmd, "action") == JStr("update_attendance") {
        var d := ValidMap(students);
        var status := GetOr(cmd, "status", JStr("Present"));
        var date := Get(cmd, "date");
        match TargetsOf(cmd, d)
        case None =>
        case Some(targets) =>
          if targets != [] {
            TargetsAreRosterIds(cmd, d);
            ValidMapSpec(students);
            UpsertAllSpec(records, targets, classId, date, status);
            assert !Targeted(k, targets, classId, date);
          }
      }
    }
  }

  /** Sending the same reply twice leaves the store as the first time. */
  lemma ReplayIsIdempotent(txt: string, parse: string -> Option<Json>, classId: string,
                           students: seq<Student>, records: map<Key, Json>)
    ensures var once := Handle(txt, parse, classId, students, records).records;
      Handle(txt, parse, classId, students, once).records == once
  {
    if Contains(txt, Marker) && parse(Clean(txt)).Some? && classId != "" && parse(Clean(txt)).value.JObject? {
      var cmd := parse(Clean(txt)).value;
      if Get(cmd, "action") == JStr("update_attendance") {
        var d := ValidMap(students);
        var status := GetOr(cmd, "status", JStr("Present"));
        var date := Get(cmd, "date");
        match TargetsOf(cmd, d)
        case None =>
        case Some(targets) =>
          if targets != [] {
            UpsertAllIdempotent(records, targets, classId, date, status);
          }
      }
    }
  }

  /** A successful update gives every target the status for the command's date. */
  lemma UpdateMarksEveryTarget(txt: string, cmd: Json, classId: string, students: seq<Student>,
                               records: map<Key, Json>, t: string)
    requires cmd.JObject?
    requires var ts := TargetsOf(cmd, ValidMap(students)); ts.Some? && t in ts.value
    ensures var r := UpdateAttendance(txt, cmd, classId, students, records).records;
      var k := Key(t, classId, Get(cmd, "date"));
      k in r && r[k] == GetOr(cmd, "status", JStr("Present"))
  {
    var targets := TargetsOf(cmd, ValidMap(students)).value;
    UpsertAllSpec(records, targets, classId, Get(cmd, "date"), GetOr(cmd, "status", JStr("Present")));
  }
}
