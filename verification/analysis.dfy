/**
 * The read-only `analyze_data` action of backend/app.py: per-student
 * attendance against the number of distinct class dates, the first numeric
 * detail as "marks", the name and comparator filter, and the Markdown report.
 */
module Analysis {
  import opened Wrappers
  import opened Text
  import opened Json
  import opened Attendance

  /** One entry of `master_data`; the percentage is kept in tenths of a percent. */
  datatype Item = Item(name: string, id: string, tenths: nat, present: nat, marks: Json)

  // ---------------------------------------------------------------------
  // Counting
  // ---------------------------------------------------------------------

  /** `set(r['date'] for r in records)` over the class's records. */
  function UniqueDates(store: map<Key, Json>, classId: string): set<Json> {
    set k | k in store && k.classId == classId :: k.date
  }

  /** `global_total` */
  function GlobalTotal(store: map<Key, Json>, classId: string): nat {
    |UniqueDates(store, classId)|
  }

  /** The class's records of one student whose status is "Present". */
  function PresentKeys(store: map<Key, Json>, classId: string, studentId: string): set<Key> {
    set k | k in store && k.classId == classId && k.studentId == studentId && store[k] == JStr("Present")
  }

  /** `present_count` */
  function PresentCount(store: map<Key, Json>, classId: string, studentId: string): nat {
    |PresentKeys(store, classId, studentId)|
  }

  /** Keys of one student in one class differ in their date, so taking the date loses none. */
  lemma {:induction false} DatesOfOneStudent(ks: set<Key>, classId: string, studentId: string)
    requires forall k :: k in ks ==> k.classId == classId && k.studentId == studentId
    ensures |set k | k in ks :: k.date| == |ks|
    decreases |ks|
  {
    if ks != {} {
      var x :| x in ks;
      var rest := ks - {x};
      DatesOfOneStudent(rest, classId, studentId);
      assert (set k | k in ks :: k.date) == (set k | k in rest :: k.date) + {x.date};
      assert x.date !in (set k | k in rest :: k.date);
    }
  }

  /** Because the store is keyed by (student, class, date), nobody is present more often than there are dates. */
  lemma PresentAtMostTotal(store: map<Key, Json>, classId: string, studentId: string)
    ensures PresentCount(store, classId, studentId) <= GlobalTotal(store, classId)
  {
    var ks := PresentKeys(store, classId, studentId);
    DatesOfOneStudent(ks, classId, studentId);
    var dates := set k | k in ks :: k.date;
    assert dates <= UniqueDates(store, classId);
    SubsetCard(dates, UniqueDates(store, classId));
  }

  lemma {:induction false} SubsetCard<T>(a: set<T>, b: set<T>)
    requires a <= b
    ensures |a| <= |b|
    decreases |a|
  {
    if a != {} {
      var x :| x in a;
      SubsetCard(a - {x}, b - {x});
    }
  }

  // ---------------------------------------------------------------------
  // The percentage
  // ---------------------------------------------------------------------

  /** `n / d` rounded to the nearest integer, ties to even, as Python's `round` does. */
  function RoundHalfEven(n: nat, d: nat): nat
    requires d > 0
  {
    var q := n / d;
    var r := n % d;
    if 2 * r > d then q + 1
    else if 2 * r < d then q
    else if q % 2 == 0 then q else q + 1
  }

  /** `round(present / total * 100, 1)` in tenths of a percent, and 0.0 without any date. */
  function AttendanceTenths(present: nat, total: nat): nat {
    if total == 0 then 0 else RoundHalfEven(present * 1000, total)
  }

  /** The rounded quotient is within one half of the exact one. */
  lemma RoundHalfEvenNear(n: nat, d: nat)
    requires d > 0
    ensures -(d as int) <= 2 * (RoundHalfEven(n, d) * d - n) <= d
  {
    var q := n / d;
    var r := n % d;
    assert n == q * d + r;
    assert (q + 1) * d == q * d + d;
  }

  /** A quotient of at most one rounds to at most one. */
  lemma RoundHalfEvenAtMost(n: nat, d: nat, k: nat)
    requires d > 0 && n <= k * d
    ensures RoundHalfEven(n, d) <= k
  {
    var q := n / d;
    var r := n % d;
    assert n == q * d + r;
    if q == k {
      assert r == 0;
    }
  }

  /**
   * The percentage is within half a tenth of the exact ratio, 0.0 when there
   * are no dates, and at most 100.0 when nobody is present more often than
   * there are dates.
   */
  lemma AttendanceTenthsSpec(present: nat, total: nat)
    ensures total == 0 ==> AttendanceTenths(present, total) == 0
    ensures total > 0 ==> -(total as int) <= 2 * (AttendanceTenths(present, total) * total - present * 1000) <= total
    ensures present <= total ==> AttendanceTenths(present, total) <= 1000
  {
    if total > 0 {
      RoundHalfEvenNear(present * 1000, total);
      if present <= total {
        RoundHalfEvenAtMost(present * 1000, total, 1000);
      }
    }
  }

  /** `str()` of the rounded percentage: whole part, a point and one digit. */
  function TenthsString(t: nat): string {
    NatToString(t / 10) + "." + [DigitChar(t % 10)]
  }

  /** Three days out of five is 60.0%. */
  lemma ThreeOfFive()
    ensures AttendanceTenths(3, 5) == 600
    ensures TenthsString(600) == "60.0"
  {
  }

  /** One day out of sixteen is exactly 6.25%, a tie that rounds to the even 6.2. */
  lemma TieRoundsToEven()
    ensures AttendanceTenths(1, 16) == 62
  {
  }

  // ---------------------------------------------------------------------
  // Marks
  // ---------------------------------------------------------------------

  /** The first value in iteration order that is an int or a float (bools included). */
  function FirstNumber(fields: seq<(string, Json)>): Option<Json>
    decreases |fields|
  {
    if fields == [] then None
    else if IsNumber(fields[0].1) then Some(fields[0].1)
    else FirstNumber(fields[1..])
  }

  /** `marks`: the first numeric detail of a non-empty dict, else 0. */
  function Marks(details: Json): Json {
    if Truthy(details) && details.JObject? then
      match FirstNumber(details.fields)
      case Some(v) => v
      case None => JInt(0)
    else JInt(0)
  }

  /** The loop over `s['details'].items()` that stops at the first number. */
  method MarksOf(details: Json) returns (marks: Json)
    ensures marks == Marks(details)
  {
    marks := JInt(0);
    if Truthy(details) && details.JObject? {
      var fields := details.fields;
      var n := 0;
      while n < |fields|
        invariant n <= |fields|
        invariant FirstNumber(fields) == FirstNumber(fields[n..])
        invariant marks == JInt(0)
      {
        if IsNumber(fields[n].1) {
          marks := fields[n].1;
          return;
        }
        assert fields[n..][1..] == fields[n + 1..];
        n := n + 1;
      }
    }
  }

  /** The details are a non-empty dict with some numeric value. */
  predicate HasNumber(details: Json) {
    Truthy(details) && details.JObject? && exists i :: 0 <= i < |details.fields| && IsNumber(details.fields[i].1)
  }

  /**
   * The marks are always a number: the first numeric value of the details,
   * with no numeric value before it, or 0 when there is none.
   */
  lemma {:induction false} MarksSpec(details: Json)
    ensures IsNumber(Marks(details))
    ensures HasNumber(details) ==>
      exists i :: 0 <= i < |details.fields| && details.fields[i].1 == Marks(details)
        && (forall j :: 0 <= j < i ==> !IsNumber(details.fields[j].1))
    ensures !HasNumber(details) ==> Marks(details) == JInt(0)
  {
    if Truthy(details) && details.JObject? {
      FirstNumberSpec(details.fields);
    }
  }

  lemma {:induction false} FirstNumberSpec(fields: seq<(string, Json)>)
    ensures FirstNumber(fields).Some? ==>
      IsNumber(FirstNumber(fields).value) &&
      exists i :: 0 <= i < |fields| && fields[i].1 == FirstNumber(fields).value
        && (forall j :: 0 <= j < i ==> !IsNumber(fields[j].1))
    ensures FirstNumber(fields).None? ==> forall i :: 0 <= i < |fields| ==> !IsNumber(fields[i].1)
    decreases |fields|
  {
    if fields != [] && !IsNumber(fields[0].1) {
      var tail := fields[1..];
      FirstNumberSpec(tail);
      if FirstNumber(tail).Some? {
        var i :| 0 <= i < |tail| && tail[i].1 == FirstNumber(tail).value
          && forall j :: 0 <= j < i ==> !IsNumber(tail[j].1);
        assert fields[i + 1] == tail[i];
        assert forall j :: 0 < j <= i ==> fields[j] == tail[j - 1];
      }
      assert forall i :: 0 < i < |fields| ==> fields[i] == tail[i - 1];
    }
  }

  // ---------------------------------------------------------------------
  // master_data
  // ---------------------------------------------------------------------

  function ItemOf(s: Student, store: map<Key, Json>, classId: string): Item {
    var present := PresentCount(store, classId, s.id);
    Item(s.name, s.id, AttendanceTenths(present, GlobalTotal(store, classId)), present, Marks(s.details))
  }

  function MasterData(students: seq<Student>, store: map<Key, Json>, classId: string): seq<Item> {
    seq(|students|, i requires 0 <= i < |students| => ItemOf(students[i], store, classId))
  }

  /** The loop over `students` that builds `master_data`, one item per student, in order. */
  method BuildMasterData(students: seq<Student>, store: map<Key, Json>, classId: string) returns (items: seq<Item>)
    ensures items == MasterData(students, store, classId)
  {
    var total := GlobalTotal(store, classId);
    items := [];
    var n := 0;
    while n < |students|
      invariant n <= |students| && |items| == n
      invariant forall i :: 0 <= i < n ==> items[i] == ItemOf(students[i], store, classId)
    {
      var s := students[n];
      var present := PresentCount(store, classId, s.id);
      var pct := AttendanceTenths(present, total);
      var marks := MarksOf(s.details);
      items := items + [Item(s.name, s.id, pct, present, marks)];
      n := n + 1;
    }
    assert items == MasterData(students, store, classId);
  }

  /** Every item's present count is at most the total, so its percentage is at most 100.0. */
  lemma ItemAtMostHundred(s: Student, store: map<Key, Json>, classId: string)
    ensures ItemOf(s, store, classId).present <= GlobalTotal(store, classId)
    ensures ItemOf(s, store, classId).tenths <= 1000
  {
    PresentAtMostTotal(store, classId, s.id);
    AttendanceTenthsSpec(PresentCount(store, classId, s.id), GlobalTotal(store, classId));
  }

  // ---------------------------------------------------------------------
  // The filter
  // ---------------------------------------------------------------------

  /** The comparison an operator asks for; any other operator keeps the entry. */
  predicate Compare(op: Json, target: real, v: real) {
    if op == JStr(">") then target > v
    else if op == JStr("<") then target < v
    else if op == JStr(">=") then target >= v
    else if op == JStr("<=") then target <= v
    else if op == JStr("==") then target == v
    else true
  }

  /**
   * The value compared: the percentage for "attendance", the marks for
   * anything else (marks built by `Marks` are always numbers, see `MarksSpec`).
   */
  function Target(item: Item, filterType: Json): real {
    if filterType == JStr("attendance") then item.tenths as real / 10.0
    else if IsNumber(item.marks) then NumberValue(item.marks)
    else 0.0
  }

  predicate NameMatches(item: Item, searchName: string) {
    searchName == "" || Contains(Lower(item.name), searchName)
  }

  /** The comparator step: applied only with an operator and a value `float()` accepts. */
  predicate PassesComparator(item: Item, filterType: Json, op: Json, val: Json) {
    if Truthy(op) && val != JNull then
      match ToFloat(val)
      case None => true
      case Some(v) => Compare(op, Target(item, filterType), v)
    else true
  }

  /** Whether the body of the filter loop reaches `filtered_list.append(item)`. */
  predicate Keep(item: Item, searchName: string, filterType: Json, op: Json, val: Json) {
    NameMatches(item, searchName) && PassesComparator(item, filterType, op, val)
  }

  function Filter(items: seq<Item>, searchName: string, filterType: Json, op: Json, val: Json): seq<Item>
    decreases |items|
  {
    if items == [] then []
    else
      Filter(items[..|items| - 1], searchName, filterType, op, val)
        + (if Keep(items[|items| - 1], searchName, filterType, op, val) then [items[|items| - 1]] else [])
  }

  lemma FilterStep(items: seq<Item>, n: nat, searchName: string, filterType: Json, op: Json, val: Json)
    requires n < |items|
    ensures Filter(items[..n + 1], searchName, filterType, op, val)
      == Filter(items[..n], searchName, filterType, op, val)
         + (if Keep(items[n], searchName, filterType, op, val) then [items[n]] else [])
  {
    assert items[..n + 1][..n] == items[..n];
  }

  /** The filter loop with its `continue`s. */
  method FilterItems(items: seq<Item>, searchName: string, filterType: Json, op: Json, val: Json) returns (kept: seq<Item>)
    ensures kept == Filter(items, searchName, filterType, op, val)
  {
    kept := [];
    var n := 0;
    while n < |items|
      invariant n <= |items|
      invariant kept == Filter(items[..n], searchName, filterType, op, val)
    {
      FilterStep(items, n, searchName, filterType, op, val);
      var item := items[n];
      n := n + 1;
      if searchName != "" && !Contains(Lower(item.name), searchName) {
        continue;
      }
      if Truthy(op) && val != JNull {
        var target := Target(item, filterType);
        var v := ToFloat(val);
        if v.Some? {
          if op == JStr(">") && !(target > v.value) { continue; }
          if op == JStr("<") && !(target < v.value) { continue; }
          if op == JStr(">=") && !(target >= v.value) { continue; }
          if op == JStr("<=") && !(target <= v.value) { continue; }
          if op == JStr("==") && !(target == v.value) { continue; }
        }
      }
      kept := kept + [item];
    }
    assert items[..n] == items;
  }

  /** The filter keeps roster order: filtering a concatenation concatenates the results. */
  lemma {:induction false} FilterAppend(a: seq<Item>, b: seq<Item>, searchName: string, filterType: Json, op: Json, val: Json)
    ensures Filter(a + b, searchName, filterType, op, val)
      == Filter(a, searchName, filterType, op, val) + Filter(b, searchName, filterType, op, val)
    decreases |b|
  {
    if b == [] {
      assert a + b == a;
    } else {
      var b' := b[..|b| - 1];
      FilterAppend(a, b', searchName, filterType, op, val);
      assert (a + b)[..|a + b| - 1] == a + b';
    }
  }

  /** An item survives exactly when `Keep` holds of it, and no item is invented. */
  lemma {:induction false} FilterSpec(items: seq<Item>, searchName: string, filterType: Json, op: Json, val: Json)
    ensures |Filter(items, searchName, filterType, op, val)| <= |items|
    ensures forall x :: x in Filter(items, searchName, filterType, op, val) <==>
      x in items && Keep(x, searchName, filterType, op, val)
    decreases |items|
  {
    if items != [] {
      var init := items[..|items| - 1];
      FilterSpec(init, searchName, filterType, op, val);
      assert items == init + [items[|items| - 1]];
    }
  }

  /** The positions in `items` of the entries the filter keeps, in order. */
  function KeptPositions(items: seq<Item>, searchName: string, filterType: Json, op: Json, val: Json): seq<nat>
    decreases |items|
  {
    if items == [] then []
    else
      KeptPositions(items[..|items| - 1], searchName, filterType, op, val)
        + (if Keep(items[|items| - 1], searchName, filterType, op, val) then [|items| - 1] else [])
  }

  /** The survivors are a subsequence of the master data: strictly increasing positions, same order. */
  lemma {:induction false} FilterIsSubsequence(items: seq<Item>, searchName: string, filterType: Json, op: Json, val: Json)
    ensures var kept := Filter(items, searchName, filterType, op, val);
      var pos := KeptPositions(items, searchName, filterType, op, val);
      && |pos| == |kept|
      && (forall a :: 0 <= a < |pos| ==> pos[a] < |items| && kept[a] == items[pos[a]])
      && (forall a, b :: 0 <= a < b < |pos| ==> pos[a] < pos[b])
    decreases |items|
  {
    if items != [] {
      var init := items[..|items| - 1];
      FilterIsSubsequence(init, searchName, filterType, op, val);
      var kept0 := Filter(init, searchName, filterType, op, val);
      var pos0 := KeptPositions(init, searchName, filterType, op, val);
      assert forall a :: 0 <= a < |pos0| ==> pos0[a] < |init| && init[pos0[a]] == items[pos0[a]];
    }
  }

  /** A non-empty search name drops every student whose lower-cased name does not contain it. */
  lemma NameFilterDrops(item: Item, searchName: string, filterType: Json, op: Json, val: Json)
    requires searchName != "" && !Contains(Lower(item.name), searchName)
    ensures !Keep(item, searchName, filterType, op, val)
  {
  }

  /**
   * Without an operator or a value, or with a value `float()` rejects, or
   * with an operator it does not know, only the name decides.
   */
  lemma OnlyNameDecides(item: Item, searchName: string, filterType: Json, op: Json, val: Json)
    requires || !Truthy(op) || val == JNull || ToFloat(val).None?
             || (op != JStr(">") && op != JStr("<") && op != JStr(">=") && op != JStr("<=") && op != JStr("=="))
    ensures Keep(item, searchName, filterType, op, val) <==> NameMatches(item, searchName)
  {
  }

  /** With a known operator and a numeric value, a name-matching item survives exactly when the comparison holds. */
  lemma ComparatorDecides(item: Item, searchName: string, filterType: Json, op: Json, val: Json)
    requires NameMatches(item, searchName) && Truthy(op) && val != JNull && ToFloat(val).Some?
    ensures Keep(item, searchName, filterType, op, val) <==> Compare(op, Target(item, filterType), ToFloat(val).value)
  {
  }

  // ---------------------------------------------------------------------
  // The report
  // ---------------------------------------------------------------------

  const MarksHeader := "| Name | Roll ID | Marks |\n|:---|:---|:---:|\n"
  const AttendanceHeader := "| Name | Roll ID | Present | Total | % |\n|:---|:---|:---:|:---:|:---:|\n"
  const NoMatch := "No students matched your criteria."
  const ReportHeading := "### Analysis Report\n"

  /** `f"| {name} | {id} | **{marks}** |\n"` */
  function MarksRow(item: Item): string {
    "| " + item.name + " | " + item.id + " | **" + PyStr(item.marks) + "** |\n"
  }

  /** `f"| {name} | {id} | {present} | {global_total} | **{attendance}%** |\n"` */
  function AttendanceRow(item: Item, total: nat): string {
    "| " + item.name + " | " + item.id + " | " + NatToString(item.present) + " | " + NatToString(total)
      + " | **" + TenthsString(item.tenths) + "%** |\n"
  }

  /** The marks table for "marks", the attendance table for any other filter type. */
  function Row(item: Item, filterType: Json, total: nat): string {
    if filterType == JStr("marks") then MarksRow(item) else AttendanceRow(item, total)
  }

  function Header(filterType: Json): string {
    if filterType == JStr("marks") then MarksHeader else AttendanceHeader
  }

  function Rows(items: seq<Item>, filterType: Json, total: nat): string
    decreases |items|
  {
    if items == [] then "" else Rows(items[..|items| - 1], filterType, total) + Row(items[|items| - 1], filterType, total)
  }

  lemma RowsStep(prefix: string, items: seq<Item>, n: nat, filterType: Json, total: nat)
    requires n < |items|
    ensures prefix + Rows(items[..n + 1], filterType, total)
         == (prefix + Rows(items[..n], filterType, total)) + Row(items[n], filterType, total)
  {
    assert items[..n + 1][..n] == items[..n];
    ConcatAssoc(prefix, Rows(items[..n], filterType, total), Row(items[n], filterType, total));
  }

  /** The `table += ...` loop. */
  method RenderTable(items: seq<Item>, filterType: Json, total: nat) returns (table: string)
    ensures table == Header(filterType) + Rows(items, filterType, total)
  {
    table := if filterType == JStr("marks") then MarksHeader else AttendanceHeader;
    var n := 0;
    while n < |items|
      invariant n <= |items|
      invariant table == Header(filterType) + Rows(items[..n], filterType, total)
    {
      RowsStep(Header(filterType), items, n, filterType, total);
      table := table + Row(items[n], filterType, total);
      n := n + 1;
    }
    assert items[..n] == items;
  }

  /** Whatever precedes the rows, the text holds one row per item. */
  lemma {:induction false} RowsHoldEveryItem(prefix: string, items: seq<Item>, filterType: Json, total: nat, i: nat)
    requires i < |items|
    ensures Contains(prefix + Rows(items, filterType, total), Row(items[i], filterType, total))
    decreases |items|
  {
    var init := items[..|items| - 1];
    var last := Row(items[|items| - 1], filterType, total);
    ConcatAssoc(prefix, Rows(init, filterType, total), last);
    if i == |items| - 1 {
      ContainsInfix(prefix + Rows(init, filterType, total), last, "");
      assert prefix + Rows(init, filterType, total) + last + "" == prefix + Rows(init, filterType, total) + last;
    } else {
      assert items[i] == init[i];
      RowsHoldEveryItem(prefix, init, filterType, total, i);
      ContainsInPrefix(prefix + Rows(init, filterType, total), last, Row(items[i], filterType, total));
    }
  }

  /** The reply of the analysis: the report, or the no-match message. */
  function Report(kept: seq<Item>, filterType: Json, total: nat): string {
    if kept == [] then NoMatch else ReportHeading + Header(filterType) + Rows(kept, filterType, total)
  }

  /** The whole `analyze_data` branch over the class's students and the store. */
  function AnalysisReply(students: seq<Student>, store: map<Key, Json>, classId: string,
                         searchName: string, filterType: Json, op: Json, val: Json): string
  {
    Report(Filter(MasterData(students, store, classId), searchName, filterType, op, val), filterType, GlobalTotal(store, classId))
  }

  method Analyze(students: seq<Student>, store: map<Key, Json>, classId: string,
                 searchName: string, filterType: Json, op: Json, val: Json) returns (reply: string)
    ensures reply == AnalysisReply(students, store, classId, searchName, filterType, op, val)
  {
    var items := BuildMasterData(students, store, classId);
    var kept := FilterItems(items, searchName, filterType, op, val);
    if kept == [] {
      return NoMatch;
    }
    var table := RenderTable(kept, filterType, GlobalTotal(store, classId));
    reply := ReportHeading + table;
    ConcatAssoc(ReportHeading, Header(filterType), Rows(kept, filterType, GlobalTotal(store, classId)));
  }

  /** The reply is the no-match message exactly when no student survives the filter. */
  lemma NoMatchIffNoSurvivor(kept: seq<Item>, filterType: Json, total: nat)
    ensures Report(kept, filterType, total) == NoMatch <==> kept == []
    ensures kept != [] ==> StartsWith(Report(kept, filterType, total), ReportHeading)
  {
    if kept != [] {
      var r := Report(kept, filterType, total);
      ConcatAssoc(ReportHeading, Header(filterType), Rows(kept, filterType, total));
      assert r[0] == '#';
    }
  }

  /** Every surviving student has a row in the report. */
  lemma ReportHasEverySurvivor(kept: seq<Item>, filterType: Json, total: nat, i: nat)
    requires i < |kept|
    ensures Contains(Report(kept, filterType, total), Row(kept[i], filterType, total))
  {
    RowsHoldEveryItem(ReportHeading + Header(filterType), kept, filterType, total, i);
  }
}
