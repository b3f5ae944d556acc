/**
 * `GET /attendance/summary-range`: per-student present/absent counts over
 * every session of a class inside a date range, the class totals and the
 * five students with most absences and most presences.
 */
module RangeSummary {
  import opened Records
  import Ranking

  /** The per-suffix counters of the aggregation dictionary. */
  datatype Counts = Counts(presentCount: nat, absentCount: nat, total: nat)

  datatype Row = Row(
    studentId: Id,
    name: string,
    regNo: string,
    presentCount: nat,
    absentCount: nat,
    totalSessions: nat,
    presentPercentage: Percent,
    absentPercentage: Percent)

  datatype Overall = Overall(totalPresent: nat, totalAbsent: nat, overallPresentPercent: Percent, overallAbsentPercent: Percent)

  datatype Reply =
    | Summary(overallAttendance: Overall, topAbsent: seq<Row>, topPresent: seq<Row>, fullReport: seq<Row>)
    | MissingParameters

  /** The session query: the class, dated from the start instant up to the end instant inclusive. */
  predicate InRange(s: Session, classId: Id, start: int, end: int)
  {
    s.classId == classId && start <= s.date <= end
  }

  function FetchSessions(sessions: seq<Session>, classId: Id, start: int, end: int): (r: seq<Session>)
    ensures forall s :: s in r ==> s in sessions && InRange(s, classId, start, end)
    ensures forall s :: s in sessions && InRange(s, classId, start, end) ==> s in r
  {
    if sessions == [] then []
    else
      var rest := FetchSessions(sessions[1..], classId, start, end);
      assert forall s :: s in sessions ==> s == sessions[0] || s in sessions[1..];
      if InRange(sessions[0], classId, start, end) then [sessions[0]] + rest else rest
  }

  /** All entries of all sessions, session after session. */
  function Flatten(sessions: seq<Session>): seq<Entry>
  {
    if sessions == [] then [] else Flatten(sessions[..|sessions| - 1]) + sessions[|sessions| - 1].attendance
  }

  /** The two nested loops that push every entry of every session. */
  method FlattenEntries(sessions: seq<Session>) returns (records: seq<Entry>)
    ensures records == Flatten(sessions)
  {
    records := [];
    var i := 0;
    while i < |sessions|
      invariant 0 <= i <= |sessions|
      invariant records == Flatten(sessions[..i])
    {
      var j := 0;
      while j < |sessions[i].attendance|
        invariant 0 <= j <= |sessions[i].attendance|
        invariant records == Flatten(sessions[..i]) + sessions[i].attendance[..j]
      {
        records := records + [sessions[i].attendance[j]];
        j := j + 1;
      }
      assert sessions[..i + 1][..i] == sessions[..i];
      assert sessions[i].attendance[..j] == sessions[i].attendance;
      i := i + 1;
    }
    assert sessions[..i] == sessions;
  }

  /** Counts one entry: present if its `present` flag is set, absent otherwise. */
  function Bump(c: Counts, present: bool): Counts
  {
    if present then c.(presentCount := c.presentCount + 1, total := c.total + 1)
    else c.(absentCount := c.absentCount + 1, total := c.total + 1)
  }

  /** The aggregation dictionary after the given entries. */
  function Tally(rs: seq<Entry>): (m: map<string, Counts>)
    ensures forall k :: k in m <==> exists i :: 0 <= i < |rs| && rs[i].regNoSuffix == k
    ensures forall k :: k in m ==> m[k].presentCount + m[k].absentCount == m[k].total
  {
    if rs == [] then map[]
    else
      var init := rs[..|rs| - 1];
      var e := rs[|rs| - 1];
      var m := Tally(init);
      var c := if e.regNoSuffix in m then m[e.regNoSuffix] else Counts(0, 0, 0);
      assert forall i :: 0 <= i < |init| ==> init[i] == rs[i];
      m[e.regNoSuffix := Bump(c, e.present)]
  }

  /** The aggregation loop over the flattened entries. */
  method TallyEntries(rs: seq<Entry>) returns (m: map<string, Counts>)
    ensures m == Tally(rs)
  {
    m := map[];
    var i := 0;
    while i < |rs|
      invariant 0 <= i <= |rs|
      invariant m == Tally(rs[..i])
    {
      var e := rs[i];
      if e.regNoSuffix !in m {
        m := m[e.regNoSuffix := Counts(0, 0, 0)];
      }
      m := m[e.regNoSuffix := Bump(m[e.regNoSuffix], e.present)];
      assert rs[..i + 1][..i] == rs[..i];
      i := i + 1;
    }
    assert rs[..i] == rs;
  }

  /** Number of entries of a suffix, and of those, the present ones. */
  function CountSuffix(rs: seq<Entry>, k: string): nat
  {
    if rs == [] then 0 else CountSuffix(rs[..|rs| - 1], k) + (if rs[|rs| - 1].regNoSuffix == k then 1 else 0)
  }

  function CountPresent(rs: seq<Entry>, k: string): nat
  {
    if rs == [] then 0
    else CountPresent(rs[..|rs| - 1], k) + (if rs[|rs| - 1].regNoSuffix == k && rs[|rs| - 1].present then 1 else 0)
  }

  /** Each counter holds exactly the entries of its suffix, split by the `present` flag. */
  lemma {:induction false} TallyCounts(rs: seq<Entry>, k: string)
    requires k in Tally(rs)
    ensures Tally(rs)[k].total == CountSuffix(rs, k)
    ensures Tally(rs)[k].presentCount == CountPresent(rs, k)
    ensures Tally(rs)[k].absentCount == CountSuffix(rs, k) - CountPresent(rs, k)
  {
    var init := rs[..|rs| - 1];
    var e := rs[|rs| - 1];
    if k in Tally(init) {
      TallyCounts(init, k);
    } else {
      NoSuffixNoCount(init, k);
    }
  }

  lemma {:induction false} NoSuffixNoCount(rs: seq<Entry>, k: string)
    requires k !in Tally(rs)
    ensures CountSuffix(rs, k) == 0 && CountPresent(rs, k) == 0
  {
    if rs != [] {
      var init := rs[..|rs| - 1];
      assert forall i :: 0 <= i < |init| ==> init[i] == rs[i];
      NoSuffixNoCount(init, k);
    }
  }

  ghost predicate NoDuplicates(keys: seq<string>)
  {
    forall i, j :: 0 <= i < j < |keys| ==> keys[i] != keys[j]
  }

  function SumCounts(rs: seq<Entry>, keys: seq<string>): nat
  {
    if keys == [] then 0 else CountSuffix(rs, keys[0]) + SumCounts(rs, keys[1..])
  }

  function Occurrences(keys: seq<string>, x: string): nat
  {
    if keys == [] then 0 else (if keys[0] == x then 1 else 0) + Occurrences(keys[1..], x)
  }

  lemma {:induction false} SumCountsStep(rs: seq<Entry>, e: Entry, keys: seq<string>)
    ensures SumCounts(rs + [e], keys) == SumCounts(rs, keys) + Occurrences(keys, e.regNoSuffix)
  {
    assert (rs + [e])[..|rs|] == rs;
    if keys != [] {
      SumCountsStep(rs, e, keys[1..]);
    }
  }

  lemma {:induction false} OccursOnce(keys: seq<string>, x: string)
    requires NoDuplicates(keys) && x in keys
    ensures Occurrences(keys, x) == 1
  {
    if keys[0] == x {
      OccursNot(keys[1..], x);
    } else {
      OccursOnce(keys[1..], x);
    }
  }

  lemma {:induction false} OccursNot(keys: seq<string>, x: string)
    requires x !in keys
    ensures Occurrences(keys, x) == 0
  {
    if keys != [] {
      OccursNot(keys[1..], x);
    }
  }

  /** Over a duplicate-free list of the suffixes, the per-suffix totals add up to the number of entries. */
  lemma {:induction false} SumCountsCoversAll(rs: seq<Entry>, keys: seq<string>)
    requires NoDuplicates(keys)
    requires forall i :: 0 <= i < |rs| ==> rs[i].regNoSuffix in keys
    ensures SumCounts(rs, keys) == |rs|
  {
    if rs == [] {
      ZeroCounts(keys);
    } else {
      var init := rs[..|rs| - 1];
      var e := rs[|rs| - 1];
      assert init + [e] == rs;
      SumCountsCoversAll(init, keys);
      SumCountsStep(init, e, keys);
      OccursOnce(keys, e.regNoSuffix);
    }
  }

  lemma {:induction false} ZeroCounts(keys: seq<string>)
    ensures SumCounts([], keys) == 0
  {
    if keys != [] {
      ZeroCounts(keys[1..]);
    }
  }

  function SumTotals(m: map<string, Counts>, keys: seq<string>): nat
    requires forall k :: k in keys ==> k in m
  {
    if keys == [] then 0 else m[keys[0]].total + SumTotals(m, keys[1..])
  }

  /**
   * The counters' totals, summed over the dictionary's keys (listed once
   * each, in any order), equal the number of flattened entries.
   */
  lemma {:induction false} TotalsSumToEntries(rs: seq<Entry>, keys: seq<string>)
    requires NoDuplicates(keys)
    requires forall k :: k in keys <==> k in Tally(rs)
    ensures SumTotals(Tally(rs), keys) == |rs|
  {
    SumTotalsIsSumCounts(rs, keys);
    forall i | 0 <= i < |rs| ensures rs[i].regNoSuffix in keys {
      assert rs[i].regNoSuffix in Tally(rs);
    }
    SumCountsCoversAll(rs, keys);
  }

  lemma {:induction false} SumTotalsIsSumCounts(rs: seq<Entry>, keys: seq<string>)
    requires forall k :: k in keys ==> k in Tally(rs)
    ensures SumTotals(Tally(rs), keys) == SumCounts(rs, keys)
  {
    if keys != [] {
      TallyCounts(rs, keys[0]);
      SumTotalsIsSumCounts(rs, keys[1..]);
    }
  }

  /** The student query: students of the class whose suffix has a counter, in roster order. */
  function FoundStudents(roster: seq<Student>, classId: Id, m: map<string, Counts>): (r: seq<Student>)
    ensures forall s :: s in r ==> s in roster && s.classId == classId && s.regNoSuffix in m
    ensures forall s :: s in roster && s.classId == classId && s.regNoSuffix in m ==> s in r
  {
    if roster == [] then []
    else
      var rest := FoundStudents(roster[1..], classId, m);
      assert forall s :: s in roster ==> s == roster[0] || s in roster[1..];
      if roster[0].classId == classId && roster[0].regNoSuffix in m then [roster[0]] + rest else rest
  }

  function RowOf(s: Student, m: map<string, Counts>): Row
  {
    var c := if s.regNoSuffix in m then m[s.regNoSuffix] else Counts(0, 0, 0);
    Row(s.id, s.name, s.regNoPrefix + s.regNoSuffix, c.presentCount, c.absentCount, c.total,
        PercentOf(c.presentCount, c.total), PercentOf(c.absentCount, c.total))
  }

  /** One row per found student, in the same order, with that student's counters. */
  function BuildReport(students: seq<Student>, m: map<string, Counts>): (r: seq<Row>)
    requires forall s :: s in students ==> s.regNoSuffix in m
    requires forall k :: k in m ==> m[k].presentCount + m[k].absentCount == m[k].total
    ensures |r| == |students|
    ensures forall i :: 0 <= i < |r| ==>
      && r[i].studentId == students[i].id
      && r[i].name == students[i].name
      && r[i].regNo == students[i].regNoPrefix + students[i].regNoSuffix
      && r[i].totalSessions == m[students[i].regNoSuffix].total
      && r[i].presentCount == m[students[i].regNoSuffix].presentCount
      && r[i].absentCount == m[students[i].regNoSuffix].absentCount
      && r[i].presentPercentage == PercentOf(r[i].presentCount, r[i].totalSessions)
      && r[i].absentPercentage == PercentOf(r[i].absentCount, r[i].totalSessions)
    ensures forall i :: 0 <= i < |r| ==> r[i].presentCount + r[i].absentCount == r[i].totalSessions
  {
    seq(|students|, i requires 0 <= i < |students| => RowOf(students[i], m))
  }

  function SumPresent(rows: seq<Row>): nat
  {
    if rows == [] then 0 else SumPresent(rows[..|rows| - 1]) + rows[|rows| - 1].presentCount
  }

  function SumAbsent(rows: seq<Row>): nat
  {
    if rows == [] then 0 else SumAbsent(rows[..|rows| - 1]) + rows[|rows| - 1].absentCount
  }

  function SumSessions(rows: seq<Row>): nat
  {
    if rows == [] then 0 else SumSessions(rows[..|rows| - 1]) + rows[|rows| - 1].totalSessions
  }

  /** Class totals: the present and absent sums over the report are the report's session total. */
  lemma {:induction false} OverallSumsSessions(rows: seq<Row>)
    requires forall i :: 0 <= i < |rows| ==> rows[i].presentCount + rows[i].absentCount == rows[i].totalSessions
    ensures SumPresent(rows) + SumAbsent(rows) == SumSessions(rows)
  {
    if rows != [] {
      OverallSumsSessions(rows[..|rows| - 1]);
    }
  }

  function OverallOf(rows: seq<Row>): (o: Overall)
    ensures o.totalPresent == SumPresent(rows) && o.totalAbsent == SumAbsent(rows)
    ensures o.overallPresentPercent == PercentOf(o.totalPresent, o.totalPresent + o.totalAbsent)
    ensures o.overallAbsentPercent == PercentOf(o.totalAbsent, o.totalPresent + o.totalAbsent)
    ensures o.overallPresentPercent == Zero <==> o.totalPresent + o.totalAbsent == 0
    ensures o.overallAbsentPercent == Zero <==> o.totalPresent + o.totalAbsent == 0
  {
    var totalPresent := SumPresent(rows);
    var totalAbsent := SumAbsent(rows);
    var all := totalPresent + totalAbsent;
    Overall(totalPresent, totalAbsent, PercentOf(totalPresent, all), PercentOf(totalAbsent, all))
  }

  function AbsentKey(r: Row): nat { r.absentCount }

  function PresentKey(r: Row): nat { r.presentCount }

  /** The handler: parameter check, session query, flattening, aggregation, join, totals, rankings. */
  method SummarizeRange(roster: seq<Student>, sessions: seq<Session>,
                        classId: Option<Id>, fromDate: Option<int>, toDate: Option<int>) returns (r: Reply)
    ensures r == MissingParameters <==> classId.None? || fromDate.None? || toDate.None?
    ensures r.Summary? ==>
      var m := Tally(Flatten(FetchSessions(sessions, classId.value, fromDate.value, EndOfDay(toDate.value))));
      && r.fullReport == BuildReport(FoundStudents(roster, classId.value, m), m)
      && r.overallAttendance == OverallOf(r.fullReport)
      && r.topAbsent == Ranking.Top(r.fullReport, AbsentKey)
      && r.topPresent == Ranking.Top(r.fullReport, PresentKey)
  {
    if classId.None? || fromDate.None? || toDate.None? {
      return MissingParameters;
    }
    var start := fromDate.value;
    var end := EndOfDay(toDate.value);
    var fetched := FetchSessions(sessions, classId.value, start, end);
    var records := FlattenEntries(fetched);
    var summary := TallyEntries(records);
    var students := FoundStudents(roster, classId.value, summary);
    var report := BuildReport(students, summary);
    var overall := OverallOf(report);
    r := Summary(overall, Ranking.Top(report, AbsentKey), Ranking.Top(report, PresentKey), report);
  }

  /**
   * Every row of a report belongs to a found student of the class, its
   * present and absent counts add up to its total, that total is at least
   * one (so neither percentage is the zero-total value), and the class
   * totals are the sums over the rows.
   */
  lemma ReportRowsConsistent(roster: seq<Student>, classId: Id, rs: seq<Entry>)
    ensures var m := Tally(rs);
      var students := FoundStudents(roster, classId, m);
      var report := BuildReport(students, m);
      && |report| == |students|
      && (forall i :: 0 <= i < |report| ==>
            && students[i] in roster && students[i].classId == classId
            && report[i].presentCount + report[i].absentCount == report[i].totalSessions
            && report[i].totalSessions >= 1
            && report[i].presentPercentage != Zero && report[i].absentPercentage != Zero)
      && OverallOf(report).totalPresent + OverallOf(report).totalAbsent == SumSessions(report)
  {
    var m := Tally(rs);
    var students := FoundStudents(roster, classId, m);
    var report := BuildReport(students, m);
    forall i | 0 <= i < |report| ensures report[i].totalSessions >= 1 {
      var k := students[i].regNoSuffix;
      assert k in m;
      var j :| 0 <= j < |rs| && rs[j].regNoSuffix == k;
      TallyCounts(rs, k);
      CountSuffixPositive(rs, j);
    }
    OverallSumsSessions(report);
  }

  lemma {:induction false} CountSuffixPositive(rs: seq<Entry>, j: nat)
    requires j < |rs|
    ensures CountSuffix(rs, rs[j].regNoSuffix) >= 1
  {
    if j < |rs| - 1 {
      CountSuffixPositive(rs[..|rs| - 1], j);
    }
  }

  /**
   * The two rankings: `min(5, |report|)` rows each, non-increasing in their
   * key, drawn from the report, with rows of equal key in report order;
   * the full report itself is left in fetch order.
   */
  lemma RankingsProperties(report: seq<Row>, v: nat)
    ensures |Ranking.Top(report, AbsentKey)| == Ranking.Min(Ranking.TOP_N, |report|)
    ensures |Ranking.Top(report, PresentKey)| == Ranking.Min(Ranking.TOP_N, |report|)
    ensures Ranking.NonIncreasing(Ranking.Top(report, AbsentKey), AbsentKey)
    ensures Ranking.NonIncreasing(Ranking.Top(report, PresentKey), PresentKey)
    ensures forall x :: x in Ranking.Top(report, AbsentKey) ==> x in report
    ensures forall x :: x in Ranking.Top(report, PresentKey) ==> x in report
    ensures Ranking.WithKey(Ranking.SortDesc(report, AbsentKey), AbsentKey, v) == Ranking.WithKey(report, AbsentKey, v)
    ensures Ranking.WithKey(Ranking.SortDesc(report, PresentKey), PresentKey, v) == Ranking.WithKey(report, PresentKey, v)
  {
    Ranking.TopProperties(report, AbsentKey);
    Ranking.TopProperties(report, PresentKey);
    Ranking.SortDescStable(report, AbsentKey, v);
    Ranking.SortDescStable(report, PresentKey, v);
  }
}
