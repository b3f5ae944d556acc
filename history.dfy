/**
 * `GET /attendance/student/:studentId?classId=`: one student's attendance
 * history over every session of a class, with counts of plain presences,
 * on-duty days and absences and the two detail lists.
 */
module StudentHistory {
  import opened Records

  /** One matched session as the handler records it; reason defaults to "". */
  datatype DayRecord = DayRecord(date: int, present: bool, od: bool, reason: string)

  datatype Dated = Dated(date: int, reason: string)

  datatype Stats = Stats(total: nat, presentCount: nat, absentCount: int, odCount: nat)

  datatype Report = Report(name: string, regNo: string, stats: Stats, absents: seq<Dated>, ods: seq<Dated>)

  datatype Error = StudentNotFound

  datatype Result = Ok(report: Report) | Err(error: Error)

  /** The first entry of the session carrying the student's suffix. */
  function FindEntry(entries: seq<Entry>, suffix: string): (r: Option<Entry>)
    ensures r.Some? ==> r.value in entries && r.value.regNoSuffix == suffix
    ensures r.None? <==> forall e :: e in entries ==> e.regNoSuffix != suffix
    ensures r.Some? ==> exists k :: (0 <= k < |entries| && entries[k] == r.value
      && forall m :: 0 <= m < k ==> entries[m].regNoSuffix != suffix)
  {
    if entries == [] then None
    else if entries[0].regNoSuffix == suffix then Some(entries[0])
    else
      var r := FindEntry(entries[1..], suffix);
      if r.Some? then
        ghost var k :| 0 <= k < |entries[1..]| && entries[1..][k] == r.value
          && forall m :: 0 <= m < k ==> entries[1..][m].regNoSuffix != suffix;
        assert entries[k + 1] == r.value;
        r
      else r
  }

  function RecordOf(date: int, e: Entry): DayRecord
  {
    DayRecord(date, e.present, e.od, ReasonText(e))
  }

  /** The records the handler pushes, session by session, for the class's sessions. */
  function MatchedRecords(sessions: seq<Session>, classId: Id, suffix: string): (r: seq<DayRecord>)
    ensures |r| <= |sessions|
    ensures forall i :: 0 <= i < |r| ==>
      exists j :: 0 <= j < |sessions| && sessions[j].classId == classId && sessions[j].date == r[i].date
  {
    if sessions == [] then []
    else
      var rest := MatchedRecords(sessions[..|sessions| - 1], classId, suffix);
      var s := sessions[|sessions| - 1];
      if s.classId != classId then rest
      else match FindEntry(s.attendance, suffix)
        case None => rest
        case Some(e) => rest + [RecordOf(s.date, e)]
  }

  /** A session that does not list the student (or is of another class) adds no record. */
  lemma {:induction false} SessionWithoutStudentNotCounted(sessions: seq<Session>, s: Session, classId: Id, suffix: string)
    requires s.classId != classId || forall e :: e in s.attendance ==> e.regNoSuffix != suffix
    ensures MatchedRecords(sessions + [s], classId, suffix) == MatchedRecords(sessions, classId, suffix)
  {
    assert (sessions + [s])[..|sessions|] == sessions;
  }

  /**
   * A session of the class that lists the student adds exactly one record:
   * its date, and the presence, od flag and reason (unset read as "") of
   * the first entry carrying the suffix.
   */
  lemma {:induction false} SessionWithStudentCounted(sessions: seq<Session>, s: Session, classId: Id, suffix: string)
    requires s.classId == classId && exists e :: e in s.attendance && e.regNoSuffix == suffix
    ensures |MatchedRecords(sessions + [s], classId, suffix)| == |MatchedRecords(sessions, classId, suffix)| + 1
    ensures var rec := MatchedRecords(sessions + [s], classId, suffix)[|MatchedRecords(sessions, classId, suffix)|];
      var e := FindEntry(s.attendance, suffix).value;
      && rec.date == s.date
      && rec.present == e.present && rec.od == e.od && rec.reason == ReasonText(e)
  {
    assert (sessions + [s])[..|sessions|] == sessions;
  }

  function CountPresentOnly(rs: seq<DayRecord>): (n: nat)
    ensures n <= |rs|
  {
    if rs == [] then 0 else CountPresentOnly(rs[..|rs| - 1]) + (if rs[|rs| - 1].present && !rs[|rs| - 1].od then 1 else 0)
  }

  function AbsentList(rs: seq<DayRecord>): seq<Dated>
  {
    if rs == [] then []
    else
      var r := rs[|rs| - 1];
      AbsentList(rs[..|rs| - 1]) + (if !r.present && !r.od then [Dated(r.date, r.reason)] else [])
  }

  function OdList(rs: seq<DayRecord>): seq<Dated>
  {
    if rs == [] then []
    else
      var r := rs[|rs| - 1];
      OdList(rs[..|rs| - 1]) + (if r.od then [Dated(r.date, r.reason)] else [])
  }

  /** Present-only, on-duty and absent records partition the matched records. */
  lemma {:induction false} ClassificationPartitions(rs: seq<DayRecord>)
    ensures CountPresentOnly(rs) + |OdList(rs)| + |AbsentList(rs)| == |rs|
  {
    if rs != [] {
      ClassificationPartitions(rs[..|rs| - 1]);
    }
  }

  /** Counts and detail lists computed from the matched records. */
  function Summarize(name: string, regNo: string, rs: seq<DayRecord>): (r: Report)
    ensures r.stats.total == |rs|
    ensures r.stats.presentCount + r.stats.odCount + r.stats.absentCount == r.stats.total
    ensures r.stats.absentCount >= 0
    ensures r.stats.presentCount == CountPresentOnly(rs) && r.stats.odCount == |OdList(rs)|
    ensures r.absents == AbsentList(rs) && r.ods == OdList(rs)
    ensures |r.absents| == r.stats.absentCount && |r.ods| == r.stats.odCount
  {
    ClassificationPartitions(rs);
    var total := |rs|;
    var presentCount := CountPresentOnly(rs);
    var odCount := |OdList(rs)|;
    Report(name, regNo, Stats(total, presentCount, total - presentCount - odCount, odCount), AbsentList(rs), OdList(rs))
  }

  /** Every absence listed is a record that was neither present nor on duty, with its reason. */
  lemma {:induction false} AbsentListFromRecords(rs: seq<DayRecord>, k: nat)
    requires k < |AbsentList(rs)|
    ensures exists r :: r in rs && !r.present && !r.od && AbsentList(rs)[k] == Dated(r.date, r.reason)
  {
    var last := rs[|rs| - 1];
    var init := rs[..|rs| - 1];
    if k < |AbsentList(init)| {
      AbsentListFromRecords(init, k);
      var r :| r in init && !r.present && !r.od && AbsentList(init)[k] == Dated(r.date, r.reason);
      assert r in rs;
    } else {
      assert last in rs;
    }
  }

  /** The handler: resolve the student, collect the matched records, summarise. */
  method History(roster: seq<Student>, sessions: seq<Session>, studentId: Id, classId: Id) returns (r: Result)
    ensures FindStudent(roster, studentId).None? <==> r == Err(StudentNotFound)
    ensures r.Ok? ==> var st := FindStudent(roster, studentId).value;
      && r.report.name == st.name
      && r.report.regNo == st.regNoPrefix + st.regNoSuffix
      && r.report.stats.total == |MatchedRecords(sessions, classId, st.regNoSuffix)|
      && r.report.stats.presentCount + r.report.stats.odCount + r.report.stats.absentCount == r.report.stats.total
      && |r.report.absents| == r.report.stats.absentCount
      && |r.report.ods| == r.report.stats.odCount
      && r.report.absents == AbsentList(MatchedRecords(sessions, classId, st.regNoSuffix))
      && r.report.ods == OdList(MatchedRecords(sessions, classId, st.regNoSuffix))
  {
    var found := FindStudent(roster, studentId);
    if found.None? {
      return Err(StudentNotFound);
    }
    var student := found.value;
    var records: seq<DayRecord> := [];
    var i := 0;
    while i < |sessions|
      invariant 0 <= i <= |sessions|
      invariant records == MatchedRecords(sessions[..i], classId, student.regNoSuffix)
    {
      var session := sessions[i];
      assert sessions[..i + 1][..i] == sessions[..i];
      if session.classId == classId {
        var record := FindEntry(session.attendance, student.regNoSuffix);
        if record.Some? {
          records := records + [RecordOf(session.date, record.value)];
        }
      }
      i := i + 1;
    }
    assert sessions[..|sessions|] == sessions;
    r := Ok(Summarize(student.name, student.regNoPrefix + student.regNoSuffix, records));
  }
}
