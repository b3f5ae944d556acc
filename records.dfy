/**
 * Shared records of the attendance application: the entries of an
 * attendance session, the session document, the audit-log document and the
 * student roster record, together with the fixed-length calendar day used by
 * every date window of the backend.
 */
module Records {

  datatype Option<+T> = None | Some(value: T)

  /** Object identifiers (Mongo ObjectIds) are modelled as naturals. */
  type Id = nat

  /** Milliseconds in one day (86400000 in the backend). */
  const DAY_MS: int := 86400000

  /**
   * The start of the day holding instant `t` (milliseconds since the epoch).
   * The backend truncates to local midnight; the model uses fixed 24-hour
   * days counted from the epoch.
   */
  function DayStart(t: int): (d: int)
    ensures d <= t < d + DAY_MS
    ensures d % DAY_MS == 0
  {
    t - t % DAY_MS
  }

  /** The last millisecond of the day holding `t` (23:59:59.999). */
  function EndOfDay(t: int): (e: int)
    ensures t <= e < t + DAY_MS
    ensures e == DayStart(t) + DAY_MS - 1
  {
    DayStart(t) + DAY_MS - 1
  }

  /** Two instants lie in the same day exactly when their day starts agree. */
  lemma SameDayIffSameDayStart(t: int, u: int)
    ensures DayStart(t) <= u < DayStart(t) + DAY_MS <==> DayStart(u) == DayStart(t)
  {
    var d := DayStart(t);
    if d <= u < d + DAY_MS {
      DayStartUnique(u, d);
    }
  }

  /** A multiple of the day length at most one day below `u` is its day start. */
  lemma DayStartUnique(u: int, d: int)
    requires d % DAY_MS == 0 && d <= u < d + DAY_MS
    ensures DayStart(u) == d
  {
    var q := d / DAY_MS;
    assert d == q * DAY_MS;
    assert u == q * DAY_MS + (u - d);
    assert 0 <= u - d < DAY_MS;
    assert u % DAY_MS == u - d by {
      ModUnique(u, q, u - d);
    }
  }

  lemma ModUnique(u: int, q: int, r: int)
    requires 0 <= r < DAY_MS && u == q * DAY_MS + r
    ensures u % DAY_MS == r
  {
  }

  /**
   * One student's line in a session: registration-number suffix, presence,
   * on-duty flag (schema default false) and an optional reason.
   */
  datatype Entry = Entry(regNoSuffix: string, present: bool, od: bool, reason: Option<string>)

  /** The reason as the reports show it: an unset reason reads as "". */
  function ReasonText(e: Entry): (s: string)
    ensures e.reason.None? ==> s == ""
    ensures e.reason.Some? ==> s == e.reason.value
  {
    match e.reason
    case None => ""
    case Some(r) => r
  }

  /** An attendance session document: one class, one day. */
  datatype Session = Session(
    id: Id,
    classId: Id,
    date: int,
    time: string,
    attendance: seq<Entry>,
    createdBy: string,
    lastEditedBy: Option<string>,
    createdAt: int)

  datatype Action = Create | Edit

  /** An audit-log document; `before` is null for a creation. */
  datatype LogEntry = LogEntry(
    attendanceSessionId: Id,
    action: Action,
    before: Option<seq<Entry>>,
    after: seq<Entry>,
    editor: string,
    timestamp: int)

  /**
   * A percentage of `part` in `whole`. The backend writes `Zero` as "0.00" and
   * the summary page writes it as the number 0; the two-decimal
   * rendering of a real ratio is not modelled.
   */
  datatype Percent = Zero | Fixed2(part: nat, whole: nat)

  /** The zero-total case is recognised; otherwise the ratio is kept. */
  function PercentOf(part: nat, whole: nat): (p: Percent)
    ensures p == Zero <==> whole == 0
    ensures p.Fixed2? ==> p.part == part && p.whole == whole
  {
    if whole == 0 then Zero else Fixed2(part, whole)
  }

  /** A roster student. */
  datatype Student = Student(id: Id, regNoSuffix: string, regNoPrefix: string, name: string, classId: Id)

  /** Lookup of a student by identifier. */
  function FindStudent(roster: seq<Student>, id: Id): (r: Option<Student>)
    ensures r.Some? ==> r.value in roster && r.value.id == id
    ensures r.None? ==> forall s :: s in roster ==> s.id != id
  {
    if roster == [] then None
    else if roster[0].id == id then Some(roster[0])
    else FindStudent(roster[1..], id)
  }
}
