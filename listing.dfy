/**
 * `GET /attendance?classId=&date=`: the sessions of an optional class on an
 * optional date. The point-date window runs from the parsed instant to the
 * last millisecond of its day, which is a different definition of "the same
 * day" from the submit handler's `[day start, day start + 24h)`.
 */
module SessionListing {
  import opened Records
  import Submission

  /** The `date` query parameter: absent (or empty), not a date, or an instant. */
  datatype DateQuery = NoDate | Unparseable | At(t: int)

  datatype Reply = Found(sessions: seq<Session>) | InvalidDate

  /** The query filter built by the handler. */
  predicate Matches(s: Session, classId: Option<Id>, date: DateQuery)
  {
    && (classId.None? || s.classId == classId.value)
    && (date.At? ==> date.t <= s.date <= EndOfDay(date.t))
  }

  function Filter(sessions: seq<Session>, classId: Option<Id>, date: DateQuery): (r: seq<Session>)
    ensures |r| <= |sessions|
    ensures forall s :: s in r ==> s in sessions && Matches(s, classId, date)
    ensures forall s :: s in sessions && Matches(s, classId, date) ==> s in r
  {
    if sessions == [] then []
    else
      var rest := Filter(sessions[1..], classId, date);
      assert forall s :: s in sessions ==> s == sessions[0] || s in sessions[1..];
      if Matches(sessions[0], classId, date) then [sessions[0]] + rest else rest
  }

  /** The handler: an unparseable date is refused before any query. */
  function ListSessions(sessions: seq<Session>, classId: Option<Id>, date: DateQuery): (r: Reply)
    ensures r == InvalidDate <==> date.Unparseable?
    ensures r.Found? ==> forall s :: s in r.sessions <==> s in sessions && Matches(s, classId, date)
  {
    if date.Unparseable? then InvalidDate else Found(Filter(sessions, classId, date))
  }

  /** Without filters every session is listed, in store order. */
  lemma {:induction false} NoFilterListsAll(sessions: seq<Session>)
    ensures ListSessions(sessions, None, NoDate) == Found(sessions)
  {
    if sessions != [] {
      NoFilterListsAll(sessions[1..]);
      assert [sessions[0]] + sessions[1..] == sessions;
    }
  }

  /**
   * For a date that is a day start (a date-only query) the listing window and
   * the submit handler's window select the same sessions.
   */
  lemma MidnightWindowsAgree(t: int, s: Session, classId: Id)
    requires DayStart(t) == t
    ensures Matches(s, Some(classId), At(t)) <==> Submission.InSubmitWindow(s, classId, DayStart(t))
  {
  }

  /**
   * For any query instant later than its day start the two windows differ:
   * a session stored at the day start is found by the submit handler but
   * not listed.
   */
  lemma WindowsDifferAfterMidnight(t: int, s: Session, classId: Id)
    requires DayStart(t) < t
    requires s.classId == classId && s.date == DayStart(t)
    ensures Submission.InSubmitWindow(s, classId, DayStart(t))
    ensures !Matches(s, Some(classId), At(t))
  {
  }
}
