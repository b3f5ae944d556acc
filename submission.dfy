/**
 * `POST /attendance/submit`: reconciles a submitted attendance sheet with the
 * session store. A submission either creates the day's session for the class
 * (logging a `create`), is refused as a duplicate, is refused because the
 * 24-hour edit window has closed, or edits the existing session (logging an
 * `edit` that holds the entries before and after).
 *
 * `SubmitStep` is the specification on values; `SessionStore.Submit` is the
 * handler on the mutable store and is proved to follow it.
 */
module Submission {
  import opened Records

  /** The submitted fields of the request body (after normalisation of entries). */
  datatype Request = Request(classId: Id, date: int, time: string, attendance: seq<Entry>, isEdit: bool)

  /** The handler's outcomes: 201, 200, 400 and 403 responses. */
  datatype Reply =
    | Created(session: Session)
    | Edited(session: Session)
    | AlreadySubmitted
    | EditWindowClosed

  /** The persistent state the handler touches: both collections and the id source. */
  datatype Store = Store(sessions: seq<Session>, logs: seq<LogEntry>, nextId: Id)

  datatype Step = Step(store: Store, reply: Reply)

  /** On-duty forces presence; nothing else about the entry changes. */
  function NormalizeEntry(e: Entry): (r: Entry)
    ensures r.present == (e.present || e.od)
    ensures r.regNoSuffix == e.regNoSuffix && r.od == e.od && r.reason == e.reason
  {
    if e.od then e.(present := true) else e
  }

  function Normalized(s: seq<Entry>): (r: seq<Entry>)
    ensures |r| == |s|
    ensures forall i :: 0 <= i < |s| ==> r[i] == NormalizeEntry(s[i])
  {
    seq(|s|, i requires 0 <= i < |s| => NormalizeEntry(s[i]))
  }

  /** After normalisation every on-duty entry is present, and entries without od are untouched. */
  lemma NormalizedProperties(s: seq<Entry>)
    ensures |Normalized(s)| == |s|
    ensures forall i :: 0 <= i < |s| ==> (Normalized(s)[i].od ==> Normalized(s)[i].present)
    ensures forall i :: 0 <= i < |s| && !s[i].od ==> Normalized(s)[i] == s[i]
  {
  }

  /** Normalising twice is normalising once. */
  lemma NormalizedIdempotent(s: seq<Entry>)
    ensures Normalized(Normalized(s)) == Normalized(s)
  {
  }

  /** The normalisation loop over the submitted array, updating entries in place. */
  method NormalizeInPlace(a: array<Entry>)
    modifies a
    ensures a[..] == Normalized(old(a[..]))
  {
    var i := 0;
    while i < a.Length
      invariant 0 <= i <= a.Length
      invariant forall k :: 0 <= k < i ==> a[k] == NormalizeEntry(old(a[k]))
      invariant forall k :: i <= k < a.Length ==> a[k] == old(a[k])
    {
      if a[i].od {
        a[i] := a[i].(present := true);
      }
      i := i + 1;
    }
  }

  /** The lookup window of the submit handler: the class, from the day start for one day, end excluded. */
  predicate InSubmitWindow(s: Session, classId: Id, dateOnly: int)
  {
    s.classId == classId && dateOnly <= s.date < dateOnly + DAY_MS
  }

  /** The single-document lookup: the first session of the class inside the window, in store order. */
  function FindSameDay(sessions: seq<Session>, classId: Id, dateOnly: int): (r: Option<nat>)
    ensures r.Some? ==> r.value < |sessions| && InSubmitWindow(sessions[r.value], classId, dateOnly)
    ensures r.Some? ==> forall k :: 0 <= k < r.value ==> !InSubmitWindow(sessions[k], classId, dateOnly)
    ensures r.None? <==> forall k :: 0 <= k < |sessions| ==> !InSubmitWindow(sessions[k], classId, dateOnly)
  {
    if sessions == [] then None
    else if InSubmitWindow(sessions[0], classId, dateOnly) then Some(0)
    else match FindSameDay(sessions[1..], classId, dateOnly)
      case None => None
      case Some(k) => Some(k + 1)
  }

  /** The edit guard: strictly more than one day since creation. */
  predicate EditExpired(createdAt: int, now: int)
  {
    now - createdAt > DAY_MS
  }

  /** The submit handler as a function of the store before the call. */
  function SubmitStep(st: Store, req: Request, username: string, now: int): (r: Step)
    ensures r.reply.Created? <==> FindSameDay(st.sessions, req.classId, DayStart(req.date)).None?
    ensures r.reply.AlreadySubmitted? || r.reply.EditWindowClosed? ==> r.store == st
    ensures r.reply.Created? || r.reply.Edited? ==>
      |r.store.logs| == |st.logs| + 1 && r.store.logs[..|st.logs|] == st.logs
  {
    var entries := Normalized(req.attendance);
    match FindSameDay(st.sessions, req.classId, DayStart(req.date))
    case Some(i) =>
      if !req.isEdit then Step(st, AlreadySubmitted)
      else if EditExpired(st.sessions[i].createdAt, now) then Step(st, EditWindowClosed)
      else
        var existing := st.sessions[i];
        var log := LogEntry(existing.id, Edit, Some(existing.attendance), entries, username, now);
        var updated := existing.(attendance := entries, time := req.time, lastEditedBy := Some(username));
        Step(Store(st.sessions[i := updated], st.logs + [log], st.nextId), Edited(updated))
    case None =>
      var created := Session(st.nextId, req.classId, req.date, req.time, entries, username, None, now);
      var log := LogEntry(created.id, Create, None, entries, username, now);
      Step(Store(st.sessions + [created], st.logs + [log], st.nextId + 1), Created(created))
  }

  /** At most one session per class and calendar day. */
  ghost predicate OnePerDay(sessions: seq<Session>)
  {
    forall i, j :: 0 <= i < j < |sessions| && sessions[i].classId == sessions[j].classId
      ==> DayStart(sessions[i].date) != DayStart(sessions[j].date)
  }

  /** Session ids are distinct and below the next fresh id. */
  ghost predicate IdsFresh(st: Store)
  {
    && (forall i :: 0 <= i < |st.sessions| ==> st.sessions[i].id < st.nextId)
    && (forall i, j :: 0 <= i < j < |st.sessions| ==> st.sessions[i].id != st.sessions[j].id)
  }

  ghost predicate Consistent(st: Store)
  {
    OnePerDay(st.sessions) && IdsFresh(st)
  }

  /** A session of the class exists on the submitted day. */
  ghost predicate SessionOnDay(st: Store, classId: Id, date: int)
  {
    exists k :: 0 <= k < |st.sessions| && InSubmitWindow(st.sessions[k], classId, DayStart(date))
  }

  /** A same-day submission without the edit flag is refused and changes nothing. */
  lemma DuplicateRejected(st: Store, req: Request, username: string, now: int)
    requires SessionOnDay(st, req.classId, req.date) && !req.isEdit
    ensures SubmitStep(st, req, username, now) == Step(st, AlreadySubmitted)
  {
  }

  /**
   * An edit is refused, with no log entry and no change, exactly when more
   * than 24 hours have passed since the session was created.
   */
  lemma EditWindow(st: Store, req: Request, username: string, now: int)
    requires SessionOnDay(st, req.classId, req.date) && req.isEdit
    ensures var i := FindSameDay(st.sessions, req.classId, DayStart(req.date)).value;
      var r := SubmitStep(st, req, username, now);
      && (r.reply == EditWindowClosed <==> now - st.sessions[i].createdAt > DAY_MS)
      && (r.reply == EditWindowClosed ==> r.store == st)
      && (r.reply != EditWindowClosed ==> r.reply.Edited?)
  {
  }

  /** The window is closed on the right: an edit exactly 24 hours after creation is accepted. */
  lemma EditAtExactlyOneDay(st: Store, req: Request, username: string)
    requires SessionOnDay(st, req.classId, req.date) && req.isEdit
    ensures var i := FindSameDay(st.sessions, req.classId, DayStart(req.date)).value;
      SubmitStep(st, req, username, st.sessions[i].createdAt + DAY_MS).reply.Edited?
    ensures var i := FindSameDay(st.sessions, req.classId, DayStart(req.date)).value;
      SubmitStep(st, req, username, st.sessions[i].createdAt + DAY_MS + 1).reply == EditWindowClosed
  {
  }

  /**
   * A successful edit appends exactly one `edit` log holding the old and the
   * new entries, then replaces only entries, time and last editor of that
   * session; every other session is untouched.
   */
  lemma EditUpdatesOnlyThatSession(st: Store, req: Request, username: string, now: int)
    requires SubmitStep(st, req, username, now).reply.Edited?
    ensures var r := SubmitStep(st, req, username, now);
      var i := FindSameDay(st.sessions, req.classId, DayStart(req.date)).value;
      var prior := st.sessions[i];
      var edited := r.store.sessions[i];
      && |r.store.sessions| == |st.sessions|
      && r.store.logs == st.logs + [LogEntry(prior.id, Edit, Some(prior.attendance), Normalized(req.attendance), username, now)]
      && edited.attendance == Normalized(req.attendance)
      && edited.time == req.time
      && edited.lastEditedBy == Some(username)
      && edited.id == prior.id && edited.classId == prior.classId && edited.date == prior.date
      && edited.createdBy == prior.createdBy && edited.createdAt == prior.createdAt
      && r.reply.session == edited
      && (forall k :: 0 <= k < |st.sessions| && k != i ==> r.store.sessions[k] == st.sessions[k])
  {
  }

  /**
   * With no same-day session, exactly one session is added (created by the
   * user, never edited) and exactly one `create` log with no `before`.
   */
  lemma CreateAppendsOneSession(st: Store, req: Request, username: string, now: int)
    requires !SessionOnDay(st, req.classId, req.date)
    ensures var r := SubmitStep(st, req, username, now);
      && r.reply.Created?
      && r.store.sessions == st.sessions + [r.reply.session]
      && r.reply.session.id == st.nextId
      && r.reply.session.classId == req.classId && r.reply.session.date == req.date
      && r.reply.session.time == req.time
      && r.reply.session.attendance == Normalized(req.attendance)
      && r.reply.session.createdBy == username && r.reply.session.lastEditedBy == None
      && r.reply.session.createdAt == now
      && r.store.logs == st.logs + [LogEntry(r.reply.session.id, Create, None, Normalized(req.attendance), username, now)]
  {
  }

  /** Every successful submission logs exactly the entries the session now holds. */
  lemma AuditMatchesSession(st: Store, req: Request, username: string, now: int)
    requires SubmitStep(st, req, username, now).reply.Created? || SubmitStep(st, req, username, now).reply.Edited?
    ensures var r := SubmitStep(st, req, username, now);
      && |r.store.logs| == |st.logs| + 1
      && r.store.logs[|st.logs|].after == r.reply.session.attendance
      && r.store.logs[|st.logs|].attendanceSessionId == r.reply.session.id
      && (r.store.logs[|st.logs|].before.None? <==> r.reply.Created?)
  {
  }

  /** Every step keeps at most one session per class and day, and ids fresh. */
  lemma {:induction false} SubmitPreservesConsistency(st: Store, req: Request, username: string, now: int)
    requires Consistent(st)
    ensures Consistent(SubmitStep(st, req, username, now).store)
  {
    var dateOnly := DayStart(req.date);
    match FindSameDay(st.sessions, req.classId, dateOnly)
    case Some(i) =>
    case None =>
      var created := Session(st.nextId, req.classId, req.date, req.time, Normalized(req.attendance), username, None, now);
      var ss := st.sessions + [created];
      forall i, j | 0 <= i < j < |ss| && ss[i].classId == ss[j].classId
        ensures DayStart(ss[i].date) != DayStart(ss[j].date)
      {
        if j == |st.sessions| {
          assert !InSubmitWindow(st.sessions[i], req.classId, dateOnly);
          SameDayIffSameDayStart(req.date, ss[i].date);
        }
      }
  }

  /** Runs a sequence of submissions `(request, username, now)` one after the other. */
  function Run(st: Store, calls: seq<(Request, string, int)>): Store
    decreases |calls|
  {
    if calls == [] then st
    else Run(SubmitStep(st, calls[0].0, calls[0].1, calls[0].2).store, calls[1..])
  }

  /** Under sequential submissions there is never more than one session per class and day. */
  lemma {:induction false} RunKeepsOnePerDay(st: Store, calls: seq<(Request, string, int)>)
    requires Consistent(st)
    ensures OnePerDay(Run(st, calls).sessions)
    ensures Consistent(Run(st, calls))
    decreases |calls|
  {
    if calls != [] {
      SubmitPreservesConsistency(st, calls[0].0, calls[0].1, calls[0].2);
      RunKeepsOnePerDay(SubmitStep(st, calls[0].0, calls[0].1, calls[0].2).store, calls[1..]);
    }
  }

  /** The session and audit-log collections as the submit handler sees them. */
  class SessionStore {
    var sessions: seq<Session>
    var logs: seq<LogEntry>
    var nextId: Id

    function State(): Store
      reads this
    {
      Store(sessions, logs, nextId)
    }

    ghost predicate Valid()
      reads this
    {
      Consistent(State())
    }

    constructor ()
      ensures Valid() && State() == Store([], [], 0)
    {
      sessions, logs, nextId := [], [], 0;
    }

    /**
     * The handler: looks up the day's session, normalises the submitted
     * entries in place, then refuses, edits or creates.
     */
    method Submit(classId: Id, date: int, attendance: array<Entry>, time: string, isEdit: bool,
                  username: string, now: int) returns (reply: Reply)
      requires Valid()
      modifies this, attendance
      ensures Valid()
      ensures attendance[..] == Normalized(old(attendance[..]))
      ensures Step(State(), reply)
        == SubmitStep(old(State()), Request(classId, date, time, old(attendance[..]), isEdit), username, now)
    {
      ghost var st := State();
      ghost var req := Request(classId, date, time, attendance[..], isEdit);
      SubmitPreservesConsistency(st, req, username, now);
      var dateOnly := DayStart(date);
      var existing := FindSameDay(sessions, classId, dateOnly);
      NormalizeInPlace(attendance);
      var entries := attendance[..];
      if existing.Some? && !isEdit {
        return AlreadySubmitted;
      }
      if existing.Some? && isEdit {
        var found := sessions[existing.value];
        if now - found.createdAt > DAY_MS {
          return EditWindowClosed;
        }
        logs := logs + [LogEntry(found.id, Edit, Some(found.attendance), entries, username, now)];
        var updated := found.(attendance := entries, time := time, lastEditedBy := Some(username));
        sessions := sessions[existing.value := updated];
        return Edited(updated);
      }
      var session := Session(nextId, classId, date, time, entries, username, None, now);
      nextId := nextId + 1;
      sessions := sessions + [session];
      logs := logs + [LogEntry(session.id, Create, None, entries, username, now)];
      reply := Created(session);
    }
  }
}
