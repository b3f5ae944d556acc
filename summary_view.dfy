/**
 * The per-day summary of the summary page: counts of plain presences,
 * on-duty days and absences for the first session listed for the chosen
 * date, the list of reasons, and whether the session may still be edited.
 */
module SummaryView {
  import opened Records
  import Submission

  datatype ReasonLine = ReasonLine(regNoSuffix: string, reason: string, od: bool)

  datatype DaySummary = DaySummary(
    total: nat,
    presentCount: nat,
    absentCount: int,
    presentPercentage: Percent,
    absentPercentage: Percent,
    odCount: nat,
    reasons: seq<ReasonLine>)

  /** What the page holds after loading: the summary (null without a date) and the edit flag. */
  datatype View = View(summary: Option<DaySummary>, canEdit: bool)

  function CountOd(es: seq<Entry>): (n: nat)
    ensures n <= |es|
  {
    if es == [] then 0 else CountOd(es[..|es| - 1]) + (if es[|es| - 1].od then 1 else 0)
  }

  function CountPresentOnly(es: seq<Entry>): (n: nat)
    ensures n <= |es|
  {
    if es == [] then 0 else CountPresentOnly(es[..|es| - 1]) + (if es[|es| - 1].present && !es[|es| - 1].od then 1 else 0)
  }

  function CountAbsentOnly(es: seq<Entry>): (n: nat)
  {
    if es == [] then 0 else CountAbsentOnly(es[..|es| - 1]) + (if !es[|es| - 1].present && !es[|es| - 1].od then 1 else 0)
  }

  /** Plain presences, on-duty entries and plain absences partition the entries. */
  lemma {:induction false} CountsPartition(es: seq<Entry>)
    ensures CountPresentOnly(es) + CountOd(es) + CountAbsentOnly(es) == |es|
  {
    if es != [] {
      CountsPartition(es[..|es| - 1]);
    }
  }

  /** An entry whose reason is shown: absent or on duty, with a non-empty reason. */
  predicate Listed(e: Entry)
  {
    (!e.present || e.od) && e.reason.Some? && e.reason.value != ""
  }

  function LineOf(e: Entry): ReasonLine
    requires e.reason.Some?
  {
    ReasonLine(e.regNoSuffix, e.reason.value, e.od)
  }

  function Reasons(es: seq<Entry>): (r: seq<ReasonLine>)
    ensures forall x :: x in r ==> exists e :: e in es && Listed(e) && x == LineOf(e)
    ensures forall e :: e in es && Listed(e) ==> LineOf(e) in r
  {
    if es == [] then []
    else
      var rest := Reasons(es[1..]);
      assert forall e :: e in es ==> e == es[0] || e in es[1..];
      (if Listed(es[0]) then [LineOf(es[0])] else []) + rest
  }

  /** The reasons keep the entries' order: reasons of a concatenation are concatenated. */
  lemma {:induction false} ReasonsInOrder(a: seq<Entry>, b: seq<Entry>)
    ensures Reasons(a + b) == Reasons(a) + Reasons(b)
  {
    if a == [] {
      assert a + b == b;
    } else {
      assert (a + b)[0] == a[0];
      assert (a + b)[1..] == a[1..] + b;
      ReasonsInOrder(a[1..], b);
    }
  }

  /** The summary of one session's entries. */
  function Summarize(es: seq<Entry>): (r: DaySummary)
    ensures r.total == |es|
    ensures r.presentCount == CountPresentOnly(es) && r.odCount == CountOd(es)
    ensures r.presentCount + r.odCount + r.absentCount == r.total
    ensures r.absentCount == CountAbsentOnly(es)
    ensures r.reasons == Reasons(es)
    ensures r.absentCount >= 0
    ensures r.presentPercentage == PercentOf(r.presentCount, r.total)
    ensures r.absentPercentage == PercentOf(r.absentCount as nat, r.total)
    ensures r.presentPercentage == Zero <==> r.total == 0
    ensures r.absentPercentage == Zero <==> r.total == 0
  {
    CountsPartition(es);
    var total := |es|;
    var ods := CountOd(es);
    var present := CountPresentOnly(es);
    var absent := total - present - ods;
    DaySummary(total, present, absent, PercentOf(present, total), PercentOf(absent, total), ods, Reasons(es))
  }

  /** The page's edit check: at most 24 hours since the session was created. */
  predicate CanEdit(createdAt: int, now: int)
  {
    now - createdAt <= DAY_MS
  }

  /** What the page computes from the date selection and the sessions listed for it. */
  function Load(dateSelected: bool, sessions: seq<Session>, now: int): (v: View)
    ensures !dateSelected ==> v == View(None, false)
    ensures dateSelected && sessions == [] ==> v == View(Some(DaySummary(0, 0, 0, Zero, Zero, 0, [])), false)
    ensures dateSelected && sessions != [] ==> v.summary == Some(Summarize(sessions[0].attendance))
    ensures v.canEdit <==> dateSelected && sessions != [] && CanEdit(sessions[0].createdAt, now)
  {
    if !dateSelected then View(None, false)
    else if sessions == [] then View(Some(DaySummary(0, 0, 0, Zero, Zero, 0, [])), false)
    else
      var session := sessions[0];
      View(Some(Summarize(session.attendance)), CanEdit(session.createdAt, now))
  }

  /** Only the first listed session is summarised. */
  lemma OnlyFirstSessionUsed(dateSelected: bool, s: Session, rest: seq<Session>, now: int)
    ensures Load(dateSelected, [s] + rest, now) == Load(dateSelected, [s], now)
  {
  }

  /**
   * The page offers editing exactly when the backend would accept an edit of
   * that session: `CanEdit` is the complement of the backend's expiry test.
   */
  lemma CanEditMatchesBackend(st: Submission.Store, req: Submission.Request, username: string, now: int)
    requires Submission.SessionOnDay(st, req.classId, req.date) && req.isEdit
    ensures var i := Submission.FindSameDay(st.sessions, req.classId, DayStart(req.date)).value;
      CanEdit(st.sessions[i].createdAt, now) <==> Submission.SubmitStep(st, req, username, now).reply.Edited?
  {
  }
}
