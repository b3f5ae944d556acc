/**
 * The attendance-taking page: the per-student marks it keeps (an object
 * keyed by registration suffix, iterated in insertion order), the two
 * edits a user can make, the "absent needs a reason" check and the array
 * it posts to the submit handler.
 */
module AttendanceForm {
  import opened Records
  import Submission

  datatype Mark = Mark(present: bool, reason: string)

  /** One key of the marks object with its value. */
  datatype Row = Row(regNoSuffix: string, mark: Mark)

  /** One element of the posted `attendance` array: no `od`, no `isEdit`. */
  datatype WireEntry = WireEntry(regNoSuffix: string, present: bool, reason: string)

  const DEFAULT_MARK := Mark(true, "")

  function Keys(f: seq<Row>): (ks: seq<string>)
    ensures |ks| == |f|
    ensures forall i :: 0 <= i < |f| ==> ks[i] == f[i].regNoSuffix
  {
    seq(|f|, i requires 0 <= i < |f| => f[i].regNoSuffix)
  }

  predicate HasKey(f: seq<Row>, k: string)
  {
    k in Keys(f)
  }

  ghost predicate UniqueKeys(f: seq<Row>)
  {
    forall i, j :: 0 <= i < j < |f| ==> f[i].regNoSuffix != f[j].regNoSuffix
  }

  /** Where key `k` sits in the object. */
  function IndexOf(f: seq<Row>, k: string): (i: nat)
    requires HasKey(f, k)
    ensures i < |f| && f[i].regNoSuffix == k
    ensures forall j :: 0 <= j < i ==> f[j].regNoSuffix != k
  {
    if f[0].regNoSuffix == k then 0
    else
      assert Keys(f) == [f[0].regNoSuffix] + Keys(f[1..]);
      IndexOf(f[1..], k) + 1
  }

  function Get(f: seq<Row>, k: string): Mark
    requires HasKey(f, k)
  {
    f[IndexOf(f, k)].mark
  }

  /** Assigns the value of an existing key; keys and their order do not change. */
  function Put(f: seq<Row>, k: string, m: Mark): (r: seq<Row>)
    requires HasKey(f, k)
    ensures Keys(r) == Keys(f)
    ensures HasKey(r, k) && Get(r, k) == m
    ensures forall k' :: HasKey(f, k') && k' != k ==> Get(r, k') == Get(f, k')
  {
    var i := IndexOf(f, k);
    var r := f[i := Row(k, m)];
    assert Keys(r) == Keys(f);
    assert forall k' :: HasKey(f, k') ==> IndexOf(r, k') == IndexOf(f, k') by {
      forall k' | HasKey(f, k') ensures IndexOf(r, k') == IndexOf(f, k') {
        IndexOfSameKeys(f, r, k');
      }
    }
    r
  }

  lemma IndexOfSameKeys(f: seq<Row>, g: seq<Row>, k: string)
    requires Keys(f) == Keys(g) && HasKey(f, k)
    ensures HasKey(g, k) && IndexOf(g, k) == IndexOf(f, k)
  {
    var i, j := IndexOf(f, k), IndexOf(g, k);
    assert g[i].regNoSuffix == Keys(g)[i] == Keys(f)[i] == k;
    assert f[j].regNoSuffix == Keys(f)[j] == Keys(g)[j] == k;
  }

  function Suffixes(students: seq<Student>): (ks: seq<string>)
    ensures |ks| == |students|
    ensures forall i :: 0 <= i < |students| ==> ks[i] == students[i].regNoSuffix
  {
    seq(|students|, i requires 0 <= i < |students| => students[i].regNoSuffix)
  }

  /** The distinct keys in order of first appearance: the key order of a JavaScript object. */
  function FirstOccurrences(ks: seq<string>): (r: seq<string>)
    ensures forall k :: k in r <==> k in ks
    ensures forall i, j :: 0 <= i < j < |r| ==> r[i] != r[j]
  {
    if ks == [] then []
    else
      var init := FirstOccurrences(ks[..|ks| - 1]);
      assert forall k :: k in ks <==> k in ks[..|ks| - 1] || k == ks[|ks| - 1];
      if ks[|ks| - 1] in init then init else init + [ks[|ks| - 1]]
  }

  /** The page's initialisation loop: every student's suffix marked present with no reason. */
  method Initial(students: seq<Student>) returns (f: seq<Row>)
    ensures Keys(f) == FirstOccurrences(Suffixes(students))
    ensures UniqueKeys(f)
    ensures forall s :: s in students ==> HasKey(f, s.regNoSuffix) && Get(f, s.regNoSuffix) == DEFAULT_MARK
    ensures forall i :: 0 <= i < |f| ==> f[i].mark == DEFAULT_MARK
  {
    f := [];
    var i := 0;
    while i < |students|
      invariant 0 <= i <= |students|
      invariant Keys(f) == FirstOccurrences(Suffixes(students)[..i])
      invariant forall j :: 0 <= j < |f| ==> f[j].mark == DEFAULT_MARK
    {
      var k := students[i].regNoSuffix;
      ghost var ks := Suffixes(students)[..i + 1];
      assert ks[..i] == Suffixes(students)[..i] && ks[i] == k;
      if HasKey(f, k) {
        f := Put(f, k, DEFAULT_MARK);
      } else {
        assert Keys(f + [Row(k, DEFAULT_MARK)]) == Keys(f) + [k];
        f := f + [Row(k, DEFAULT_MARK)];
      }
      i := i + 1;
    }
    assert Suffixes(students)[..i] == Suffixes(students);
    assert forall j :: 0 <= j < |f| ==> f[j].regNoSuffix == Keys(f)[j];
    forall s | s in students ensures HasKey(f, s.regNoSuffix) && Get(f, s.regNoSuffix) == DEFAULT_MARK {
      var j :| 0 <= j < |students| && students[j] == s;
      assert Suffixes(students)[j] == s.regNoSuffix;
    }
  }

  /**
   * The checkbox: flips presence of that key. Going absent clears the
   * reason; going present keeps whatever reason was there.
   */
  function Toggle(f: seq<Row>, k: string): (r: seq<Row>)
    requires HasKey(f, k)
    ensures Keys(r) == Keys(f)
    ensures HasKey(r, k) && Get(r, k).present == !Get(f, k).present
  {
    var m := Get(f, k);
    Put(f, k, Mark(!m.present, if m.present then "" else m.reason))
  }

  /** The reason box: replaces that key's reason; presence is unchanged. */
  function ChangeReason(f: seq<Row>, k: string, v: string): (r: seq<Row>)
    requires HasKey(f, k)
    ensures Keys(r) == Keys(f)
    ensures HasKey(r, k) && Get(r, k).reason == v
  {
    Put(f, k, Get(f, k).(reason := v))
  }

  lemma ToggleProperties(f: seq<Row>, k: string)
    requires HasKey(f, k)
    ensures Keys(Toggle(f, k)) == Keys(f)
    ensures Get(Toggle(f, k), k).present == !Get(f, k).present
    ensures Get(f, k).present ==> Get(Toggle(f, k), k).reason == ""
    ensures !Get(f, k).present ==> Get(Toggle(f, k), k).reason == Get(f, k).reason
    ensures forall k' :: HasKey(f, k') && k' != k ==> Get(Toggle(f, k), k') == Get(f, k')
  {
  }

  /** Toggling twice restores presence; from present, it also loses the reason. */
  lemma ToggleTwice(f: seq<Row>, k: string)
    requires HasKey(f, k)
    ensures HasKey(Toggle(f, k), k)
    ensures Get(Toggle(Toggle(f, k), k), k).present == Get(f, k).present
    ensures !Get(f, k).present ==> Get(Toggle(Toggle(f, k), k), k) == Mark(false, "")
  {
  }

  lemma ChangeReasonProperties(f: seq<Row>, k: string, v: string)
    requires HasKey(f, k)
    ensures Keys(ChangeReason(f, k, v)) == Keys(f)
    ensures Get(ChangeReason(f, k, v), k) == Mark(Get(f, k).present, v)
    ensures forall k' :: HasKey(f, k') && k' != k ==> Get(ChangeReason(f, k, v), k') == Get(f, k')
  {
  }

  /** Characters removed by JavaScript's `String.prototype.trim`: white space and line terminators. */
  predicate IsTrimmed(c: char)
  {
    || c == '\t' || c == '\n' || c == '\U{000B}' || c == '\U{000C}' || c == '\r' || c == ' '
    || c == '\U{00A0}' || c == '\U{1680}' || ('\U{2000}' <= c <= '\U{200A}')
    || c == '\U{2028}' || c == '\U{2029}' || c == '\U{202F}' || c == '\U{205F}'
    || c == '\U{3000}' || c == '\U{FEFF}'
  }

  /** A reason that trims to the empty string. */
  predicate Blank(s: string)
  {
    forall i :: 0 <= i < |s| ==> IsTrimmed(s[i])
  }

  predicate Acceptable(m: Mark)
  {
    m.present || !Blank(m.reason)
  }

  /** The validation loop: stops at the first absent key whose reason is blank. */
  method Validate(f: seq<Row>) returns (ok: bool)
    ensures ok <==> forall i :: 0 <= i < |f| ==> Acceptable(f[i].mark)
  {
    var i := 0;
    while i < |f|
      invariant 0 <= i <= |f|
      invariant forall j :: 0 <= j < i ==> Acceptable(f[j].mark)
    {
      var m := f[i].mark;
      if !m.present && Blank(m.reason) {
        return false;
      }
      i := i + 1;
    }
    return true;
  }

  /** The posted array: one element per key, in key order, with the reason only for absences. */
  function Payload(f: seq<Row>): (p: seq<WireEntry>)
    ensures |p| == |f|
    ensures forall i :: 0 <= i < |f| ==>
      && p[i].regNoSuffix == f[i].regNoSuffix
      && p[i].present == f[i].mark.present
      && p[i].reason == (if f[i].mark.present then "" else f[i].mark.reason)
  {
    seq(|f|, i requires 0 <= i < |f| =>
      WireEntry(f[i].regNoSuffix, f[i].mark.present, if f[i].mark.present then "" else f[i].mark.reason))
  }

  /** The submit button: nothing is sent when validation fails. */
  method HandleSubmit(f: seq<Row>) returns (sent: Option<seq<WireEntry>>)
    ensures sent.None? <==> exists i :: 0 <= i < |f| && !f[i].mark.present && Blank(f[i].mark.reason)
    ensures sent.Some? ==> sent.value == Payload(f)
  {
    var ok := Validate(f);
    if !ok {
      return None;
    }
    sent := Some(Payload(f));
  }

  /** Every absence posted carries a reason that is not blank. */
  lemma PostedAbsencesHaveReasons(f: seq<Row>, i: nat)
    requires forall j :: 0 <= j < |f| ==> Acceptable(f[j].mark)
    requires i < |Payload(f)| && !Payload(f)[i].present
    ensures !Blank(Payload(f)[i].reason) && Payload(f)[i].reason != ""
  {
    assert !Acceptable(Mark(false, ""));
  }

  /** How the backend reads a posted element: `od` missing (false), reason set. */
  function AsEntries(p: seq<WireEntry>): (es: seq<Entry>)
    ensures |es| == |p|
    ensures forall i :: 0 <= i < |p| ==> es[i] == Entry(p[i].regNoSuffix, p[i].present, false, Some(p[i].reason))
  {
    seq(|p|, i requires 0 <= i < |p| => Entry(p[i].regNoSuffix, p[i].present, false, Some(p[i].reason)))
  }

  /** Entries posted by the page are left untouched by the backend's on-duty normalisation. */
  lemma PostedEntriesAreNormal(f: seq<Row>)
    ensures Submission.Normalized(AsEntries(Payload(f))) == AsEntries(Payload(f))
  {
  }

  /** The request body as the page posts it: no `isEdit` field, which the backend reads as false. */
  function PostedRequest(classId: Id, date: int, time: string, f: seq<Row>): (req: Submission.Request)
    ensures !req.isEdit
  {
    Submission.Request(classId, date, time, AsEntries(Payload(f)), false)
  }

  /**
   * As written, a post from the page for a day that already has a session
   * is always refused as a duplicate, even inside the edit window and even
   * when the page was opened from the summary page's edit button.
   */
  lemma EditFromPageAlwaysRefused(st: Submission.Store, classId: Id, date: int, time: string, f: seq<Row>,
                                  username: string, now: int)
    requires Submission.SessionOnDay(st, classId, date)
    ensures Submission.SubmitStep(st, PostedRequest(classId, date, time, f), username, now).reply
      == Submission.AlreadySubmitted
  {
  }

  /** The request with the navigation state's `isEdit` flag forwarded. */
  function PostedRequestWithEdit(classId: Id, date: int, time: string, f: seq<Row>, isEdit: bool): (req: Submission.Request)
    ensures req.isEdit == isEdit
    ensures req.attendance == AsEntries(Payload(f))
  {
    Submission.Request(classId, date, time, AsEntries(Payload(f)), isEdit)
  }

  /**
   * With the flag forwarded, a post from the edit button inside the window
   * edits the day's session and stores exactly the posted entries.
   */
  lemma EditFromPageWithFlagAccepted(st: Submission.Store, classId: Id, date: int, time: string, f: seq<Row>,
                                     username: string, now: int)
    requires Submission.SessionOnDay(st, classId, date)
    requires var i := Submission.FindSameDay(st.sessions, classId, DayStart(date)).value;
      now - st.sessions[i].createdAt <= DAY_MS
    ensures var r := Submission.SubmitStep(st, PostedRequestWithEdit(classId, date, time, f, true), username, now);
      r.reply.Edited? && r.reply.session.attendance == AsEntries(Payload(f))
  {
    PostedEntriesAreNormal(f);
  }
}
