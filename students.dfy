/**
 * The student routes: the all-or-nothing bulk upload and the class list
 * sorted by registration suffix.
 */
module StudentRoutes {
  import opened Records

  /** A record of the uploaded array; a field is `None` when missing or null. */
  datatype StudentInput = StudentInput(
    regNoSuffix: Option<string>,
    regNoPrefix: Option<string>,
    name: Option<string>,
    classId: Option<Id>)

  /** The request's `students` member: something other than an array, or an array. */
  datatype BulkBody = NotAnArray | Items(records: seq<StudentInput>)

  datatype BulkReply =
    | Inserted(count: nat, message: string, students: seq<Student>)
    | ArrayRequired
    | FieldsRequired

  /** A string field is truthy when present and non-empty. */
  predicate Truthy(o: Option<string>)
  {
    o.Some? && o.value != ""
  }

  /** The per-record check of the upload loop. */
  predicate Complete(s: StudentInput)
  {
    Truthy(s.regNoSuffix) && Truthy(s.regNoPrefix) && Truthy(s.name) && s.classId.Some?
  }

  /** The loop's early return: the first record that fails the check, if any. */
  function FirstIncomplete(records: seq<StudentInput>): (r: Option<nat>)
    ensures r.None? <==> forall i :: 0 <= i < |records| ==> Complete(records[i])
    ensures r.Some? ==> (r.value < |records| && !Complete(records[r.value])
      && forall i :: 0 <= i < r.value ==> Complete(records[i]))
  {
    if records == [] then None
    else if !Complete(records[0]) then Some(0)
    else match FirstIncomplete(records[1..])
      case None => None
      case Some(i) => Some(i + 1)
  }

  /** Decimal digits of a natural number, as template-literal interpolation writes it. */
  function NatToString(n: nat): (s: string)
    ensures |s| >= 1
    ensures forall i :: 0 <= i < |s| ==> '0' <= s[i] <= '9'
  {
    var d := [('0' as int + n % 10) as char];
    if n < 10 then d else NatToString(n / 10) + d
  }

  /** Reads the decimal digits back. */
  function DigitsValue(s: string): nat
    requires forall i :: 0 <= i < |s| ==> '0' <= s[i] <= '9'
  {
    if s == [] then 0 else DigitsValue(s[..|s| - 1]) * 10 + (s[|s| - 1] as int - '0' as int)
  }

  lemma {:induction false} NatToStringRoundTrip(n: nat)
    ensures DigitsValue(NatToString(n)) == n
  {
    var s := NatToString(n);
    assert s[..|s| - 1] == (if n < 10 then [] else NatToString(n / 10));
    if n >= 10 {
      NatToStringRoundTrip(n / 10);
    }
  }

  function ToStudent(s: StudentInput, id: Id): Student
    requires Complete(s)
  {
    Student(id, s.regNoSuffix.value, s.regNoPrefix.value, s.name.value, s.classId.value)
  }

  /** The stored documents: the records in order, with fresh ids from `nextId`. */
  function Stored(records: seq<StudentInput>, nextId: Id): (r: seq<Student>)
    requires forall i :: 0 <= i < |records| ==> Complete(records[i])
    ensures |r| == |records|
    ensures forall i :: 0 <= i < |r| ==> r[i] == ToStudent(records[i], nextId + i)
  {
    seq(|records|, i requires 0 <= i < |records| => ToStudent(records[i], nextId + i))
  }

  /**
   * The upload: an empty or non-array body is refused, then one incomplete
   * record refuses the whole batch; otherwise every record is inserted and
   * the message reports how many.
   */
  function Bulk(roster: seq<Student>, body: BulkBody, nextId: Id): (r: (seq<Student>, BulkReply))
    ensures r.1.ArrayRequired? <==> body.NotAnArray? || body.records == []
    ensures r.1.FieldsRequired? <==> (body.Items? && body.records != []
      && exists i :: 0 <= i < |body.records| && !Complete(body.records[i]))
    ensures !r.1.Inserted? ==> r.0 == roster
    ensures r.1.Inserted? ==> (
      && body.Items?
      && (forall i :: 0 <= i < |body.records| ==> Complete(body.records[i]))
      && r.1.count == |body.records|
      && r.0 == roster + r.1.students
      && |r.1.students| == |body.records|
      && r.1.students == Stored(body.records, nextId)
      && r.1.message == NatToString(|body.records|) + " students successfully added.")
  {
    if body.NotAnArray? || body.records == [] then (roster, ArrayRequired)
    else if FirstIncomplete(body.records).Some? then (roster, FieldsRequired)
    else
      var inserted := Stored(body.records, nextId);
      (roster + inserted, Inserted(|inserted|, NatToString(|inserted|) + " students successfully added.", inserted))
  }

  /** Code-point order on strings (Unicode scalar values), which is the order of the store's binary UTF-8 comparison. */
  predicate LexLe(a: string, b: string)
  {
    a == [] || (b != [] && (a[0] < b[0] || (a[0] == b[0] && LexLe(a[1..], b[1..]))))
  }

  lemma {:induction false} LexLeTotal(a: string, b: string)
    ensures LexLe(a, b) || LexLe(b, a)
  {
    if a != [] && b != [] && a[0] == b[0] {
      LexLeTotal(a[1..], b[1..]);
    }
  }

  lemma {:induction false} LexLeTransitive(a: string, b: string, c: string)
    requires LexLe(a, b) && LexLe(b, c)
    ensures LexLe(a, c)
  {
    if a != [] && b != [] && c != [] && a[0] == b[0] && b[0] == c[0] {
      LexLeTransitive(a[1..], b[1..], c[1..]);
    }
  }

  ghost predicate SortedBySuffix(s: seq<Student>)
  {
    forall i, j :: 0 <= i < j < |s| ==> LexLe(s[i].regNoSuffix, s[j].regNoSuffix)
  }

  /** Inserts `x` before the first element whose suffix is at least `x`'s. */
  function InsertBySuffix(x: Student, s: seq<Student>): (r: seq<Student>)
    ensures |r| == |s| + 1
    ensures multiset(r) == multiset(s) + multiset{x}
  {
    if s == [] || LexLe(x.regNoSuffix, s[0].regNoSuffix) then [x] + s
    else
      assert s == [s[0]] + s[1..];
      [s[0]] + InsertBySuffix(x, s[1..])
  }

  function SortBySuffix(s: seq<Student>): (r: seq<Student>)
    ensures |r| == |s|
    ensures multiset(r) == multiset(s)
  {
    if s == [] then []
    else
      assert s == [s[0]] + s[1..];
      InsertBySuffix(s[0], SortBySuffix(s[1..]))
  }

  ghost predicate AllAtLeast(s: seq<Student>, k: string)
  {
    forall i :: 0 <= i < |s| ==> LexLe(k, s[i].regNoSuffix)
  }

  lemma {:induction false} InsertAtLeast(x: Student, s: seq<Student>, k: string)
    requires AllAtLeast(s, k) && LexLe(k, x.regNoSuffix)
    ensures AllAtLeast(InsertBySuffix(x, s), k)
  {
    if s != [] && !LexLe(x.regNoSuffix, s[0].regNoSuffix) {
      InsertAtLeast(x, s[1..], k);
    }
  }

  lemma {:induction false} InsertSorted(x: Student, s: seq<Student>)
    requires SortedBySuffix(s)
    ensures SortedBySuffix(InsertBySuffix(x, s))
  {
    if s == [] {
    } else if LexLe(x.regNoSuffix, s[0].regNoSuffix) {
      var r := [x] + s;
      forall i, j | 0 <= i < j < |r| ensures LexLe(r[i].regNoSuffix, r[j].regNoSuffix) {
        if i == 0 {
          assert r[j] == s[j - 1];
          if j > 1 {
            LexLeTransitive(x.regNoSuffix, s[0].regNoSuffix, s[j - 1].regNoSuffix);
          }
        } else {
          assert r[i] == s[i - 1] && r[j] == s[j - 1];
        }
      }
    } else {
      LexLeTotal(s[0].regNoSuffix, x.regNoSuffix);
      var rest := InsertBySuffix(x, s[1..]);
      InsertSorted(x, s[1..]);
      assert AllAtLeast(s[1..], s[0].regNoSuffix) by {
        forall i | 0 <= i < |s[1..]| ensures LexLe(s[0].regNoSuffix, s[1..][i].regNoSuffix) {
          assert s[1..][i] == s[i + 1];
        }
      }
      InsertAtLeast(x, s[1..], s[0].regNoSuffix);
      var r := [s[0]] + rest;
      forall i, j | 0 <= i < j < |r| ensures LexLe(r[i].regNoSuffix, r[j].regNoSuffix) {
        assert r[j] == rest[j - 1];
        if i > 0 {
          assert r[i] == rest[i - 1];
        }
      }
    }
  }

  lemma {:induction false} SortBySuffixSorted(s: seq<Student>)
    ensures SortedBySuffix(SortBySuffix(s))
  {
    if s != [] {
      SortBySuffixSorted(s[1..]);
      InsertSorted(s[0], SortBySuffix(s[1..]));
    }
  }

  /** The students with suffix `k`, in order. */
  function WithSuffix(s: seq<Student>, k: string): (r: seq<Student>)
    ensures |r| <= |s|
  {
    if s == [] then []
    else (if s[0].regNoSuffix == k then [s[0]] else []) + WithSuffix(s[1..], k)
  }

  lemma {:induction false} LexLeReflexive(a: string)
    ensures LexLe(a, a)
  {
    if a != [] {
      LexLeReflexive(a[1..]);
    }
  }

  /** Elements passed over by the insertion have a suffix other than `x`'s. */
  lemma {:induction false} InsertWithSuffix(x: Student, s: seq<Student>, k: string)
    ensures WithSuffix(InsertBySuffix(x, s), k)
      == (if x.regNoSuffix == k then [x] else []) + WithSuffix(s, k)
  {
    if s == [] || LexLe(x.regNoSuffix, s[0].regNoSuffix) {
      assert ([x] + s)[1..] == s;
    } else {
      LexLeReflexive(x.regNoSuffix);
      assert s[0].regNoSuffix != x.regNoSuffix;
      var rest := InsertBySuffix(x, s[1..]);
      InsertWithSuffix(x, s[1..], k);
      var hx := if x.regNoSuffix == k then [x] else [];
      var h0 := if s[0].regNoSuffix == k then [s[0]] else [];
      assert ([s[0]] + rest)[1..] == rest;
      assert WithSuffix([s[0]] + rest, k) == h0 + (hx + WithSuffix(s[1..], k));
      assert WithSuffix(s, k) == h0 + WithSuffix(s[1..], k);
      assert h0 == [] || hx == [];
    }
  }

  /** Stability: students sharing a suffix keep their stored order. */
  lemma {:induction false} SortBySuffixStable(s: seq<Student>, k: string)
    ensures WithSuffix(SortBySuffix(s), k) == WithSuffix(s, k)
  {
    if s != [] {
      SortBySuffixStable(s[1..], k);
      InsertWithSuffix(s[0], SortBySuffix(s[1..]), k);
    }
  }

  /** The class filter, applied only when a class is given. */
  function OfClass(roster: seq<Student>, classId: Option<Id>): (r: seq<Student>)
    ensures forall s :: s in r <==> s in roster && (classId.None? || s.classId == classId.value)
    ensures classId.None? ==> r == roster
  {
    if classId.None? || roster == [] then roster
    else
      var rest := OfClass(roster[1..], classId);
      assert forall s :: s in roster <==> s == roster[0] || s in roster[1..];
      if roster[0].classId == classId.value then [roster[0]] + rest else rest
  }

  /** `GET /students`: the students of the class (or all), sorted ascending by suffix. */
  function ListStudents(roster: seq<Student>, classId: Option<Id>): (r: seq<Student>)
    ensures multiset(r) == multiset(OfClass(roster, classId))
    ensures SortedBySuffix(r)
  {
    SortBySuffixSorted(OfClass(roster, classId));
    SortBySuffix(OfClass(roster, classId))
  }

  /**
   * The list holds exactly the class's students, each as often as stored,
   * in ascending suffix order, with students of one suffix in stored order.
   */
  lemma ListStudentsProperties(roster: seq<Student>, classId: Option<Id>, k: string)
    ensures multiset(ListStudents(roster, classId)) == multiset(OfClass(roster, classId))
    ensures forall s :: s in ListStudents(roster, classId) <==> s in roster && (classId.None? || s.classId == classId.value)
    ensures SortedBySuffix(ListStudents(roster, classId))
    ensures WithSuffix(ListStudents(roster, classId), k) == WithSuffix(OfClass(roster, classId), k)
  {
    SortBySuffixStable(OfClass(roster, classId), k);
    var r := ListStudents(roster, classId);
    forall s ensures s in r <==> s in OfClass(roster, classId) {
      assert s in r <==> s in multiset(r);
    }
  }
}
