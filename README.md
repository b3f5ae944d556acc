# Attendance reconciliation and reporting, modelled in Dafny

This project models the logic core of a small class-attendance application.
The application has an Express/Mongo backend and a React frontend.

- **Submission** (`POST /attendance/submit`) is a state machine over the
  session store and the append-only audit log:
  - it forces on-duty entries to present;
  - it looks for a session of the class on the submitted day;
  - it refuses a duplicate that carries no edit flag;
  - it refuses an edit once 24 hours have passed since the session was created;
  - otherwise it edits that session and logs an `edit`, or creates a session
    and logs a `create`.
- **Student history** (`GET /attendance/student/:id`) gives one student's
  counts of plain presences, on-duty days and absences. It also gives the
  list of absences and the list of on-duty days.
- **Session listing** (`GET /attendance`) filters the sessions by an optional
  class and an optional point date.
- **Range summary** (`GET /attendance/summary-range`) computes, for a date
  range:
  - per-student present and absent counts;
  - class totals;
  - the five students with most absences and the five with most presences.
- **Summary page**: the per-day counts, the list of reasons, and whether the
  day's session may still be edited.
- **Attendance page**: the form state (one mark per registration suffix), the
  checkbox and reason edits, the "absent needs a reason" check, and the array
  it posts.
- **Student routes**: the all-or-nothing bulk upload, and the class list
  sorted by suffix.

The modules follow the program's structure:

| module | file | models |
|---|---|---|
| `Records` | records.dfy | entry, session, log and student documents; the fixed-length day |
| `Submission` | submission.dfy | `SubmitStep`, the specification on values, and class `SessionStore`, the in-place handler proved to follow it |
| `StudentHistory` | history.dfy | the history report |
| `SessionListing` | listing.dfy | the point-date listing |
| `Ranking` | ranking.dfy | the stable descending sort and its first five |
| `RangeSummary` | range_summary.dfy | the range summary |
| `SummaryView` | summary_view.dfy | the summary page computation |
| `AttendanceForm` | attendance_form.dfy | the attendance page state and post |
| `StudentRoutes` | students.dfy | bulk upload and student list |

Modelling choices:

- Time is milliseconds held in an `int`.
- Identifiers are `nat`.
- An entry's `reason` is an `Option` (unset or set), and `od` defaults to false.
- The repository is a `seq` of documents, and `now` and the user name are
  parameters.
- Where the code loops and mutates, the model is a `method` with loop
  invariants, proved against a function. This covers:
  - the in-place normalisation of the submitted array;
  - the session and audit-log store;
  - the history scan;
  - the flattening and tallying loops of the range summary;
  - the form's initialisation loop and validation loop.

Two rules are modelled as the code has them:

- Reasons. The backend neither requires a reason for absent or on-duty
  entries nor clears one for present entries.
  - The attendance page demands a non-blank reason only for absent rows.
  - Its checkbox clears the reason when a row goes *absent*, and keeps it
    when the row goes present, although the comment beside it says the
    opposite. The posted array still sends `""` for every present row
    (`AttendanceForm.ToggleProperties`, `AttendanceForm.Payload`).
- Day boundaries. The code uses two definitions of "the same day", and the
  model keeps both:
  - submit looks in `[day start, day start + 24h)`;
  - the listing looks in `[instant, end of that instant's day]`.
  - `SessionListing.MidnightWindowsAgree` and
    `SessionListing.WindowsDifferAfterMidnight` show that they agree for a
    query at a day start and differ for any query instant after it.

## Model

| member | source | states |
|---|---|---|
| Records.DayStart | attendance-backend/routes/attendance.js:8 | the day start of `t` lies at or before `t`, less than one day before it, on a day boundary |
| Records.EndOfDay | attendance-backend/routes/attendance.js:120 | the end of day is the last millisecond of the day holding `t`, at or after `t` |
| Records.SameDayIffSameDayStart | attendance-backend/routes/attendance.js:14-19 | an instant falls in the submit window of `t` exactly when it has the same day start as `t` |
| Records.ReasonText | attendance-backend/routes/attendance.js:85 | an unset reason reads as the empty string, a set one as itself |
| Records.PercentOf | attendance-backend/routes/attendance.js:188-189 | a percentage is the zero-total value exactly when the whole is 0; otherwise it carries part and whole |
| Records.FindStudent | attendance-backend/routes/attendance.js:72 | a found student is in the roster with that id; none is found exactly when no roster student has it |
| Submission.NormalizeEntry | attendance-backend/routes/attendance.js:22-24 | after normalisation an entry is present exactly when it was present or on duty; suffix, od and reason are unchanged |
| Submission.Normalized | attendance-backend/routes/attendance.js:22-24 | normalising a sheet keeps its length and normalises each entry at its own position |
| Submission.NormalizedProperties | attendance-backend/routes/attendance.js:22-24 | every on-duty entry is present afterwards, and an entry without od is left exactly as it was |
| Submission.NormalizedIdempotent | attendance-backend/routes/attendance.js:22-24 | normalising twice equals normalising once |
| Submission.NormalizeInPlace | attendance-backend/routes/attendance.js:22-24 | the in-place loop leaves the array holding the normalised sheet |
| Submission.FindSameDay | attendance-backend/routes/attendance.js:16-19 | the lookup returns the first session of the class inside the day window, and nothing exactly when no session is inside it |
| Submission.SubmitStep | attendance-backend/routes/attendance.js:11-67 | the step creates exactly when no same-day session exists; a refusal leaves the store unchanged; a success appends exactly one log to the old log. The branch-by-branch contract is in the lemmas below. |
| Submission.DuplicateRejected | attendance-backend/routes/attendance.js:26 | with a same-day session and no edit flag the reply is the duplicate refusal and the store (sessions and log) is unchanged |
| Submission.EditWindow | attendance-backend/routes/attendance.js:29-33 | an edit is refused exactly when more than 24h passed since creation; a refusal leaves the store unchanged; otherwise it is an edit |
| Submission.EditAtExactlyOneDay | attendance-backend/routes/attendance.js:32 | an edit exactly 24h after creation is accepted, one millisecond later it is refused |
| Submission.EditUpdatesOnlyThatSession | attendance-backend/routes/attendance.js:35-49 | a successful edit appends exactly one edit log with the old and new entries and the editor; it replaces only entries, time and last editor of the found session; id, class, date, creator and creation time stay; all other sessions are untouched |
| Submission.CreateAppendsOneSession | attendance-backend/routes/attendance.js:52-66 | with no same-day session exactly one session is appended (fresh id, the request's class, date and time label, normalised entries, creator = user, never edited, created now) and exactly one create log with no before |
| Submission.AuditMatchesSession | attendance-backend/routes/attendance.js:35-64 | every successful submission appends one log whose after equals the session's entries and whose before is null exactly for a creation |
| Submission.SubmitPreservesConsistency | attendance-backend/routes/attendance.js:14-26 | one submission keeps at most one session per class and day, and fresh distinct ids |
| Submission.RunKeepsOnePerDay | attendance-backend/routes/attendance.js:11-67 | under any sequence of submissions there is never more than one session per class and day |
| Submission.SessionStore.Submit | attendance-backend/routes/attendance.js:11-67 | the handler on the mutable store: the submitted array is normalised in place, and the new store and the reply are those of the specification step; the store invariant is kept |
| StudentHistory.FindEntry | attendance-backend/routes/attendance.js:79 | the student's entry in a session is the first carrying its suffix; none exactly when no entry has it |
| StudentHistory.MatchedRecords | attendance-backend/routes/attendance.js:76-87 | at most one record per session, each dated with a session of the class; what a session adds is in the two lemmas below |
| StudentHistory.SessionWithoutStudentNotCounted | attendance-backend/routes/attendance.js:78-87 | a session of another class, or one not listing the student, adds no record |
| StudentHistory.SessionWithStudentCounted | attendance-backend/routes/attendance.js:78-87 | a session of the class listing the student adds exactly one record: the session's date, and the presence, od flag and reason (unset read as "") of the first entry carrying the suffix |
| StudentHistory.ClassificationPartitions | attendance-backend/routes/attendance.js:90-96 | present-only, on-duty and absent records partition the matched records |
| StudentHistory.Summarize | attendance-backend/routes/attendance.js:90-103 | total is the number of records; present counts the present-and-not-od records, od the od records, absent the rest (non-negative), and the three add up to total; the two lists are the absent and the od records with date and reason |
| StudentHistory.AbsentListFromRecords | attendance-backend/routes/attendance.js:95 | each listed absence comes from a record neither present nor on duty, with its date and reason |
| StudentHistory.History | attendance-backend/routes/attendance.js:70-104 | an unknown student is refused; otherwise name and full registration number are the student's, the counts add up, and the lists are those of the matched records |
| SessionListing.Filter | attendance-backend/routes/attendance.js:111-123 | the filter keeps exactly the sessions matching the optional class and the optional point-date window |
| SessionListing.ListSessions | attendance-backend/routes/attendance.js:108-128 | an unparseable date is refused, and only then; otherwise exactly the matching sessions are listed |
| SessionListing.NoFilterListsAll | attendance-backend/routes/attendance.js:110-124 | without class and date every session is listed, in store order |
| SessionListing.MidnightWindowsAgree | attendance-backend/routes/attendance.js:113-121 | for a date at a day start the listing window and the submit window select the same sessions of the class |
| SessionListing.WindowsDifferAfterMidnight | attendance-backend/routes/attendance.js:113-121 | for any query instant after its day start, a session dated at that day start is found by submit but not listed |
| Ranking.Insert | attendance-backend/routes/attendance.js:205-206 | insertion adds exactly the element to the multiset |
| Ranking.SortDesc | attendance-backend/routes/attendance.js:205-206 | sorting is a permutation of the report |
| Ranking.SortDescNonIncreasing | attendance-backend/routes/attendance.js:205-206 | the sorted report is non-increasing in the key |
| Ranking.SortDescStable | attendance-backend/routes/attendance.js:205-206 | rows of any one key keep their report order (stability) |
| Ranking.Top | attendance-backend/routes/attendance.js:205-206 | the top list has min(5, n) rows and is a prefix of the sorted report |
| Ranking.TopProperties | attendance-backend/routes/attendance.js:205-206 | the top list has min(5, n) rows, is non-increasing, is a sub-multiset of the report, and no later sorted row has a larger key than its last |
| RangeSummary.FetchSessions | attendance-backend/routes/attendance.js:140-148 | the query keeps exactly the class's sessions dated from the start to the end instant inclusive |
| RangeSummary.FlattenEntries | attendance-backend/routes/attendance.js:151-156 | the nested loops yield every entry of every session, session after session |
| RangeSummary.Tally | attendance-backend/routes/attendance.js:159-169 | the dictionary has a counter exactly for the suffixes that occur, and in each present + absent = total |
| RangeSummary.TallyEntries | attendance-backend/routes/attendance.js:159-169 | the aggregation loop builds that dictionary |
| RangeSummary.TallyCounts | attendance-backend/routes/attendance.js:159-169 | each counter's total is the number of entries of its suffix, present the number of those with the present flag, absent the rest |
| RangeSummary.TotalsSumToEntries | attendance-backend/routes/attendance.js:159-172 | the totals over all suffixes sum to the number of flattened entries |
| RangeSummary.FoundStudents | attendance-backend/routes/attendance.js:172-176 | the student query keeps exactly the roster students of the class whose suffix has a counter |
| RangeSummary.BuildReport | attendance-backend/routes/attendance.js:179-191 | one row per found student, in fetch order, with its id, name, full registration number, its counter's present, absent and total counts, both percentages of that total, and present + absent = total sessions |
| RangeSummary.OverallSumsSessions | attendance-backend/routes/attendance.js:194-196 | total present plus total absent is the sum of the rows' session totals |
| RangeSummary.OverallOf | attendance-backend/routes/attendance.js:194-202 | class totals are the sums of the rows' counts; the percentages are total present and total absent over their sum, the zero-total value exactly when both sums are 0 |
| RangeSummary.SummarizeRange | attendance-backend/routes/attendance.js:132-219 | a missing class, from or to date is refused, and only then; otherwise the report, totals and the two top-5 lists are those of the fetched, flattened and tallied sessions, and the full report is not reordered |
| RangeSummary.ReportRowsConsistent | attendance-backend/routes/attendance.js:179-202 | every row belongs to a found student of the class, present + absent = total, total >= 1 so no percentage is the zero-total value, and class totals sum the rows |
| RangeSummary.RankingsProperties | attendance-backend/routes/attendance.js:204-212 | both rankings have min(5, n) rows, are non-increasing in their key, are drawn from the report and keep report order among equal keys |
| SummaryView.CountsPartition | attendance-frontend/src/pages/SummaryPage.jsx:65-70 | present-only, on-duty and absent-only entries partition the session's entries |
| SummaryView.Reasons | attendance-frontend/src/pages/SummaryPage.jsx:71-77 | the reasons hold exactly the lines of absent or on-duty entries with a non-empty reason, each with its suffix and od flag |
| SummaryView.ReasonsInOrder | attendance-frontend/src/pages/SummaryPage.jsx:71-77 | reasons keep entry order: the reasons of a concatenation are the concatenated reasons |
| SummaryView.Summarize | attendance-frontend/src/pages/SummaryPage.jsx:64-90 | total is the number of entries; present counts the present-and-not-od entries, od the od entries, absent the rest, and the three add up to total; the reasons are exactly the page's reason lines; the percentages are present and absent over total, the zero-total value exactly when total is 0 |
| SummaryView.Load | attendance-frontend/src/pages/SummaryPage.jsx:39-102 | no date gives no summary and no edit; no session gives the all-zero summary without reasons and no edit; otherwise the first session is summarised; canEdit holds exactly when a session exists and at most 24h passed since its creation |
| SummaryView.OnlyFirstSessionUsed | attendance-frontend/src/pages/SummaryPage.jsx:60-61 | sessions after the first do not change what the page shows |
| SummaryView.CanEditMatchesBackend | attendance-frontend/src/pages/SummaryPage.jsx:92-95 | the page allows editing exactly when the backend would accept the edit of that session |
| AttendanceForm.Put | attendance-frontend/src/pages/AttendancePage.jsx:51-54 | assigning an existing key keeps the keys and their order, sets that key's mark and leaves every other key's mark |
| AttendanceForm.FirstOccurrences | attendance-frontend/src/pages/AttendancePage.jsx:34-37 | object keys are the distinct suffixes, each once |
| AttendanceForm.Initial | attendance-frontend/src/pages/AttendancePage.jsx:33-38 | after initialisation the keys are the students' distinct suffixes in first-seen order, and every key is marked present with an empty reason |
| AttendanceForm.Toggle | attendance-frontend/src/pages/AttendancePage.jsx:50-59 | a toggle keeps the keys and flips that key's presence; the reason rule and the other keys are in AttendanceForm.ToggleProperties |
| AttendanceForm.ToggleProperties | attendance-frontend/src/pages/AttendancePage.jsx:50-59 | a toggle keeps the keys and flips only that key's presence; going absent clears the reason, going present keeps it; every other key is unchanged |
| AttendanceForm.ToggleTwice | attendance-frontend/src/pages/AttendancePage.jsx:50-59 | two toggles restore presence; starting from absent the reason is lost |
| AttendanceForm.ChangeReason | attendance-frontend/src/pages/AttendancePage.jsx:63-71 | a reason change keeps the keys and sets that key's reason; presence and the other keys are in AttendanceForm.ChangeReasonProperties |
| AttendanceForm.ChangeReasonProperties | attendance-frontend/src/pages/AttendancePage.jsx:63-71 | a reason change sets only that key's reason, leaves its presence and every other key unchanged |
| AttendanceForm.Validate | attendance-frontend/src/pages/AttendancePage.jsx:79-84 | validation passes exactly when no absent row has a reason that trims to empty |
| AttendanceForm.Payload | attendance-frontend/src/pages/AttendancePage.jsx:87-91 | one posted element per key, in key order, presence copied, reason empty for present rows and kept for absent rows |
| AttendanceForm.HandleSubmit | attendance-frontend/src/pages/AttendancePage.jsx:74-101 | nothing is sent exactly when some absent row has a blank reason; otherwise the payload is sent |
| AttendanceForm.PostedAbsencesHaveReasons | attendance-frontend/src/pages/AttendancePage.jsx:79-91 | after validation every posted absence carries a non-blank reason |
| AttendanceForm.AsEntries | attendance-backend/models/AttendanceSession.js:3-8 | a posted element is read as an entry with od false and its reason set |
| AttendanceForm.PostedEntriesAreNormal | attendance-frontend/src/pages/AttendancePage.jsx:87-91 | the backend's on-duty normalisation leaves the page's entries unchanged |
| AttendanceForm.PostedRequest | attendance-frontend/src/pages/AttendancePage.jsx:95-101 | the posted request carries no edit flag |
| AttendanceForm.EditFromPageAlwaysRefused | attendance-frontend/src/pages/AttendancePage.jsx:95-101 | as written, a post for a day that already has a session is always refused as a duplicate |
| AttendanceForm.PostedRequestWithEdit | attendance-frontend/src/pages/SummaryPage.jsx:140-142 | the request forwards the navigation's edit flag and the payload's entries |
| AttendanceForm.EditFromPageWithFlagAccepted | attendance-frontend/src/pages/SummaryPage.jsx:140-142 | with the flag forwarded, an edit inside the window is accepted and stores exactly the posted entries |
| StudentRoutes.FirstIncomplete | attendance-backend/routes/student.js:41-45 | the validation loop stops at the first record missing a truthy field; none exactly when every record is complete |
| StudentRoutes.NatToString | attendance-backend/routes/student.js:51 | the count is written as a non-empty string of decimal digits |
| StudentRoutes.NatToStringRoundTrip | attendance-backend/routes/student.js:51 | reading the digits back gives the count |
| StudentRoutes.Stored | attendance-backend/routes/student.js:48 | the inserted documents are the records in order with fresh ids |
| StudentRoutes.Bulk | attendance-backend/routes/student.js:34-53 | a non-array or empty body is refused, and only then; an incomplete record refuses the whole batch, and only then; any refusal leaves the roster unchanged; an insert adds exactly the stored form of every record, in order with fresh ids, and reports their number in the message |
| StudentRoutes.LexLeTotal | attendance-backend/routes/student.js:12 | any two suffixes are ordered one way or the other |
| StudentRoutes.LexLeTransitive | attendance-backend/routes/student.js:12 | the suffix order is transitive |
| StudentRoutes.InsertBySuffix | attendance-backend/routes/student.js:12 | insertion adds exactly the student to the multiset |
| StudentRoutes.SortBySuffix | attendance-backend/routes/student.js:12 | the sort is a permutation |
| StudentRoutes.SortBySuffixSorted | attendance-backend/routes/student.js:12 | the sort is ascending by suffix |
| StudentRoutes.LexLeReflexive | attendance-backend/routes/student.js:12 | every suffix is ordered before or equal to itself |
| StudentRoutes.InsertWithSuffix | attendance-backend/routes/student.js:12 | insertion places the student before every stored student of its own suffix |
| StudentRoutes.SortBySuffixStable | attendance-backend/routes/student.js:12 | students of one suffix keep their stored order |
| StudentRoutes.ListStudents | attendance-backend/routes/student.js:10-12 | the list is a permutation of the class filter's result and ascending by suffix; membership and stability in StudentRoutes.ListStudentsProperties |
| StudentRoutes.OfClass | attendance-backend/routes/student.js:10 | the filter keeps exactly the class's students when a class is given, and everything otherwise |
| StudentRoutes.ListStudentsProperties | attendance-backend/routes/student.js:10-12 | the list holds exactly the class's students (or all), each as often as stored, ascending by suffix, with students of one suffix in stored order |

## Left out

- HTTP plumbing is left out: routing, status codes, JSON bodies and the server start. Each handler's outcomes are a reply datatype instead.
- Authentication is left out: JWT and bcrypt are foreign calls. The editor's name is a parameter.
- Local time zones and daylight saving time are left out. `Records.DayStart` uses fixed 24-hour days counted from the epoch instead of local midnight.
- Percentages and dates are not formatted. Two-decimal floating-point rendering and locale date strings are floating point and locale work. `Records.Percent` keeps only the zero-total case and the ratio's operands.
- Mongo query semantics are abstracted. `findOne`, `find` with range and `$in` filters, and `insertMany` become filters and appends over sequences. ObjectIds are naturals.
- Parse failures of dates and ObjectIds are left out, in submit, in the student history (the student id looked up at attendance.js:72) and in the range summary. Those values are taken as already-parsed instants and identifiers.
  - In the range summary such a failure raises inside the handler's try block and becomes a 500 reply.
  - The submit and history handlers have no try block, and the server installs no error handling for async handlers, so a failed query there leaves the request without a reply.
- The listing's `Unparseable` case is modelled as an input; date parsing itself is not.
- Concurrent submissions for the same class and day are left out. The model is sequential.
- React hooks, `localStorage`, navigation and rendering are left out.
- The other routes and pages are not part of this model: classes, login, class selection and the range-summary page.
- `insertMany` failures and null records inside the bulk array are left out.
- The bulk array's other falsy values are also left out: a `classId` of 0 or an empty string. `classId` is present or absent.
- StudentRoutes.ListStudents: the store's order between equal suffixes is unspecified, so the model picks one: a stable insertion sort, which keeps stored order among equal suffixes. Nothing in the store promises that order.
- AttendanceForm.Toggle and AttendanceForm.ChangeReason require the key to be in the form. The page calls them only for rendered students, whose keys the initialisation created.
- Integer-like keys are not put first in the form's key order, unlike a JavaScript object. The form keeps keys in insertion order.
- RangeSummary.Tally: a suffix that names an `Object.prototype` member is not modelled, for example `constructor`. Every suffix starts a fresh counter.
- StudentHistory.History takes `classId` as given. An absent class query parameter is left out.

## Findings

| source | as written | input that shows it | evidently intended | confidence | as-written member | corrected member |
|---|---|---|---|---|---|---|
| attendance-frontend/src/pages/AttendancePage.jsx:95-101 | the page reads only class and date from its navigation state, at line 9, and posts without `isEdit`. The summary page's edit button navigates with `isEdit: true`, at SummaryPage.jsx:140-142. The backend therefore reads every post as a first submission. | a day whose session was created one hour ago, opened through the edit button and posted again: the reply is the duplicate refusal, not an edit | forward the navigation state's `isEdit` in the posted body, so that an edit inside the 24-hour window is accepted | not executed | AttendanceForm.EditFromPageAlwaysRefused | AttendanceForm.EditFromPageWithFlagAccepted |
