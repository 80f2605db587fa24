# School attendance: a Dafny model of the attendance service and its pages

This project models the attendance logic of a school attendance application.
Its backend is an Express/Prisma service and its frontend is a React app.

**The backend service** (`backend/services/attendance.service.ts`):

- Marks attendance for one student, or for a whole batch, in a class
  session.
- Checks each student against the class roster of the session.
- Writes one attendance row per (student, session) pair, creating or
  updating it (an upsert).
- Lists attendance by session, by student and by class, the last two with an
  optional inclusive date window; each listing has its own order.
- Computes per-student statistics: the counts of each status and a rounded
  attendance rate.
- Builds the teacher dashboard: every student a teacher reaches through
  their sessions, with those statistics.

**Three frontend pages** add client-side rules:

- the rate badge, search, average and alert count on the teacher's students
  page;
- the editable status map, its counters, the bulk payload and the save
  button on the mark-attendance page;
- the role filter, date-prefix filter and latest-first order on the
  attendance list page.

**How the model is laid out:**

- **The database** is a value `Db`. It holds the sessions, the students, the
  class names and the attendance `Table`. The table is a map from the key
  (studentId, sessionId) to the stored status and comment, plus the keys in
  insertion order.
- **`AttendanceService.AttendanceStore`** is a class whose marking methods
  update that table in place. Each method is proved equal to a functional
  specification (`MarkOutcome`, `BulkOutcome`), and the lemmas beside those
  functions state the properties of the service.
- **The dashboard merge** is an imperative walk: nested loops over sessions
  and roster fill a map that is keyed by student id. It is proved against
  `MergedAfter`, which says what each entry holds after a given prefix of
  sessions has been walked.
- **The pages' rules** are pure functions, except for two imperative parts of
  the mark-attendance page: the `Map` it fills and the map it copies with one
  key changed. Those are a `StatusMap` class and methods that return a fresh
  map.

**Files:**

- `wrappers.dfy`: `Option` and `Result`.
- `seqs.dfy`: filter, sort, repetition and their lemmas.
- `strings.dfy`: prefix, substring, ASCII lower-casing and lexicographic
  order.
- `rounding.dfy`: `Math.round` of an exact quotient.
- `attendance_types.dfy`: the status enumeration and the DTO.
- `attendance_service.dfy`: marking.
- `attendance_queries.dfy`: listings.
- `attendance_stats.dfy`: statistics.
- `teacher_dashboard.dfy`: getStudentsWithAttendance.
- `teacher_students.dfy`, `mark_attendance.dfy`, `attendance_list.dfy`: the
  three pages.

## Model

| member | source | states |
|---|---|---|
| AttendanceTypes.ParseStatus | backend/types/index.ts:2-7 | exactly the four tokens PRESENT, ABSENT, LATE, EXCUSED name a status, and each reads back to the token it came from |
| AttendanceService.FindSession | backend/services/attendance.service.ts:9-12 | a found session is in the table and has the requested id; nothing is found iff no session has that id |
| AttendanceService.FindStudent | backend/services/attendance.service.ts:19 | `find` returns a student of the list that has the id, and returns nothing iff no student has it |
| AttendanceService.Roster | backend/services/attendance.service.ts:11 | `class.students` is exactly the students whose classId is the class, in table order |
| AttendanceService.RosterIds | backend/services/attendance.service.ts:46 | the id list has one entry per roster student, holding that student's id |
| AttendanceService.RosterChecksAgree | backend/services/attendance.service.ts:19-22 | the single mark's `find` and the bulk mark's `includes` accept the same students: exactly those with that id in the session's class |
| AttendanceService.RosterIdsDistinct | backend/services/attendance.service.ts:46 | with primary-key student ids, no id occurs twice in `classStudentIds` |
| AttendanceService.Message | backend/services/attendance.service.ts:15-53 | the three thrown messages: "Session not found", "Student does not belong to this session's class", and "Student <id> not in class" for the bulk mark |
| AttendanceService.MessageIdentifiesError | backend/services/attendance.service.ts:15-53 | different errors are thrown with different messages, so the bulk message names the failing student unambiguously |
| AttendanceService.MergeComment | backend/services/attendance.service.ts:29-30 | a given comment replaces the stored one; an omitted comment keeps the stored one on update and stores none on create (same rule at lines 63-68) |
| AttendanceService.Upsert | backend/services/attendance.service.ts:25-31 | the key's row is created or overwritten with the status; an omitted comment keeps the stored one; every other row is unchanged; the key set gains only that key; the key is listed exactly once |
| AttendanceService.UpsertIdempotent | backend/services/attendance.service.ts:25-31 | upserting the same values twice leaves the same table as upserting once |
| AttendanceService.UpsertKeepsDbValid | backend/services/attendance.service.ts:25-31 | an upsert for an existing student and session keeps every row referencing existing rows |
| AttendanceService.MarkOutcome | backend/services/attendance.service.ts:5-32 | a failed mark (either thrown error) leaves the table unchanged; a successful one returns the row for the given student, session and status; the table stays well formed |
| AttendanceService.MarkUnknownSession | backend/services/attendance.service.ts:9-16 | when no session has the id, the mark fails with SessionNotFound and the table is unchanged |
| AttendanceService.MarkOutsideRoster | backend/services/attendance.service.ts:18-22 | when the student is not in the session's class, the mark fails with NotInSessionClass and the table is unchanged |
| AttendanceService.MarkUpserts | backend/services/attendance.service.ts:24-31 | a valid mark leaves exactly one row for (studentId, sessionId) with the given status and comment, returns that row, adds no other key and changes no other row |
| AttendanceService.MarkIdempotent | backend/services/attendance.service.ts:5-32 | repeating a mark on the table it produced gives the same answer and the same table |
| AttendanceService.MarkKeepsDbValid | backend/services/attendance.service.ts:5-32 | marking keeps the database's integrity guarantees |
| AttendanceService.FirstOutsider | backend/services/attendance.service.ts:50-54 | nothing is reported iff every entry is on the roster; otherwise the reported student is the first entry off the roster, and every earlier entry is on it |
| AttendanceService.CheckEntries | backend/services/attendance.service.ts:50-54 | the loop over the entries reports exactly `FirstOutsider` |
| AttendanceService.UpsertAll | backend/services/attendance.service.ts:49-72 | running the batch's upserts in order keeps the table well formed |
| AttendanceService.BulkOutcome | backend/services/attendance.service.ts:35-73 | a failed batch leaves the table unchanged; a successful one returns one record per entry; the table stays well formed |
| AttendanceService.BulkAllOrNothing | backend/services/attendance.service.ts:46-54 | if any entry is outside the session's class, the batch fails with NotInClass on the first such entry and no row is written |
| AttendanceService.BulkRecordsPerEntry | backend/services/attendance.service.ts:49-72 | a batch returns one record per entry, in input order, each holding that entry's student, session, status and given comment |
| AttendanceService.UpsertAllLastWins | backend/services/attendance.service.ts:49-72 | after the batch, the row of an entry that no later entry repeats holds that entry's status, and its comment when one is given, so for duplicated students the later entry wins |
| AttendanceService.OmittedCommentKept | backend/services/attendance.service.ts:63-68 | an entry without a comment, for a student no other entry names, leaves the student's stored comment in place after the batch, and stores none on a new row |
| AttendanceService.EntryKeys | backend/services/attendance.service.ts:57-62 | the keys a batch writes are (studentId, sessionId) for exactly the entries' students |
| AttendanceService.UpsertAllKeys | backend/services/attendance.service.ts:49-72 | the batch adds exactly the entries' keys to the table |
| AttendanceService.UpsertAllFrame | backend/services/attendance.service.ts:49-72 | a row whose key no entry names keeps its values |
| AttendanceService.UpsertAllKeepsDbValid | backend/services/attendance.service.ts:49-72 | a batch of existing students keeps the database's integrity guarantees |
| AttendanceService.BulkKeepsDbValid | backend/services/attendance.service.ts:46-72 | a batch that passes the roster check keeps the database's integrity guarantees |
| AttendanceService.AttendanceStore.MarkAttendance | backend/services/attendance.service.ts:5-32 | the method's result and new table are those of `MarkOutcome` on the old state, and the store stays valid |
| AttendanceService.AttendanceStore.RunUpserts | backend/services/attendance.service.ts:49-72 | the transaction loop leaves the table `UpsertAll` describes and returns `BulkRecords` |
| AttendanceService.AttendanceStore.MarkBulkAttendance | backend/services/attendance.service.ts:35-73 | the method's result and new table are those of `BulkOutcome` on the old state: session check, roster check, then all upserts; the store stays valid |
| AttendanceQueries.RecordsOf | backend/services/attendance.service.ts:77 | listing keys yields one record per key, each the row stored under that key |
| AttendanceQueries.TableRecordsExact | backend/services/attendance.service.ts:77 | `findMany` lists every row once, as stored, and no two listed records share a (studentId, sessionId) |
| AttendanceQueries.JoinRecords | backend/services/attendance.service.ts:79-81 | each joined record carries its own session and student, both taken from the tables |
| AttendanceQueries.ListingComplete | backend/services/attendance.service.ts:79-81 | with referential integrity, the join drops nothing: one joined entry per row, in table order |
| AttendanceQueries.DateFiltersAgree | backend/services/attendance.service.ts:91-98 | the student query's conditional date clause and the class query's always-present clause both keep a date iff it lies in the inclusive window; a missing bound imposes nothing |
| AttendanceQueries.LastNameAscIsOrder | backend/services/attendance.service.ts:82 | ordering by last name ascending is a total, transitive order |
| AttendanceQueries.DateDescThenLastNameIsOrder | backend/services/attendance.service.ts:157-160 | date descending, then last name ascending, is a total, transitive order |
| AttendanceQueries.SessionRows | backend/services/attendance.service.ts:78 | exactly the session's records, in table order |
| AttendanceQueries.AttendanceBySession | backend/services/attendance.service.ts:76-84 | a permutation of the session's records, with last names ascending between any two positions |
| AttendanceQueries.StudentRows | backend/services/attendance.service.ts:89-99 | exactly the student's records that satisfy the date condition, in table order |
| AttendanceQueries.AttendanceByStudent | backend/services/attendance.service.ts:87-110 | a permutation of the student's records; a record is listed iff its session date lies in the inclusive window; session dates never increase along the list |
| AttendanceQueries.ClassRows | backend/services/attendance.service.ts:138-146 | exactly the records of the class's sessions that satisfy the date condition, in table order |
| AttendanceQueries.AttendanceByClass | backend/services/attendance.service.ts:136-162 | a permutation of those records; a record is listed iff its session is of the class and in the window; between any two positions, date descending and then last name ascending |
| AttendanceStats.CountsPartition | backend/services/attendance.service.ts:119-123 | the four status counts add up to the number of records |
| AttendanceStats.Rate | backend/services/attendance.service.ts:131 | the rate is 0 with no records; otherwise it is the integer nearest 100·present/total, halves rounded up; it lies in [0, 100] and is 100 when every record is present |
| AttendanceStats.RateScale | backend/services/attendance.service.ts:225 | multiplying both counts by the same positive factor leaves the rate unchanged |
| AttendanceStats.StatsOf | backend/services/attendance.service.ts:119-132 | total is the number of records; each counter counts its status; the counters sum to total; the rate lies in [0, 100], is 0 when total is 0, and is otherwise the round-half-up of 100·present/total |
| AttendanceStats.RepeatedStats | backend/services/attendance.service.ts:207-225 | a list repeated k > 0 times has k times every count and the same rate |
| AttendanceStats.CountByKeys | backend/services/attendance.service.ts:115-117 | filtering the listed records keeps as many as filtering their keys by the same test |
| AttendanceStats.StudentRecords | backend/services/attendance.service.ts:115-117 | the student's records are exactly the listed records with that studentId, one per row keyed by that student |
| AttendanceStats.StudentAttendanceStats | backend/services/attendance.service.ts:114-133 | total is the number of rows keyed by the student (with no date window); each counter is the number of those rows with its status; the rate is `Rate` of present over total |
| TeacherDashboard.TeacherSessions | backend/services/attendance.service.ts:167-168 | exactly the teacher's sessions, in table order |
| TeacherDashboard.TeacherRecords | backend/services/attendance.service.ts:174-178 | the included attendances are exactly the student's records whose session the teacher teaches, kept in table order as a subsequence of the listing |
| TeacherDashboard.TeacherRecordsCount | backend/services/attendance.service.ts:174-178 | the included list has one record per row of the student in one of the teacher's sessions |
| TeacherDashboard.SessionsOfClassPositive | backend/services/attendance.service.ts:189-190 | a class is visited at least once iff one of the walked sessions is of that class |
| TeacherDashboard.Summarize | backend/services/attendance.service.ts:206-227 | each output row copies the student's id, names, email and class name, and its total is the length of the merged list |
| TeacherDashboard.TouchedEntry | backend/services/attendance.service.ts:190-201 | visiting a student of the session's class creates the entry or appends the included list once more, matching `MergedAfter` for the longer prefix |
| TeacherDashboard.UntouchedEntry | backend/services/attendance.service.ts:189-203 | an entry of a student outside the session's class is left as it was |
| TeacherDashboard.MergeStudent | backend/services/attendance.service.ts:191-201 | the inner callback sets the student's entry to `MergeStep`: a new entry with class name and list, or the existing entry with the list appended; a new id goes last and ids stay distinct |
| TeacherDashboard.MergeSession | backend/services/attendance.service.ts:189-203 | walking one more session's roster keeps the merge invariant: each entry is `MergedAfter` the walked sessions, and every student of a walked class has an entry |
| TeacherDashboard.MergeAll | backend/services/attendance.service.ts:189-203 | the outer `forEach` over all the teacher's sessions ends with the merge invariant over every one of them |
| TeacherDashboard.SummaryRows | backend/services/attendance.service.ts:206-228 | reading the final map off yields distinct ids, each row the `TeacherRow` of some reached student, and every reached student's row present |
| TeacherDashboard.EntryIsTeacherRow | backend/services/attendance.service.ts:206-228 | every entry of the final map summarizes to the row of a student the walk reached |
| TeacherDashboard.ReachedHasEntry | backend/services/attendance.service.ts:189-228 | every student the walk reached has an entry in the final map, whose summary is that student's row |
| TeacherDashboard.StudentsWithAttendance | backend/services/attendance.service.ts:165-229 | no student id appears twice; every row is the `TeacherRow` of a student of a class the teacher teaches; every such student has a row |
| TeacherDashboard.TeacherRowStats | backend/services/attendance.service.ts:189-201 | a reached student's row uses the class name of the student's class and counts every status k times, k being the number of the teacher's sessions of that class; the list counted once has one record per row of the student in the teacher's sessions; the rate equals that of the list counted once |
| TeacherStudentsPage.StatusBadge | frontend/src/pages/TeacherStudents.tsx:52-57 | Excellent iff rate ≥ 95, Good iff 90 ≤ rate < 95, Attention iff 85 ≤ rate < 90, Alert iff rate < 85, for every integer |
| TeacherStudentsPage.BadgeMonotone | frontend/src/pages/TeacherStudents.tsx:52-57 | a higher rate never yields a worse badge |
| Strings.ContainsAt | frontend/src/pages/TeacherStudents.tsx:48-49 | `includes` holds exactly when the term occurs at some position of the text |
| TeacherStudentsPage.FilteredStudents | frontend/src/pages/TeacherStudents.tsx:47-50 | exactly the students whose lowercased full name or class name contains the lowercased term, as a subsequence of the list |
| TeacherStudentsPage.EmptySearchKeepsAll | frontend/src/pages/TeacherStudents.tsx:47-50 | an empty search term keeps every student, in order |
| TeacherStudentsPage.AvgAttendance | frontend/src/pages/TeacherStudents.tsx:65-67 | 0 for no students; otherwise the integer nearest to the mean rate, halves rounded up |
| TeacherStudentsPage.AvgAttendanceBounds | frontend/src/pages/TeacherStudents.tsx:65-67 | when every rate lies in [0, 100], so does the average |
| TeacherStudentsPage.AlertCount | frontend/src/pages/TeacherStudents.tsx:56-68 | the students with a rate below 85 are exactly those whose badge is Alert, and there are at most as many as students |
| MarkAttendancePage.StatusMap.constructor | frontend/src/pages/MarkAttendance.tsx:39 | a new map has no keys |
| MarkAttendancePage.StatusMap.Copy | frontend/src/pages/MarkAttendance.tsx:52 | `new Map(other)` has the same entries in the same order |
| MarkAttendancePage.StatusMap.Set | frontend/src/pages/MarkAttendance.tsx:52-53 | `set` writes the value; a present key keeps its place and a new key goes last |
| MarkAttendancePage.StatusMap.Values | frontend/src/pages/MarkAttendance.tsx:103-106 | the values, one per key, in key order |
| MarkAttendancePage.MapOf | frontend/src/pages/MarkAttendance.tsx:39-42 | the loaded map has a key exactly for each studentId among the records, and every value is a status token |
| MarkAttendancePage.LastRecordWins | frontend/src/pages/MarkAttendance.tsx:39-42 | a student's value comes from that student's last record, so a later record overwrites an earlier one |
| MarkAttendancePage.LoadAttendanceMap | frontend/src/pages/MarkAttendance.tsx:38-43 | the `forEach` loop builds a fresh map equal to `MapOf` of the records |
| MarkAttendancePage.HandleStatusChange | frontend/src/pages/MarkAttendance.tsx:51-55 | a fresh map equal to the old one with the key set to the new status, and the old map unchanged |
| MarkAttendancePage.Counters | frontend/src/pages/MarkAttendance.tsx:101-107 | total is the roster size, not the map size; each counter counts its token among the values; the counters sum to at most the number of values, with equality when every value is a token |
| MarkAttendancePage.LoadedStatsAddUp | frontend/src/pages/MarkAttendance.tsx:101-107 | right after loading, the four counters add up to the map's size |
| MarkAttendancePage.Payload | frontend/src/pages/MarkAttendance.tsx:62-65 | one entry per map key, holding that key's status; every key appears; no studentId occurs twice |
| MarkAttendancePage.SaveDisabled | frontend/src/pages/MarkAttendance.tsx:137 | the save button is disabled while saving or when the map has no entries |
| MarkAttendancePage.SaveDisabledIffEmptyPayload | frontend/src/pages/MarkAttendance.tsx:137 | when not saving, the button is disabled exactly when the map, and so the payload, is empty |
| AttendanceListPage.VisibleSessions | frontend/src/pages/AttendanceList.tsx:28-30 | an administrator sees all sessions; anyone else sees exactly the sessions whose teacherId is their id, as a subsequence in the original order |
| AttendanceListPage.NoUserSeesNothing | frontend/src/pages/AttendanceList.tsx:28-30 | without a signed-in user no session is shown |
| AttendanceListPage.FilteredSessions | frontend/src/pages/AttendanceList.tsx:52-54 | an empty filter keeps all sessions; otherwise exactly the sessions whose date string starts with the filter, as a subsequence |
| AttendanceListPage.SortedSessions | frontend/src/pages/AttendanceList.tsx:56-58 | a permutation of the filtered sessions, latest first between any two positions |

## Left out

- HTTP, routing and authentication are not modelled. This covers the
  controllers and routers, JWT and bcrypt, and the auth context. The
  controllers parse query dates with `new Date`; here dates are integers
  given as parameters.
- The pass-through CRUD services, seeding and the pure UI pages are not
  modelled, because they hold no rules of the core. Neither are the JSX, the
  colours, the icons or `getInitials`.
- `deleteAttendance` (attendance.service.ts:232-234) is a single
  delete-by-id through Prisma and is not modelled.
- Transactions, isolation and concurrent callers are not modelled. Each
  service call is one atomic step on an in-memory store, and the database's
  unique constraint is represented by the map key.
- The per-session fetch loop of the attendance list page
  (AttendanceList.tsx:35-43) is network I/O and is left out, together with
  the `sessionsWithAttendance` flags it fills.
- The displayed count on that page (AttendanceList.tsx:105) is
  `filteredSessions.length` and has no model of its own.
- `totalStudents` on the teacher page is the list length and has no model
  of its own.
- Floating point is not modelled. `Math.round(x / y * 100)` and
  `Math.round(sum / n)` are computed exactly on rationals, with halves
  rounded up; a float division that lands just below a half is not
  captured.
- `Date` parsing and `getTime` are not modelled. A session's date is an
  integer timestamp, and on the list page the parsed time is a field next to
  the date string.
- `toLowerCase` only maps ASCII letters and does no Unicode case mapping.
- `String(record.studentId)` is the identity, because ids are strings
  throughout the model.
- The page's status values are strings, so the counters also handle values
  that are not tokens.
- Database collation is not modelled: string order is code-unit
  lexicographic order.
- Prisma guarantees no order between rows with equal sort keys. The
  contracts claim only the ordering the query asks for.
- Seqs.SortBy: stability is not stated. `Array.prototype.sort` is stable
  since ECMAScript 2019, but the contracts promise only a sorted
  permutation, which is all the pages rely on.
- `StudentsWithAttendance` claims no order between rows. The code returns
  them in map insertion order.
- Only the fields the core reads are modelled. The included session,
  subject and teacher details of the listings are not modelled beyond the
  session and the student.
- `getStudentAttendanceStats` (attendance.service.ts:114-117) takes no date
  window and counts every row of the student. `StudentAttendanceStats` does
  the same.
- At attendance.service.ts:200, every further session the teacher gives to
  the student's class appends the same teacher-filtered list again. The
  counts are therefore multiplied by k (`TeacherRowStats`).
- An omitted comment in `update` leaves the stored comment in place. This
  follows Prisma's handling of `undefined` and is modelled in `MergeComment`.
- Status validity is left to the database schema's enum, which is not
  modelled. The controllers pass the request body through unchecked
  (attendance.controller.ts:8 and :19), and the mark page sends `status as
  any` (MarkAttendance.tsx:64). The model's `Status` has exactly the four
  tokens, so a request with any other status string cannot be expressed.
  The "counters sum to total" results of `CountsPartition` and `StatsOf`
  rely on that closed type.
- An explicit JSON `null` comment cannot be expressed either. The model
  treats it like an omitted comment, which keeps the stored comment.
  Prisma would store the null and clear the row's comment.
- AttendanceStats.StudentAttendanceStats: the rate is stated as
  `Rate(present, total)`, not as the rounding inequalities themselves.
  `Rate`'s own contract carries those inequalities.
