/**
 * The read paths of the attendance service: the attendance table as
 * `findMany` lists it, joined with sessions and students, and the listings
 * by session, by student and by class with their date windows and orderings.
 */
module AttendanceQueries {
  import opened Wrappers
  import opened Seqs
  import opened Strings
  import opened AttendanceTypes
  import opened AttendanceService

  // ---------------------------------------------------------------- listing the table

  /** The records of the keys `ks`, in that order. */
  function RecordsOf(t: Table, ks: seq<Key>): (r: seq<Record>)
    requires forall k :: k in ks ==> k in t.rows
    ensures |r| == |ks|
    ensures forall i :: 0 <= i < |ks| ==> r[i] == RecordAt(t, ks[i])
  {
    if ks == [] then [] else [RecordAt(t, ks[0])] + RecordsOf(t, ks[1..])
  }

  /** `findMany` without `orderBy`: every attendance row, in insertion order. */
  function TableRecords(t: Table): seq<Record>
    requires t.Valid()
  {
    RecordsOf(t, t.order)
  }

  /** The listing holds every row once, and no two of its records share a (studentId, sessionId). */
  lemma TableRecordsExact(t: Table)
    requires t.Valid()
    ensures forall k :: k in t.rows ==> RecordAt(t, k) in TableRecords(t)
    ensures forall rec :: rec in TableRecords(t) ==> (rec.studentId, rec.sessionId) in t.rows && rec == RecordAt(t, (rec.studentId, rec.sessionId))
    ensures forall i, j :: 0 <= i < j < |TableRecords(t)| ==>
              (TableRecords(t)[i].studentId, TableRecords(t)[i].sessionId) != (TableRecords(t)[j].studentId, TableRecords(t)[j].sessionId)
  {
    var r := TableRecords(t);
    forall k | k in t.rows ensures RecordAt(t, k) in r {
      var i :| 0 <= i < |t.order| && t.order[i] == k;
      assert r[i] == RecordAt(t, k);
    }
    forall i, j | 0 <= i < j < |r| ensures (r[i].studentId, r[i].sessionId) != (r[j].studentId, r[j].sessionId) {
      assert (r[i].studentId, r[i].sessionId) == t.order[i];
      assert (r[j].studentId, r[j].sessionId) == t.order[j];
    }
  }

  /** A record joined with its session and its student (`include`). */
  datatype Joined = Joined(record: Record, session: Session, student: Student)

  /** Joins each record with its session and student; a record missing either is dropped. */
  function JoinRecords(db: Db, recs: seq<Record>): (r: seq<Joined>)
    ensures |r| <= |recs|
    ensures forall j :: j in r ==>
              && j.record in recs
              && j.session in db.sessions && j.session.id == j.record.sessionId
              && j.student in db.students && j.student.id == j.record.studentId
  {
    if recs == [] then []
    else
      var rest := JoinRecords(db, recs[1..]);
      assert recs == [recs[0]] + recs[1..];
      match (FindSession(db.sessions, recs[0].sessionId), FindStudent(db.students, recs[0].studentId))
      case (Some(s), Some(st)) => [Joined(recs[0], s, st)] + rest
      case _ => rest
  }

  /** Every attendance row with its session and student, in insertion order. */
  function Listing(db: Db): seq<Joined>
    requires db.table.Valid()
  {
    JoinRecords(db, TableRecords(db.table))
  }

  lemma {:induction false} JoinComplete(db: Db, recs: seq<Record>)
    requires forall rec :: rec in recs ==> FindSession(db.sessions, rec.sessionId).Some? && FindStudent(db.students, rec.studentId).Some?
    ensures |JoinRecords(db, recs)| == |recs|
    ensures forall i :: 0 <= i < |recs| ==> JoinRecords(db, recs)[i].record == recs[i]
  {
    if recs != [] {
      assert recs[0] in recs;
      var tail := recs[1..];
      assert forall rec :: rec in tail ==> rec in recs;
      JoinComplete(db, tail);
      var s := FindSession(db.sessions, recs[0].sessionId).value;
      var st := FindStudent(db.students, recs[0].studentId).value;
      var rest := JoinRecords(db, tail);
      var r := JoinRecords(db, recs);
      assert r == [Joined(recs[0], s, st)] + rest;
      forall i | 0 < i < |recs| ensures r[i].record == recs[i] {
        ConsIndex(Joined(recs[0], s, st), rest, i);
        assert recs[i] == tail[i - 1];
      }
    }
  }

  /** Under referential integrity the join drops nothing: the listing has one entry per row. */
  lemma ListingComplete(db: Db)
    requires DbValid(db)
    ensures |Listing(db)| == |db.table.order|
    ensures forall i :: 0 <= i < |Listing(db)| ==> Listing(db)[i].record == RecordAt(db.table, db.table.order[i])
  {
    var recs := TableRecords(db.table);
    forall rec | rec in recs ensures FindSession(db.sessions, rec.sessionId).Some? && FindStudent(db.students, rec.studentId).Some? {
      var i :| 0 <= i < |recs| && recs[i] == rec;
      assert (rec.studentId, rec.sessionId) == db.table.order[i];
    }
    JoinComplete(db, recs);
  }

  // ---------------------------------------------------------------- date windows

  /** Prisma's `date: { gte?, lte? }` condition; `{}` when both bounds are missing. */
  datatype DateCondition = DateCondition(gte: Option<int>, lte: Option<int>)

  predicate Satisfies(c: DateCondition, date: int) {
    (c.gte.None? || c.gte.value <= date) && (c.lte.None? || date <= c.lte.value)
  }

  /** getAttendanceByStudent adds a session date condition only when a bound is given. */
  function StudentDateCondition(start: Option<int>, end: Option<int>): Option<DateCondition> {
    if start.Some? || end.Some? then Some(DateCondition(start, end)) else None
  }

  predicate StudentDateMatches(start: Option<int>, end: Option<int>, date: int) {
    match StudentDateCondition(start, end)
    case None => true
    case Some(c) => Satisfies(c, date)
  }

  /**
   * Both ways the service builds its date filter keep a date iff it lies in
   * the inclusive window; a missing bound imposes no constraint.
   */
  lemma DateFiltersAgree(start: Option<int>, end: Option<int>, date: int)
    ensures StudentDateMatches(start, end, date) == Satisfies(DateCondition(start, end), date)
    ensures Satisfies(DateCondition(start, end), date) <==> (start.None? || start.value <= date) && (end.None? || date <= end.value)
  {
  }

  // ---------------------------------------------------------------- orderings

  /** `orderBy: { student: { lastName: 'asc' } }`. */
  predicate LastNameAsc(a: Joined, b: Joined) {
    LexLeq(a.student.lastName, b.student.lastName)
  }

  /** `orderBy: { session: { date: 'desc' } }`. */
  predicate DateDesc(a: Joined, b: Joined) {
    a.session.date >= b.session.date
  }

  /** `orderBy: [{ session: { date: 'desc' } }, { student: { lastName: 'asc' } }]`. */
  predicate DateDescThenLastName(a: Joined, b: Joined) {
    a.session.date > b.session.date || (a.session.date == b.session.date && LexLeq(a.student.lastName, b.student.lastName))
  }

  lemma LastNameAscIsOrder()
    ensures Total(LastNameAsc) && Transitive(LastNameAsc)
  {
    forall a: Joined, b: Joined ensures LastNameAsc(a, b) || LastNameAsc(b, a) {
      LexLeqTotal(a.student.lastName, b.student.lastName);
    }
    forall a: Joined, b: Joined, c: Joined | LastNameAsc(a, b) && LastNameAsc(b, c) ensures LastNameAsc(a, c) {
      LexLeqTransitive(a.student.lastName, b.student.lastName, c.student.lastName);
    }
  }

  lemma DateDescThenLastNameIsOrder()
    ensures Total(DateDescThenLastName) && Transitive(DateDescThenLastName)
  {
    forall a: Joined, b: Joined ensures DateDescThenLastName(a, b) || DateDescThenLastName(b, a) {
      LexLeqTotal(a.student.lastName, b.student.lastName);
    }
    forall a: Joined, b: Joined, c: Joined | DateDescThenLastName(a, b) && DateDescThenLastName(b, c)
      ensures DateDescThenLastName(a, c)
    {
      if a.session.date == b.session.date == c.session.date {
        LexLeqTransitive(a.student.lastName, b.student.lastName, c.student.lastName);
      }
    }
  }

  // ---------------------------------------------------------------- listings

  /** The `where` of getAttendanceBySession. */
  function SessionRows(db: Db, sessionId: Id): (r: seq<Joined>)
    requires db.table.Valid()
    ensures forall j :: j in r <==> j in Listing(db) && j.record.sessionId == sessionId
    ensures IsSubsequence(r, Listing(db))
  {
    Filter(Listing(db), (j: Joined) => j.record.sessionId == sessionId)
  }

  /** getAttendanceBySession: the session's records, by student last name ascending. */
  function AttendanceBySession(db: Db, sessionId: Id): (r: seq<Joined>)
    requires db.table.Valid()
    ensures multiset(r) == multiset(SessionRows(db, sessionId))
    ensures forall i, k :: 0 <= i < k < |r| ==> LexLeq(r[i].student.lastName, r[k].student.lastName)
  {
    LastNameAscIsOrder();
    var r := SortBy(SessionRows(db, sessionId), LastNameAsc);
    SortedPairwise(r, LastNameAsc);
    r
  }

  /** The `where` of getAttendanceByStudent. */
  function StudentRows(db: Db, studentId: Id, start: Option<int>, end: Option<int>): (r: seq<Joined>)
    requires db.table.Valid()
    ensures forall j :: j in r <==>
              && j in Listing(db) && j.record.studentId == studentId
              && StudentDateMatches(start, end, j.session.date)
    ensures IsSubsequence(r, Listing(db))
  {
    Filter(Listing(db), (j: Joined) => j.record.studentId == studentId && StudentDateMatches(start, end, j.session.date))
  }

  /**
   * getAttendanceByStudent: the student's records whose session date lies
   * in the window, latest session first.
   */
  function AttendanceByStudent(db: Db, studentId: Id, start: Option<int>, end: Option<int>): (r: seq<Joined>)
    requires db.table.Valid()
    ensures multiset(r) == multiset(StudentRows(db, studentId, start, end))
    ensures forall j :: j in r <==>
              && j in Listing(db) && j.record.studentId == studentId
              && (start.None? || start.value <= j.session.date)
              && (end.None? || j.session.date <= end.value)
    ensures forall i, k :: 0 <= i < k < |r| ==> r[i].session.date >= r[k].session.date
  {
    var rows := StudentRows(db, studentId, start, end);
    var r := SortBy(rows, DateDesc);
    SortedPairwise(r, DateDesc);
    SameMembers(r, rows);
    forall j: Joined ensures StudentDateMatches(start, end, j.session.date)
                           == ((start.None? || start.value <= j.session.date) && (end.None? || j.session.date <= end.value)) {
      DateFiltersAgree(start, end, j.session.date);
    }
    r
  }

  /** The `where` of getAttendanceByClass. */
  function ClassRows(db: Db, classId: Id, start: Option<int>, end: Option<int>): (r: seq<Joined>)
    requires db.table.Valid()
    ensures forall j :: j in r <==>
              && j in Listing(db) && j.session.classId == classId
              && Satisfies(DateCondition(start, end), j.session.date)
    ensures IsSubsequence(r, Listing(db))
  {
    Filter(Listing(db), (j: Joined) => j.session.classId == classId && Satisfies(DateCondition(start, end), j.session.date))
  }

  /**
   * getAttendanceByClass: the records of the class's sessions in the window,
   * latest session first and, within a session date, by last name ascending.
   */
  function AttendanceByClass(db: Db, classId: Id, start: Option<int>, end: Option<int>): (r: seq<Joined>)
    requires db.table.Valid()
    ensures multiset(r) == multiset(ClassRows(db, classId, start, end))
    ensures forall j :: j in r <==>
              && j in Listing(db) && j.session.classId == classId
              && (start.None? || start.value <= j.session.date)
              && (end.None? || j.session.date <= end.value)
    ensures forall i, k :: 0 <= i < k < |r| ==>
              r[i].session.date > r[k].session.date
              || (r[i].session.date == r[k].session.date && LexLeq(r[i].student.lastName, r[k].student.lastName))
  {
    DateDescThenLastNameIsOrder();
    var rows := ClassRows(db, classId, start, end);
    var r := SortBy(rows, DateDescThenLastName);
    SortedPairwise(r, DateDescThenLastName);
    SameMembers(r, rows);
    r
  }
}
