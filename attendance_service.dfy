/**
 * The write paths of the attendance service: marking one student or a whole
 * batch in a session (session lookup, roster check, then create-or-update
 * on the (studentId, sessionId) unique key), and the store that applies
 * them in place.
 *
 * The database is a value `Db`; the attendance table keeps its rows in a
 * map keyed by (studentId, sessionId) and lists them in insertion order.
 */
module AttendanceService {
  import opened Wrappers
  import opened Seqs
  import opened AttendanceTypes

  // ---------------------------------------------------------------- data model

  /** A scheduled meeting of one class; `date` is its timestamp. */
  datatype Session = Session(id: Id, date: int, classId: Id, subjectId: Id, teacherId: Id)

  datatype Student = Student(id: Id, firstName: string, lastName: string, email: Option<string>, classId: Id)

  /** The unique key of an attendance row: (studentId, sessionId). */
  type Key = (Id, Id)

  /** What an attendance row stores besides its key; a missing comment is null. */
  datatype Mark = Mark(status: Status, comment: Option<string>)

  /** An attendance row as the service returns it. */
  datatype Record = Record(studentId: Id, sessionId: Id, status: Status, comment: Option<string>)

  /** The attendance table: one row per key, listed in insertion order. */
  datatype Table = Table(rows: map<Key, Mark>, order: seq<Key>) {
    ghost predicate Valid() {
      Distinct(order) && forall k :: k in rows <==> k in order
    }
  }

  /** The part of the database the service reads: sessions, students, class names, attendance. */
  datatype Db = Db(sessions: seq<Session>, students: seq<Student>, classNames: map<Id, string>, table: Table)

  ghost predicate UniqueSessionIds(sessions: seq<Session>) {
    forall i, j :: 0 <= i < j < |sessions| ==> sessions[i].id != sessions[j].id
  }

  ghost predicate UniqueStudentIds(students: seq<Student>) {
    forall i, j :: 0 <= i < j < |students| ==> students[i].id != students[j].id
  }

  /** `findUnique` on the sessions table. */
  function FindSession(sessions: seq<Session>, id: Id): (r: Option<Session>)
    ensures r.Some? ==> r.value in sessions && r.value.id == id
    ensures r.None? <==> forall s :: s in sessions ==> s.id != id
  {
    if sessions == [] then None
    else if sessions[0].id == id then Some(sessions[0])
    else FindSession(sessions[1..], id)
  }

  /** `students.find(s => s.id === id)`: the first student with that id. */
  function FindStudent(students: seq<Student>, id: Id): (r: Option<Student>)
    ensures r.Some? ==> r.value in students && r.value.id == id
    ensures r.None? <==> forall st :: st in students ==> st.id != id
  {
    if students == [] then None
    else if students[0].id == id then Some(students[0])
    else FindStudent(students[1..], id)
  }

  /**
   * What the database guarantees: the attendance table is well formed, ids
   * are primary keys, every class referenced exists, and every attendance row
   * references an existing student and session.
   */
  ghost predicate DbValid(db: Db) {
    && db.table.Valid()
    && UniqueSessionIds(db.sessions)
    && UniqueStudentIds(db.students)
    && (forall s :: s in db.sessions ==> s.classId in db.classNames)
    && (forall st :: st in db.students ==> st.classId in db.classNames)
    && (forall k :: k in db.table.rows ==> FindStudent(db.students, k.0).Some? && FindSession(db.sessions, k.1).Some?)
  }

  /** With primary-key ids, a student is determined by its id. */
  lemma SameIdSameStudent(students: seq<Student>, a: Student, b: Student)
    requires UniqueStudentIds(students)
    requires a in students && b in students && a.id == b.id
    ensures a == b
  {
    var i :| 0 <= i < |students| && students[i] == a;
    var j :| 0 <= j < |students| && students[j] == b;
    assert i == j;
  }

  // ---------------------------------------------------------------- errors

  datatype Error =
    | SessionNotFound
    | NotInSessionClass        // raised by the single mark
    | NotInClass(studentId: Id) // raised by the bulk mark, naming the student

  /** The message each error is thrown with. */
  function Message(e: Error): string {
    match e
    case SessionNotFound => "Session not found"
    case NotInSessionClass => "Student does not belong to this session's class"
    case NotInClass(id) => "Student " + id + " not in class"
  }

  /** The thrown message tells the three errors, and the students of the bulk error, apart. */
  lemma MessageIdentifiesError(e1: Error, e2: Error)
    ensures e1 != e2 ==> Message(e1) != Message(e2)
  {
    var m1, m2 := Message(e1), Message(e2);
    if e1.NotInClass? && e2.NotInClass? && e1 != e2 {
      var id1, id2 := e1.studentId, e2.studentId;
      if |id1| == |id2| {
        var k :| 0 <= k < |id1| && id1[k] != id2[k];
        assert m1[8 + k] == id1[k] && m2[8 + k] == id2[k];
      } else {
        assert |m1| != |m2|;
      }
    } else if e1.NotInClass? != e2.NotInClass? {
      assert m1[|m1| - 8] != m2[|m2| - 8];
    }
  }

  // ---------------------------------------------------------------- roster

  /** `session.class.students`: the students whose class is `classId`, in table order. */
  function Roster(students: seq<Student>, classId: Id): (r: seq<Student>)
    ensures forall st :: st in r <==> st in students && st.classId == classId
    ensures IsSubsequence(r, students)
    ensures multiset(r) <= multiset(students)
  {
    Filter(students, (st: Student) => st.classId == classId)
  }

  /** `students.map(s => s.id)`. */
  function RosterIds(roster: seq<Student>): (r: seq<Id>)
    ensures |r| == |roster|
    ensures forall i :: 0 <= i < |r| ==> r[i] == roster[i].id
  {
    seq(|roster|, i requires 0 <= i < |roster| => roster[i].id)
  }

  /**
   * The single mark checks membership with `find` and the bulk mark with
   * `includes` on the ids; both accept exactly the students of the class.
   */
  lemma RosterChecksAgree(students: seq<Student>, classId: Id, id: Id)
    ensures FindStudent(Roster(students, classId), id).Some? <==> id in RosterIds(Roster(students, classId))
    ensures id in RosterIds(Roster(students, classId)) <==> exists st :: st in students && st.id == id && st.classId == classId
  {
    var roster := Roster(students, classId);
    var ids := RosterIds(roster);
    if id in ids {
      var i :| 0 <= i < |ids| && ids[i] == id;
      assert roster[i] in roster;
    }
    if st :| st in students && st.id == id && st.classId == classId {
      assert st in roster;
      var i :| 0 <= i < |roster| && roster[i] == st;
      assert ids[i] == id;
    }
  }

  /** With primary-key student ids, no id occurs twice in a roster. */
  lemma RosterIdsDistinct(students: seq<Student>, classId: Id)
    requires UniqueStudentIds(students)
    ensures Distinct(RosterIds(Roster(students, classId)))
  {
    var roster := Roster(students, classId);
    assert Distinct(students) by {
      forall i, j | 0 <= i < j < |students| ensures students[i] != students[j] {
        assert students[i].id != students[j].id;
      }
    }
    DistinctByMultiset(roster, students);
    forall i, j | 0 <= i < j < |roster| ensures roster[i].id != roster[j].id {
      if roster[i].id == roster[j].id {
        assert roster[i] in roster && roster[j] in roster;
        SameIdSameStudent(students, roster[i], roster[j]);
      }
    }
  }

  // ---------------------------------------------------------------- upsert

  /**
   * Prisma leaves a field that is `undefined` in `update` untouched: an
   * omitted comment keeps the stored one; on `create` it is stored as null.
   */
  function MergeComment(given: Option<string>, stored: Option<string>): Option<string> {
    if given.Some? then given else stored
  }

  /**
   * `attendance.upsert` on the (studentId, sessionId) key: the row for `k`
   * is created or overwritten, every other row is left alone, and the key
   * is listed exactly once.
   */
  function Upsert(t: Table, k: Key, status: Status, comment: Option<string>): (r: Table)
    requires t.Valid()
    ensures r.Valid()
    ensures r.rows.Keys == t.rows.Keys + {k}
    ensures r.rows[k].status == status
    ensures r.rows[k].comment == MergeComment(comment, if k in t.rows then t.rows[k].comment else None)
    ensures forall j :: j in t.rows && j != k ==> r.rows[j] == t.rows[j]
    ensures multiset(r.order)[k] == 1
    ensures r.order == if k in t.rows then t.order else t.order + [k]
  {
    var stored := if k in t.rows then t.rows[k].comment else None;
    var order := if k in t.rows then t.order else t.order + [k];
    var r := Table(t.rows[k := Mark(status, MergeComment(comment, stored))], order);
    assert r.Valid();
    DistinctOccursOnce(r.order, k);
    r
  }

  /** The row stored under `k`, as a record. */
  function RecordAt(t: Table, k: Key): Record
    requires k in t.rows
  {
    Record(k.0, k.1, t.rows[k].status, t.rows[k].comment)
  }

  /** Upserting the same values twice is the same as upserting them once. */
  lemma UpsertIdempotent(t: Table, k: Key, status: Status, comment: Option<string>)
    requires t.Valid()
    ensures Upsert(Upsert(t, k, status, comment), k, status, comment) == Upsert(t, k, status, comment)
  {
    var t1 := Upsert(t, k, status, comment);
    var t2 := Upsert(t1, k, status, comment);
    assert t2.rows == t1.rows;
  }

  /** An upsert keeps the database's referential integrity when the student and session exist. */
  lemma UpsertKeepsDbValid(db: Db, k: Key, status: Status, comment: Option<string>)
    requires DbValid(db)
    requires FindStudent(db.students, k.0).Some? && FindSession(db.sessions, k.1).Some?
    ensures DbValid(db.(table := Upsert(db.table, k, status, comment)))
  {
  }

  // ---------------------------------------------------------------- markAttendance

  /** The result of a marking call together with the attendance table it leaves. */
  datatype Outcome<T> = Outcome(result: Result<T, Error>, table: Table)

  /** markAttendance: find the session, check the roster, upsert the row. */
  function MarkOutcome(db: Db, dto: CreateAttendanceDto): (o: Outcome<Record>)
    requires db.table.Valid()
    ensures o.table.Valid()
    ensures o.result.Err? ==> o.table == db.table
    ensures o.result.Ok? ==> && o.result.value.studentId == dto.studentId
                             && o.result.value.sessionId == dto.sessionId
                             && o.result.value.status == dto.status
  {
    match FindSession(db.sessions, dto.sessionId)
    case None => Outcome(Err(SessionNotFound), db.table)
    case Some(session) =>
      if FindStudent(Roster(db.students, session.classId), dto.studentId).None? then
        Outcome(Err(NotInSessionClass), db.table)
      else
        var key := (dto.studentId, dto.sessionId);
        var t := Upsert(db.table, key, dto.status, dto.comment);
        Outcome(Ok(RecordAt(t, key)), t)
  }

  /** Marking against an unknown session fails and writes nothing. */
  lemma MarkUnknownSession(db: Db, dto: CreateAttendanceDto)
    requires db.table.Valid()
    requires forall s :: s in db.sessions ==> s.id != dto.sessionId
    ensures MarkOutcome(db, dto) == Outcome(Err(SessionNotFound), db.table)
  {
  }

  /** Marking a student outside the session's class fails and writes nothing. */
  lemma MarkOutsideRoster(db: Db, dto: CreateAttendanceDto, session: Session)
    requires db.table.Valid()
    requires session in db.sessions && session.id == dto.sessionId && UniqueSessionIds(db.sessions)
    requires forall st :: st in db.students && st.id == dto.studentId ==> st.classId != session.classId
    ensures MarkOutcome(db, dto) == Outcome(Err(NotInSessionClass), db.table)
  {
    var found := FindSession(db.sessions, dto.sessionId).value;
    assert found == session by {
      var i :| 0 <= i < |db.sessions| && db.sessions[i] == session;
      var j :| 0 <= j < |db.sessions| && db.sessions[j] == found;
      assert i == j;
    }
  }

  /**
   * A successful mark leaves exactly one row for (studentId, sessionId),
   * holding the given status (and the given comment, when one is given),
   * returns that row, and changes no other row.
   */
  lemma MarkUpserts(db: Db, dto: CreateAttendanceDto, st: Student)
    requires DbValid(db)
    requires st in db.students && st.id == dto.studentId
    requires exists s :: s in db.sessions && s.id == dto.sessionId && s.classId == st.classId
    ensures var o := MarkOutcome(db, dto); var key := (dto.studentId, dto.sessionId);
      && key in o.table.rows
      && multiset(o.table.order)[key] == 1
      && o.table.rows[key].status == dto.status
      && (dto.comment.Some? ==> o.table.rows[key].comment == dto.comment)
      && o.result == Ok(RecordAt(o.table, key))
      && o.table.rows.Keys == db.table.rows.Keys + {key}
      && (forall k :: k in db.table.rows && k != key ==> o.table.rows[k] == db.table.rows[k])
  {
    var s :| s in db.sessions && s.id == dto.sessionId && s.classId == st.classId;
    var found := FindSession(db.sessions, dto.sessionId).value;
    assert found == s by {
      var i :| 0 <= i < |db.sessions| && db.sessions[i] == s;
      var j :| 0 <= j < |db.sessions| && db.sessions[j] == found;
      assert i == j;
    }
    assert st in Roster(db.students, s.classId);
  }

  /** Repeating a mark changes neither the table nor the answer. */
  lemma MarkIdempotent(db: Db, dto: CreateAttendanceDto)
    requires db.table.Valid()
    ensures var o := MarkOutcome(db, dto);
      MarkOutcome(db.(table := o.table), dto) == o
  {
    var o := MarkOutcome(db, dto);
    if o.result.Ok? {
      UpsertIdempotent(db.table, (dto.studentId, dto.sessionId), dto.status, dto.comment);
    }
  }

  /** A mark keeps the database's guarantees. */
  lemma MarkKeepsDbValid(db: Db, dto: CreateAttendanceDto)
    requires DbValid(db)
    ensures DbValid(db.(table := MarkOutcome(db, dto).table))
  {
    match FindSession(db.sessions, dto.sessionId)
    case None =>
    case Some(session) =>
      var found := FindStudent(Roster(db.students, session.classId), dto.studentId);
      if found.Some? {
        UpsertKeepsDbValid(db, (dto.studentId, dto.sessionId), dto.status, dto.comment);
      }
  }

  // ---------------------------------------------------------------- markBulkAttendance

  /** One entry of a bulk request; its own sessionId, if any, is not used. */
  datatype BulkEntry = BulkEntry(studentId: Id, status: Status, comment: Option<string>)

  /**
   * The student of the first entry outside the class: `attendances.map`
   * throws there, before the transaction has run any upsert.
   */
  function FirstOutsider(entries: seq<BulkEntry>, ids: seq<Id>): (r: Option<Id>)
    ensures r.None? <==> forall e :: e in entries ==> e.studentId in ids
    ensures r.Some? ==> exists i :: 0 <= i < |entries| && entries[i].studentId == r.value && r.value !in ids
                                    && forall j :: 0 <= j < i ==> entries[j].studentId in ids
  {
    if entries == [] then None
    else if entries[0].studentId !in ids then Some(entries[0].studentId)
    else
      var r := FirstOutsider(entries[1..], ids);
      assert entries == [entries[0]] + entries[1..];
      if r.Some? then
        var i :| 0 <= i < |entries[1..]| && entries[1..][i].studentId == r.value && r.value !in ids
                 && forall j :: 0 <= j < i ==> entries[1..][j].studentId in ids;
        assert entries[i + 1].studentId == r.value;
        assert forall j :: 0 <= j < i + 1 ==> entries[j].studentId in ids by {
          forall j | 0 <= j < i + 1 ensures entries[j].studentId in ids {
            if j > 0 { assert entries[j] == entries[1..][j - 1]; }
          }
        }
        r
      else r
  }

  /** The transaction: the entries' upserts run one after the other, in input order. */
  function UpsertAll(t: Table, sessionId: Id, entries: seq<BulkEntry>): (r: Table)
    requires t.Valid()
    ensures r.Valid()
    decreases |entries|
  {
    if entries == [] then t
    else
      var e := entries[|entries| - 1];
      Upsert(UpsertAll(t, sessionId, entries[..|entries| - 1]), (e.studentId, sessionId), e.status, e.comment)
  }

  /** What the transaction returns: for each entry, the row its upsert produced. */
  function BulkRecords(t: Table, sessionId: Id, entries: seq<BulkEntry>): seq<Record>
    requires t.Valid()
    decreases |entries|
  {
    if entries == [] then []
    else
      var e := entries[|entries| - 1];
      BulkRecords(t, sessionId, entries[..|entries| - 1]) + [RecordAt(UpsertAll(t, sessionId, entries), (e.studentId, sessionId))]
  }

  /** markBulkAttendance: find the session, check every entry, then run all upserts. */
  function BulkOutcome(db: Db, sessionId: Id, entries: seq<BulkEntry>): (o: Outcome<seq<Record>>)
    requires db.table.Valid()
    ensures o.table.Valid()
    ensures o.result.Err? ==> o.table == db.table
    ensures o.result.Ok? ==> |o.result.value| == |entries|
  {
    match FindSession(db.sessions, sessionId)
    case None => Outcome(Err(SessionNotFound), db.table)
    case Some(session) =>
      match FirstOutsider(entries, RosterIds(Roster(db.students, session.classId)))
      case Some(id) => Outcome(Err(NotInClass(id)), db.table)
      case None =>
        BulkRecordsPerEntry(db.table, sessionId, entries);
        Outcome(Ok(BulkRecords(db.table, sessionId, entries)), UpsertAll(db.table, sessionId, entries))
  }

  /** A batch with any entry outside the session's class fails on the first one and writes nothing. */
  lemma BulkAllOrNothing(db: Db, sessionId: Id, entries: seq<BulkEntry>, session: Session, bad: BulkEntry)
    requires db.table.Valid()
    requires session in db.sessions && session.id == sessionId && UniqueSessionIds(db.sessions)
    requires bad in entries
    requires forall st :: st in db.students && st.id == bad.studentId ==> st.classId != session.classId
    ensures var o := BulkOutcome(db, sessionId, entries);
      o.table == db.table && o.result.Err? && o.result.error.NotInClass?
      && exists i :: 0 <= i < |entries| && entries[i].studentId == o.result.error.studentId
           && (forall st :: st in db.students && st.id == entries[i].studentId ==> st.classId != session.classId)
           && forall j :: 0 <= j < i ==> exists st :: st in db.students && st.id == entries[j].studentId && st.classId == session.classId
  {
    var found := FindSession(db.sessions, sessionId).value;
    assert found == session by {
      var i :| 0 <= i < |db.sessions| && db.sessions[i] == session;
      var j :| 0 <= j < |db.sessions| && db.sessions[j] == found;
      assert i == j;
    }
    var ids := RosterIds(Roster(db.students, session.classId));
    RosterChecksAgree(db.students, session.classId, bad.studentId);
    var r := FirstOutsider(entries, ids);
    assert r.Some?;
    RosterChecksAgree(db.students, session.classId, r.value);
    forall id | id in ids ensures exists st :: st in db.students && st.id == id && st.classId == session.classId {
      RosterChecksAgree(db.students, session.classId, id);
    }
  }

  /** `rec` is the row an upsert of entry `e` in session `sessionId` returns. */
  predicate ReturnedFor(rec: Record, e: BulkEntry, sessionId: Id) {
    && rec.studentId == e.studentId
    && rec.sessionId == sessionId
    && rec.status == e.status
    && (e.comment.Some? ==> rec.comment == e.comment)
  }

  /** The upserts of a batch return one record per entry, in input order, with that entry's values. */
  lemma {:induction false} BulkRecordsPerEntry(t: Table, sessionId: Id, entries: seq<BulkEntry>)
    requires t.Valid()
    ensures |BulkRecords(t, sessionId, entries)| == |entries|
    ensures forall i :: 0 <= i < |entries| ==> ReturnedFor(BulkRecords(t, sessionId, entries)[i], entries[i], sessionId)
    decreases |entries|
  {
    if entries != [] {
      var n := |entries| - 1;
      var init := entries[..n];
      BulkRecordsPerEntry(t, sessionId, init);
      var before := BulkRecords(t, sessionId, init);
      var last := RecordAt(UpsertAll(t, sessionId, entries), (entries[n].studentId, sessionId));
      assert BulkRecords(t, sessionId, entries) == before + [last];
      assert ReturnedFor(last, entries[n], sessionId);
      forall i | 0 <= i < |entries| ensures ReturnedFor((before + [last])[i], entries[i], sessionId) {
        if i < n {
          assert (before + [last])[i] == before[i];
          assert entries[i] == init[i];
        }
      }
    }
  }

  /**
   * After the batch, the row of every entry's student holds the values of
   * the LAST entry for that student: later duplicates win.
   */
  lemma {:induction false} UpsertAllLastWins(t: Table, sessionId: Id, entries: seq<BulkEntry>, i: int)
    requires t.Valid()
    requires 0 <= i < |entries|
    requires forall j :: i < j < |entries| ==> entries[j].studentId != entries[i].studentId
    ensures var r := UpsertAll(t, sessionId, entries); var key := (entries[i].studentId, sessionId);
      && key in r.rows
      && r.rows[key].status == entries[i].status
      && (entries[i].comment.Some? ==> r.rows[key].comment == entries[i].comment)
    decreases |entries|
  {
    if i < |entries| - 1 {
      var init := entries[..|entries| - 1];
      UpsertAllLastWins(t, sessionId, init, i);
    }
  }

  /**
   * An entry without a comment, for a student no other entry names, leaves
   * that student's comment as it was before the batch (none for a new row).
   */
  lemma {:induction false} OmittedCommentKept(t: Table, sessionId: Id, entries: seq<BulkEntry>, i: int)
    requires t.Valid()
    requires 0 <= i < |entries| && entries[i].comment.None?
    requires forall j :: 0 <= j < |entries| && j != i ==> entries[j].studentId != entries[i].studentId
    ensures var r := UpsertAll(t, sessionId, entries); var key := (entries[i].studentId, sessionId);
      && key in r.rows
      && r.rows[key].comment == (if key in t.rows then t.rows[key].comment else None)
    decreases |entries|
  {
    var n := |entries| - 1;
    if i == n {
      OmittedCommentLast(t, sessionId, entries);
    } else {
      var init := entries[..n];
      assert init[i] == entries[i];
      OmittedCommentKept(t, sessionId, init, i);
      LaterKeyKept(t, sessionId, entries, (entries[i].studentId, sessionId));
    }
  }

  /** The case of `OmittedCommentKept` where the entry is the last one. */
  lemma OmittedCommentLast(t: Table, sessionId: Id, entries: seq<BulkEntry>)
    requires t.Valid()
    requires entries != [] && entries[|entries| - 1].comment.None?
    requires forall j :: 0 <= j < |entries| - 1 ==> entries[j].studentId != entries[|entries| - 1].studentId
    ensures var r := UpsertAll(t, sessionId, entries); var key := (entries[|entries| - 1].studentId, sessionId);
      && key in r.rows
      && r.rows[key].comment == (if key in t.rows then t.rows[key].comment else None)
  {
    var init := entries[..|entries| - 1];
    var key := (entries[|entries| - 1].studentId, sessionId);
    assert key !in EntryKeys(sessionId, init) by {
      forall e | e in init ensures e.studentId != key.0 {
        var j :| 0 <= j < |init| && init[j] == e;
        assert entries[j] == e;
      }
    }
    UnwrittenKey(t, sessionId, init, key);
  }

  /** A key no entry names is in the table after the batch iff it was before, with the same row. */
  lemma UnwrittenKey(t: Table, sessionId: Id, entries: seq<BulkEntry>, key: Key)
    requires t.Valid()
    requires key !in EntryKeys(sessionId, entries)
    ensures key in UpsertAll(t, sessionId, entries).rows <==> key in t.rows
    ensures key in t.rows ==> UpsertAll(t, sessionId, entries).rows[key] == t.rows[key]
  {
    UpsertAllKeys(t, sessionId, entries);
    if key in t.rows {
      UpsertAllFrame(t, sessionId, entries, key);
    }
  }

  /** The last upsert of a batch leaves the rows of other keys as the earlier upserts left them. */
  lemma LaterKeyKept(t: Table, sessionId: Id, entries: seq<BulkEntry>, key: Key)
    requires t.Valid() && entries != []
    requires key in UpsertAll(t, sessionId, entries[..|entries| - 1]).rows
    requires key != (entries[|entries| - 1].studentId, sessionId)
    ensures key in UpsertAll(t, sessionId, entries).rows
    ensures UpsertAll(t, sessionId, entries).rows[key] == UpsertAll(t, sessionId, entries[..|entries| - 1]).rows[key]
  {
  }

  /** The keys a batch writes. */
  function EntryKeys(sessionId: Id, entries: seq<BulkEntry>): (r: set<Key>)
    ensures forall k :: k in r <==> k.1 == sessionId && exists e :: e in entries && e.studentId == k.0
    decreases |entries|
  {
    if entries == [] then {}
    else
      var e := entries[|entries| - 1];
      assert entries == entries[..|entries| - 1] + [e];
      EntryKeys(sessionId, entries[..|entries| - 1]) + {(e.studentId, sessionId)}
  }

  /** The batch adds exactly the keys of its entries. */
  lemma {:induction false} UpsertAllKeys(t: Table, sessionId: Id, entries: seq<BulkEntry>)
    requires t.Valid()
    ensures UpsertAll(t, sessionId, entries).rows.Keys == t.rows.Keys + EntryKeys(sessionId, entries)
    decreases |entries|
  {
    if entries != [] {
      var init := entries[..|entries| - 1];
      var e := entries[|entries| - 1];
      UpsertAllKeys(t, sessionId, init);
    }
  }

  /** The batch leaves every row whose key no entry names as it was. */
  lemma {:induction false} UpsertAllFrame(t: Table, sessionId: Id, entries: seq<BulkEntry>, k: Key)
    requires t.Valid()
    requires k in t.rows && k !in EntryKeys(sessionId, entries)
    ensures var r := UpsertAll(t, sessionId, entries); k in r.rows && r.rows[k] == t.rows[k]
    decreases |entries|
  {
    if entries != [] {
      var init := entries[..|entries| - 1];
      var e := entries[|entries| - 1];
      UpsertAllFrame(t, sessionId, init, k);
    }
  }

  /** A batch whose entries all name existing students keeps the database's guarantees. */
  lemma {:induction false} UpsertAllKeepsDbValid(db: Db, sessionId: Id, entries: seq<BulkEntry>)
    requires DbValid(db)
    requires FindSession(db.sessions, sessionId).Some?
    requires forall e :: e in entries ==> FindStudent(db.students, e.studentId).Some?
    ensures DbValid(db.(table := UpsertAll(db.table, sessionId, entries)))
    decreases |entries|
  {
    if entries != [] {
      var init := entries[..|entries| - 1];
      var e := entries[|entries| - 1];
      UpsertAllKeepsDbValid(db, sessionId, init);
      UpsertKeepsDbValid(db.(table := UpsertAll(db.table, sessionId, init)), (e.studentId, sessionId), e.status, e.comment);
    }
  }

  /** A batch that passes the roster check keeps the database's guarantees. */
  lemma BulkKeepsDbValid(db: Db, session: Session, entries: seq<BulkEntry>)
    requires DbValid(db)
    requires FindSession(db.sessions, session.id) == Some(session)
    requires FirstOutsider(entries, RosterIds(Roster(db.students, session.classId))).None?
    ensures DbValid(db.(table := UpsertAll(db.table, session.id, entries)))
  {
    forall e | e in entries ensures FindStudent(db.students, e.studentId).Some? {
      RosterChecksAgree(db.students, session.classId, e.studentId);
    }
    UpsertAllKeepsDbValid(db, session.id, entries);
  }

  /** `FirstOutsider` of a suffix looks at the suffix's first entry, then at the rest. */
  lemma FirstOutsiderAt(entries: seq<BulkEntry>, ids: seq<Id>, i: int)
    requires 0 <= i < |entries|
    ensures FirstOutsider(entries[i..], ids) ==
      if entries[i].studentId !in ids then Some(entries[i].studentId) else FirstOutsider(entries[i + 1..], ids)
  {
    assert entries[i..][0] == entries[i];
    assert entries[i..][1..] == entries[i + 1..];
  }

  /**
   * The roster check of `attendances.map`, entry by entry in input order:
   * the student of the first entry not in `classStudentIds`, if any.
   */
  method CheckEntries(entries: seq<BulkEntry>, classStudentIds: seq<Id>) returns (outsider: Option<Id>)
    ensures outsider == FirstOutsider(entries, classStudentIds)
  {
    var i := 0;
    while i < |entries|
      invariant 0 <= i <= |entries|
      invariant FirstOutsider(entries, classStudentIds) == FirstOutsider(entries[i..], classStudentIds)
    {
      FirstOutsiderAt(entries, classStudentIds, i);
      if entries[i].studentId !in classStudentIds {
        return Some(entries[i].studentId);
      }
      i := i + 1;
    }
    assert entries[i..] == [];
    return None;
  }

  // ---------------------------------------------------------------- the store

  /** The database the service works on; marking updates its attendance table in place. */
  class AttendanceStore {
    var sessions: seq<Session>
    var students: seq<Student>
    var classNames: map<Id, string>
    var table: Table

    function Snapshot(): Db
      reads this
    {
      Db(sessions, students, classNames, table)
    }

    ghost predicate Valid()
      reads this
    {
      DbValid(Snapshot())
    }

    /** A store with the given reference data and no attendance rows yet. */
    constructor (sessions: seq<Session>, students: seq<Student>, classNames: map<Id, string>)
      requires DbValid(Db(sessions, students, classNames, Table(map[], [])))
      ensures Valid()
      ensures Snapshot() == Db(sessions, students, classNames, Table(map[], []))
    {
      this.sessions := sessions;
      this.students := students;
      this.classNames := classNames;
      this.table := Table(map[], []);
    }

    /** markAttendance. */
    method MarkAttendance(dto: CreateAttendanceDto) returns (r: Result<Record, Error>)
      requires Valid()
      modifies this`table
      ensures Valid()
      ensures Outcome(r, table) == MarkOutcome(old(Snapshot()), dto)
    {
      ghost var db := Snapshot();
      MarkKeepsDbValid(db, dto);
      var session := FindSession(sessions, dto.sessionId);
      ghost var o := MarkOutcome(db, dto);
      if session.None? {
        assert o == Outcome(Err(SessionNotFound), db.table);
        return Err(SessionNotFound);
      }
      var studentInClass := FindStudent(Roster(students, session.value.classId), dto.studentId);
      if studentInClass.None? {
        assert o == Outcome(Err(NotInSessionClass), db.table);
        return Err(NotInSessionClass);
      }
      var key := (dto.studentId, dto.sessionId);
      table := Upsert(table, key, dto.status, dto.comment);
      r := Ok(RecordAt(table, key));
      assert o == Outcome(r, table);
    }

    /** `prisma.$transaction` over the entries' upserts: they run in input order. */
    method RunUpserts(sessionId: Id, entries: seq<BulkEntry>) returns (results: seq<Record>)
      requires table.Valid()
      modifies this`table
      ensures table == UpsertAll(old(table), sessionId, entries)
      ensures results == BulkRecords(old(table), sessionId, entries)
    {
      results := [];
      var i := 0;
      while i < |entries|
        invariant 0 <= i <= |entries|
        invariant table == UpsertAll(old(table), sessionId, entries[..i])
        invariant results == BulkRecords(old(table), sessionId, entries[..i])
      {
        var e := entries[i];
        assert entries[..i + 1][..i] == entries[..i];
        table := Upsert(table, (e.studentId, sessionId), e.status, e.comment);
        results := results + [RecordAt(table, (e.studentId, sessionId))];
        i := i + 1;
      }
      assert entries[..i] == entries;
    }

    /** markBulkAttendance: every entry is checked before the first upsert runs. */
    method MarkBulkAttendance(sessionId: Id, entries: seq<BulkEntry>) returns (r: Result<seq<Record>, Error>)
      requires Valid()
      modifies this`table
      ensures Valid()
      ensures Outcome(r, table) == BulkOutcome(old(Snapshot()), sessionId, entries)
    {
      var session := FindSession(sessions, sessionId);
      if session.None? {
        return Err(SessionNotFound);
      }
      var classStudentIds := RosterIds(Roster(students, session.value.classId));
      var outsider := CheckEntries(entries, classStudentIds);
      if outsider.Some? {
        return Err(NotInClass(outsider.value));
      }
      BulkKeepsDbValid(Snapshot(), session.value, entries);
      var results := RunUpserts(sessionId, entries);
      r := Ok(results);
    }
  }
}
