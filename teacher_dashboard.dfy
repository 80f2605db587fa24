/**
 * getStudentsWithAttendance: the students of every class a teacher teaches,
 * each with the stats of their attendance in that teacher's sessions.
 *
 * The service walks the teacher's sessions and, for each, the students of
 * the session's class, merging each student's attendance list into a map
 * keyed by student id. A student of a class the teacher meets in `k`
 * sessions is visited `k` times, and each visit appends the same list again;
 * the model keeps that behaviour (see `TeacherRowStats`).
 */
module TeacherDashboard {
  import opened Wrappers
  import opened Seqs
  import opened AttendanceTypes
  import opened AttendanceService
  import opened AttendanceQueries
  import opened AttendanceStats

  /** `session.findMany({ where: { teacherId } })`. */
  function TeacherSessions(db: Db, teacherId: Id): (r: seq<Session>)
    ensures forall s :: s in r <==> s in db.sessions && s.teacherId == teacherId
    ensures IsSubsequence(r, db.sessions)
  {
    Filter(db.sessions, (s: Session) => s.teacherId == teacherId)
  }

  /** The included attendances' `where: { session: { teacherId } }`. */
  predicate TaughtBy(sessions: seq<Session>, sessionId: Id, teacherId: Id) {
    match FindSession(sessions, sessionId)
    case Some(s) => s.teacherId == teacherId
    case None => false
  }

  /** The included attendances' filter: the student's records in the teacher's sessions. */
  function InTeacherSession(db: Db, studentId: Id, teacherId: Id): Record -> bool {
    (rec: Record) => rec.studentId == studentId && TaughtBy(db.sessions, rec.sessionId, teacherId)
  }

  /**
   * `student.attendances` as included: the student's records in the teacher's
   * sessions, one per row of the student in such a session.
   */
  function TeacherRecords(db: Db, studentId: Id, teacherId: Id): (r: seq<Record>)
    requires db.table.Valid()
    ensures forall rec :: rec in r <==>
              rec in TableRecords(db.table) && rec.studentId == studentId && TaughtBy(db.sessions, rec.sessionId, teacherId)
    ensures IsSubsequence(r, TableRecords(db.table))
  {
    Filter(TableRecords(db.table), InTeacherSession(db, studentId, teacherId))
  }

  /** The included list has one record per row of the student in one of the teacher's sessions. */
  lemma TeacherRecordsCount(db: Db, studentId: Id, teacherId: Id)
    requires db.table.Valid()
    ensures |TeacherRecords(db, studentId, teacherId)|
            == |set k | k in db.table.rows && k.0 == studentId && TaughtBy(db.sessions, k.1, teacherId)|
  {
    var t := db.table;
    var q := (k: Key) => k.0 == studentId && TaughtBy(db.sessions, k.1, teacherId);
    CountByKeys(t, t.order, InTeacherSession(db, studentId, teacherId), q);
    FilterDistinctCount(t.order, q);
    TeacherKeySet(db, studentId, teacherId, q);
  }

  lemma TeacherKeySet(db: Db, studentId: Id, teacherId: Id, q: Key -> bool)
    requires db.table.Valid()
    requires forall k :: q(k) == (k.0 == studentId && TaughtBy(db.sessions, k.1, teacherId))
    ensures Passing(db.table.order, q) == set k | k in db.table.rows && k.0 == studentId && TaughtBy(db.sessions, k.1, teacherId)
  {
  }

  /** How many sessions of `ss` belong to class `classId`. */
  function SessionsOfClass(ss: seq<Session>, classId: Id): nat {
    if ss == [] then 0
    else SessionsOfClass(ss[..|ss| - 1], classId) + (if ss[|ss| - 1].classId == classId then 1 else 0)
  }

  lemma {:induction false} SessionsOfClassPositive(ss: seq<Session>, classId: Id)
    ensures SessionsOfClass(ss, classId) > 0 <==> exists s :: s in ss && s.classId == classId
  {
    if ss != [] {
      var init := ss[..|ss| - 1];
      SessionsOfClassPositive(init, classId);
      assert ss == init + [ss[|ss| - 1]];
      if s :| s in init && s.classId == classId {
        assert s in ss;
      }
    }
  }

  /** A student of one of the classes the teacher teaches. */
  ghost predicate Reached(db: Db, teacherId: Id, st: Student) {
    exists s :: s in db.sessions && s.teacherId == teacherId && s.classId == st.classId
  }

  /** A map entry: the student, the class name and the merged attendance list. */
  datatype Merged = Merged(student: Student, className: string, attendances: seq<Record>)

  /** One element of the returned array. */
  datatype StudentWithStats = StudentWithStats(
    id: Id, firstName: string, lastName: string, email: Option<string>, className: string, stats: Stats)

  /** The final `map`: the student's fields, the class name and the stats of the merged list. */
  function Summarize(m: Merged): (r: StudentWithStats)
    ensures r.id == m.student.id && r.firstName == m.student.firstName && r.lastName == m.student.lastName
    ensures r.email == m.student.email && r.className == m.className
    ensures r.stats.total == |m.attendances|
  {
    StudentWithStats(m.student.id, m.student.firstName, m.student.lastName, m.student.email, m.className,
                     StatsOf(m.attendances))
  }

  /**
   * The entry of `st` once the sessions `done` have been walked: the
   * student's included list, once per walked session of the student's class.
   */
  function MergedAfter(db: Db, teacherId: Id, done: seq<Session>, st: Student): Merged
    requires db.table.Valid() && st.classId in db.classNames
  {
    Merged(st, db.classNames[st.classId], Repeat(TeacherRecords(db, st.id, teacherId), SessionsOfClass(done, st.classId)))
  }

  /** The body of the inner `forEach` for one student. */
  function MergeStep(merged: map<Id, Merged>, st: Student, className: string, recs: seq<Record>): Merged {
    if st.id in merged then merged[st.id].(attendances := merged[st.id].attendances + recs)
    else Merged(st, className, recs)
  }

  /**
   * The map after walking the sessions `done`: `ids` lists its keys in
   * insertion order, each entry is `MergedAfter` of its student, and every
   * student of a walked session's class has an entry.
   */
  ghost predicate MergeInvariant(db: Db, teacherId: Id, done: seq<Session>, ids: seq<Id>, merged: map<Id, Merged>)
    requires DbValid(db)
  {
    && Distinct(ids)
    && (forall id :: id in merged <==> id in ids)
    && (forall id :: id in merged ==>
          && merged[id].student in db.students && merged[id].student.id == id
          && SessionsOfClass(done, merged[id].student.classId) > 0
          && merged[id] == MergedAfter(db, teacherId, done, merged[id].student))
    && (forall st :: st in db.students && SessionsOfClass(done, st.classId) > 0 ==> st.id in merged)
  }

  lemma SessionsOfClassAppend(done: seq<Session>, session: Session, classId: Id)
    ensures SessionsOfClass(done + [session], classId) == SessionsOfClass(done, classId) + (if session.classId == classId then 1 else 0)
  {
    assert (done + [session])[..|done|] == done;
  }

  /** An entry outside the session's class is left as it was. */
  lemma UntouchedEntry(db: Db, teacherId: Id, done: seq<Session>, session: Session, ids: seq<Id>, merged: map<Id, Merged>, id: Id)
    requires DbValid(db)
    requires MergeInvariant(db, teacherId, done, ids, merged)
    requires id in merged && id !in RosterIds(Roster(db.students, session.classId))
    ensures SessionsOfClass(done + [session], merged[id].student.classId) > 0
    ensures merged[id] == MergedAfter(db, teacherId, done + [session], merged[id].student)
  {
    var st := merged[id].student;
    RosterChecksAgree(db.students, session.classId, id);
    SessionsOfClassAppend(done, session, st.classId);
  }

  /** An entry of the session's class gets the student's list appended once more. */
  lemma TouchedEntry(db: Db, teacherId: Id, done: seq<Session>, session: Session, merged: map<Id, Merged>, st: Student)
    requires db.table.Valid() && UniqueStudentIds(db.students)
    requires st in db.students && st.classId == session.classId && st.classId in db.classNames
    requires st.id in merged ==>
               && merged[st.id].student in db.students && merged[st.id].student.id == st.id
               && merged[st.id] == MergedAfter(db, teacherId, done, merged[st.id].student)
    requires st.id !in merged ==> SessionsOfClass(done, st.classId) == 0
    ensures SessionsOfClass(done + [session], st.classId) > 0
    ensures MergeStep(merged, st, db.classNames[session.classId], TeacherRecords(db, st.id, teacherId))
            == MergedAfter(db, teacherId, done + [session], st)
  {
    SessionsOfClassAppend(done, session, st.classId);
    var recs := TeacherRecords(db, st.id, teacherId);
    var n := SessionsOfClass(done, st.classId);
    var name := db.classNames[st.classId];
    var after := MergedAfter(db, teacherId, done + [session], st);
    assert after == Merged(st, name, Repeat(recs, n + 1));
    if st.id in merged {
      SameIdSameStudent(db.students, merged[st.id].student, st);
      assert merged[st.id] == Merged(st, name, Repeat(recs, n));
      assert MergeStep(merged, st, name, recs) == Merged(st, name, Repeat(recs, n) + recs);
    } else {
      assert Repeat(recs, 1) == [] + recs;
      assert MergeStep(merged, st, name, recs) == Merged(st, name, recs);
    }
  }

  /** After the inner loop the invariant holds with the session walked. */
  lemma MergeSessionDone(db: Db, teacherId: Id, done: seq<Session>, session: Session,
                         ids: seq<Id>, merged: map<Id, Merged>, ids': seq<Id>, merged': map<Id, Merged>)
    requires DbValid(db)
    requires MergeInvariant(db, teacherId, done, ids, merged)
    requires Distinct(ids') && (forall id :: id in merged' <==> id in ids')
    requires forall id :: id in merged ==> id in merged'
    requires forall id :: id in merged' && id !in RosterIds(Roster(db.students, session.classId)) ==> id in merged && merged'[id] == merged[id]
    requires session.classId in db.classNames
    requires forall k :: 0 <= k < |Roster(db.students, session.classId)| ==>
               var st := Roster(db.students, session.classId)[k];
               st.id in merged' && merged'[st.id] == MergeStep(merged, st, db.classNames[session.classId], TeacherRecords(db, st.id, teacherId))
    ensures MergeInvariant(db, teacherId, done + [session], ids', merged')
  {
    var roster := Roster(db.students, session.classId);
    var rids := RosterIds(roster);
    var done' := done + [session];
    forall id | id in merged' ensures
        && merged'[id].student in db.students && merged'[id].student.id == id
        && SessionsOfClass(done', merged'[id].student.classId) > 0
        && merged'[id] == MergedAfter(db, teacherId, done', merged'[id].student)
    {
      if id in rids {
        var k :| 0 <= k < |rids| && rids[k] == id;
        var st := roster[k];
        assert st in roster;
        TouchedEntry(db, teacherId, done, session, merged, st);
      } else {
        UntouchedEntry(db, teacherId, done, session, ids, merged, id);
      }
    }
    forall st | st in db.students && SessionsOfClass(done', st.classId) > 0 ensures st.id in merged' {
      SessionsOfClassAppend(done, session, st.classId);
      if SessionsOfClass(done, st.classId) == 0 {
        assert st in roster;
        var k :| 0 <= k < |roster| && roster[k] == st;
      }
    }
  }

  /** The inner `forEach` callback: insert the student or append to its entry. */
  method MergeStudent(st: Student, className: string, recs: seq<Record>, ids: seq<Id>, merged: map<Id, Merged>)
    returns (ids': seq<Id>, merged': map<Id, Merged>)
    requires Distinct(ids) && (forall id :: id in merged <==> id in ids)
    ensures Distinct(ids') && (forall id :: id in merged' <==> id in ids')
    ensures merged' == merged[st.id := MergeStep(merged, st, className, recs)]
    ensures ids' == if st.id in merged then ids else ids + [st.id]
  {
    if st.id !in merged {
      merged' := merged[st.id := Merged(st, className, recs)];
      ids' := ids + [st.id];
    } else {
      var existing := merged[st.id];
      merged' := merged[st.id := existing.(attendances := existing.attendances + recs)];
      ids' := ids;
    }
  }

  /** One iteration of `sessions.forEach`: every student of the session's class is merged in. */
  method MergeSession(db: Db, teacherId: Id, ghost done: seq<Session>, session: Session, ids: seq<Id>, merged: map<Id, Merged>)
    returns (ids': seq<Id>, merged': map<Id, Merged>)
    requires DbValid(db)
    requires session in db.sessions
    requires MergeInvariant(db, teacherId, done, ids, merged)
    ensures MergeInvariant(db, teacherId, done + [session], ids', merged')
  {
    var roster := Roster(db.students, session.classId);
    var rids := RosterIds(roster);
    RosterIdsDistinct(db.students, session.classId);
    var className := db.classNames[session.classId];
    ids', merged' := ids, merged;
    var j := 0;
    while j < |roster|
      invariant 0 <= j <= |roster|
      invariant Distinct(ids') && (forall id :: id in merged' <==> id in ids')
      invariant forall id :: id in merged ==> id in merged'
      invariant forall id :: id in merged' && id !in rids[..j] ==> id in merged && merged'[id] == merged[id]
      invariant forall k :: 0 <= k < j ==>
                  roster[k].id in merged' && merged'[roster[k].id] == MergeStep(merged, roster[k], className, TeacherRecords(db, roster[k].id, teacherId))
    {
      var st := roster[j];
      var recs := TeacherRecords(db, st.id, teacherId);
      assert rids[j] == st.id;
      assert st.id !in rids[..j] by {
        forall k | 0 <= k < j ensures rids[k] != rids[j] { }
      }
      ghost var before := merged';
      assert MergeStep(before, st, className, recs) == MergeStep(merged, st, className, recs);
      ids', merged' := MergeStudent(st, className, recs, ids', merged');
      SliceStep(rids, j);
      forall k | 0 <= k < j + 1 ensures
        roster[k].id in merged' && merged'[roster[k].id] == MergeStep(merged, roster[k], className, TeacherRecords(db, roster[k].id, teacherId))
      {
        if k < j {
          assert rids[k] == roster[k].id;
          assert roster[k].id != st.id;
          assert merged'[roster[k].id] == before[roster[k].id];
        }
      }
      j := j + 1;
    }
    assert rids[..j] == rids;
    MergeSessionDone(db, teacherId, done, session, ids, merged, ids', merged');
  }

  /** What the dashboard returns for a student the teacher reaches. */
  function TeacherRow(db: Db, teacherId: Id, st: Student): StudentWithStats
    requires DbValid(db) && st in db.students
  {
    Summarize(MergedAfter(db, teacherId, TeacherSessions(db, teacherId), st))
  }

  /** `row` is the row of some student the teacher reaches. */
  ghost predicate IsTeacherRow(db: Db, teacherId: Id, row: StudentWithStats)
    requires DbValid(db)
  {
    exists st :: st in db.students && Reached(db, teacherId, st) && row == TeacherRow(db, teacherId, st)
  }

  /**
   * getStudentsWithAttendance: one row per student of a class the teacher
   * teaches, each row being that student's `TeacherRow`, and no student twice.
   */
  method StudentsWithAttendance(db: Db, teacherId: Id) returns (out: seq<StudentWithStats>)
    requires DbValid(db)
    ensures forall i, j :: 0 <= i < j < |out| ==> out[i].id != out[j].id
    ensures forall i :: 0 <= i < |out| ==> IsTeacherRow(db, teacherId, out[i])
    ensures forall st :: st in db.students && Reached(db, teacherId, st) ==>
              exists i :: 0 <= i < |out| && out[i] == TeacherRow(db, teacherId, st)
  {
    var ids, merged := MergeAll(db, teacherId);
    out := seq(|ids|, k requires 0 <= k < |ids| && ids[k] in merged => Summarize(merged[ids[k]]));
    SummaryRows(db, teacherId, ids, merged, out);
  }

  /** The outer `sessions.forEach`: the map once every session of the teacher is walked. */
  method MergeAll(db: Db, teacherId: Id) returns (ids: seq<Id>, merged: map<Id, Merged>)
    requires DbValid(db)
    ensures MergeInvariant(db, teacherId, TeacherSessions(db, teacherId), ids, merged)
  {
    var sessions := TeacherSessions(db, teacherId);
    ids, merged := [], map[];
    ghost var done: seq<Session> := [];
    var i := 0;
    while i < |sessions|
      invariant 0 <= i <= |sessions| && done == sessions[..i]
      invariant MergeInvariant(db, teacherId, done, ids, merged)
    {
      assert sessions[i] in db.sessions;
      SliceStep(sessions, i);
      ids, merged := MergeSession(db, teacherId, done, sessions[i], ids, merged);
      done := done + [sessions[i]];
      i := i + 1;
    }
    assert done == sessions;
  }

  /** Reading the final map off as the returned rows. */
  lemma SummaryRows(db: Db, teacherId: Id, ids: seq<Id>, merged: map<Id, Merged>, out: seq<StudentWithStats>)
    requires DbValid(db)
    requires MergeInvariant(db, teacherId, TeacherSessions(db, teacherId), ids, merged)
    requires |out| == |ids| && forall k :: 0 <= k < |ids| ==> out[k] == Summarize(merged[ids[k]])
    ensures forall i, j :: 0 <= i < j < |out| ==> out[i].id != out[j].id
    ensures forall i :: 0 <= i < |out| ==> IsTeacherRow(db, teacherId, out[i])
    ensures forall st :: st in db.students && Reached(db, teacherId, st) ==>
              exists i :: 0 <= i < |out| && out[i] == TeacherRow(db, teacherId, st)
  {
    forall i, j | 0 <= i < j < |out| ensures out[i].id != out[j].id {
      assert out[i].id == ids[i] && out[j].id == ids[j];
    }
    forall i | 0 <= i < |out| ensures IsTeacherRow(db, teacherId, out[i]) {
      EntryIsTeacherRow(db, teacherId, ids, merged, ids[i]);
    }
    forall st | st in db.students && Reached(db, teacherId, st) ensures exists i :: 0 <= i < |out| && out[i] == TeacherRow(db, teacherId, st) {
      var i := ReachedHasEntry(db, teacherId, ids, merged, st);
    }
  }

  /** Every entry of the final map summarizes to the row of a reached student. */
  lemma EntryIsTeacherRow(db: Db, teacherId: Id, ids: seq<Id>, merged: map<Id, Merged>, id: Id)
    requires DbValid(db)
    requires MergeInvariant(db, teacherId, TeacherSessions(db, teacherId), ids, merged)
    requires id in merged
    ensures IsTeacherRow(db, teacherId, Summarize(merged[id]))
  {
    var sessions := TeacherSessions(db, teacherId);
    var st := merged[id].student;
    SessionsOfClassPositive(sessions, st.classId);
    var s :| s in sessions && s.classId == st.classId;
    assert Reached(db, teacherId, st);
    assert Summarize(merged[id]) == TeacherRow(db, teacherId, st);
  }

  /** Every reached student has an entry in the final map, at some position of `ids`. */
  lemma ReachedHasEntry(db: Db, teacherId: Id, ids: seq<Id>, merged: map<Id, Merged>, st: Student) returns (i: int)
    requires DbValid(db)
    requires MergeInvariant(db, teacherId, TeacherSessions(db, teacherId), ids, merged)
    requires st in db.students && Reached(db, teacherId, st)
    ensures 0 <= i < |ids| && ids[i] in merged && Summarize(merged[ids[i]]) == TeacherRow(db, teacherId, st)
  {
    var sessions := TeacherSessions(db, teacherId);
    var s :| s in db.sessions && s.teacherId == teacherId && s.classId == st.classId;
    assert s in sessions;
    SessionsOfClassPositive(sessions, st.classId);
    assert st.id in merged;
    i :| 0 <= i < |ids| && ids[i] == st.id;
    SameIdSameStudent(db.students, merged[st.id].student, st);
  }

  /**
   * The duplication, stated: a reached student's row counts every status
   * `k` times, `k` being the number of the teacher's sessions of the
   * student's class, while the rate is that of the list counted once.
   */
  lemma TeacherRowStats(db: Db, teacherId: Id, st: Student)
    requires DbValid(db) && st in db.students && Reached(db, teacherId, st)
    ensures var k := SessionsOfClass(TeacherSessions(db, teacherId), st.classId);
            var once := StatsOf(TeacherRecords(db, st.id, teacherId));
            var row := TeacherRow(db, teacherId, st);
            && k > 0
            && row.className == db.classNames[st.classId]
            && row.stats.total == k * once.total
            && once.total == |set key | key in db.table.rows && key.0 == st.id && TaughtBy(db.sessions, key.1, teacherId)|
            && (forall s :: Count(row.stats, s) == k * Count(once, s))
            && row.stats.attendanceRate == once.attendanceRate
  {
    var sessions := TeacherSessions(db, teacherId);
    var s :| s in db.sessions && s.teacherId == teacherId && s.classId == st.classId;
    assert s in sessions;
    SessionsOfClassPositive(sessions, st.classId);
    RepeatedStats(TeacherRecords(db, st.id, teacherId), SessionsOfClass(sessions, st.classId));
    TeacherRecordsCount(db, st.id, teacherId);
  }
}
