/**
 * The statistics object computed from a list of attendance records, as
 * returned by getStudentAttendanceStats and per student by the teacher
 * dashboard.
 */
module AttendanceStats {
  import opened Seqs
  import opened Rounding
  import opened AttendanceTypes
  import opened AttendanceService
  import opened AttendanceQueries

  datatype Stats = Stats(total: nat, present: nat, absent: nat, late: nat, excused: nat, attendanceRate: int)

  /** `a => a.status === s`. */
  function HasStatus(s: Status): Record -> bool {
    (a: Record) => a.status == s
  }

  /** `attendances.filter(a => a.status === s).length`. */
  function CountStatus(recs: seq<Record>, s: Status): nat {
    |Filter(recs, HasStatus(s))|
  }

  /** The counter of `stats` that belongs to status `s`. */
  function Count(stats: Stats, s: Status): nat {
    match s
    case Present => stats.present
    case Absent => stats.absent
    case Late => stats.late
    case Excused => stats.excused
  }

  /** Every record has exactly one of the four statuses. */
  lemma CountsPartition(recs: seq<Record>)
    ensures CountStatus(recs, Present) + CountStatus(recs, Absent) + CountStatus(recs, Late) + CountStatus(recs, Excused) == |recs|
  {
    KeepPartition(recs);
  }

  lemma {:induction false} KeepPartition(recs: seq<Record>)
    ensures |Keep(recs, HasStatus(Present))| + |Keep(recs, HasStatus(Absent))|
            + |Keep(recs, HasStatus(Late))| + |Keep(recs, HasStatus(Excused))| == |recs|
  {
    if recs != [] {
      KeepPartition(recs[1..]);
    }
  }

  /**
   * `total > 0 ? Math.round((present / total) * 100) : 0`: the percentage of
   * present records rounded to the nearest integer, halves upwards.
   */
  function Rate(present: nat, total: nat): (r: int)
    requires present <= total
    ensures 0 <= r <= 100
    ensures total == 0 ==> r == 0
    ensures total > 0 ==> 2 * total * r <= 200 * present + total < 2 * total * (r + 1)
    ensures total > 0 && present == total ==> r == 100
  {
    if total == 0 then 0
    else
      RoundDivBounds(100 * present, total, 0, 100);
      if present == total then
        RoundDivUnique(100 * present, total, 100);
        RoundDiv(100 * present, total)
      else
        RoundDiv(100 * present, total)
  }

  /** Scaling both counts by the same positive factor leaves the rate unchanged. */
  lemma RateScale(present: nat, total: nat, k: nat)
    requires present <= total && k > 0
    ensures k * present <= k * total
    ensures Rate(k * present, k * total) == Rate(present, total)
  {
    MulMono(k, present, total);
    if total > 0 {
      assert 100 * (k * present) == k * (100 * present);
      RoundDivScale(100 * present, total, k);
    }
  }

  /** The stats object built from a list of records. */
  function StatsOf(recs: seq<Record>): (st: Stats)
    ensures st.total == |recs|
    ensures forall s :: Count(st, s) == CountStatus(recs, s)
    ensures st.present + st.absent + st.late + st.excused == st.total
    ensures 0 <= st.attendanceRate <= 100
    ensures st.total == 0 ==> st.attendanceRate == 0
    ensures st.total > 0 ==> 2 * st.total * st.attendanceRate <= 200 * st.present + st.total < 2 * st.total * (st.attendanceRate + 1)
  {
    CountsPartition(recs);
    var present := CountStatus(recs, Present);
    Stats(|recs|, present, CountStatus(recs, Absent), CountStatus(recs, Late), CountStatus(recs, Excused),
          Rate(present, |recs|))
  }

  /** `s` repeated `k > 0` times has `k` times every count and the same rate. */
  lemma RepeatedStats(recs: seq<Record>, k: nat)
    requires k > 0
    ensures StatsOf(Repeat(recs, k)).total == k * StatsOf(recs).total
    ensures forall s :: Count(StatsOf(Repeat(recs, k)), s) == k * Count(StatsOf(recs), s)
    ensures StatsOf(Repeat(recs, k)).attendanceRate == StatsOf(recs).attendanceRate
  {
    forall s ensures CountStatus(Repeat(recs, k), s) == k * CountStatus(recs, s) {
      FilterRepeat(recs, k, HasStatus(s));
    }
    var one := StatsOf(recs);
    RateScale(one.present, one.total, k);
  }

  // ---------------------------------------------------------------- per student

  /** `a => a.studentId === studentId`. */
  function OfStudent(studentId: Id): Record -> bool {
    (a: Record) => a.studentId == studentId
  }

  /**
   * Filtering the records of the keys `ks` keeps as many records as
   * filtering the keys themselves by the same test.
   */
  lemma CountByKeys(t: Table, ks: seq<Key>, p: Record -> bool, q: Key -> bool)
    requires forall k :: k in ks ==> k in t.rows
    requires forall k :: k in ks ==> p(RecordAt(t, k)) == q(k)
    ensures |Filter(RecordsOf(t, ks), p)| == |Filter(ks, q)|
  {
    KeepByKeys(t, ks, p, q);
  }

  lemma {:induction false} KeepByKeys(t: Table, ks: seq<Key>, p: Record -> bool, q: Key -> bool)
    requires forall k :: k in ks ==> k in t.rows
    requires forall k :: k in ks ==> p(RecordAt(t, k)) == q(k)
    ensures |Keep(RecordsOf(t, ks), p)| == |Keep(ks, q)|
  {
    if ks != [] {
      assert ks[0] in ks;
      KeepByKeys(t, ks[1..], p, q);
      var recs := RecordsOf(t, ks);
      assert recs[0] == RecordAt(t, ks[0]) && recs[1..] == RecordsOf(t, ks[1..]);
    }
  }

  /** `findMany({ where: { studentId } })`: one record per session the student was marked in. */
  function StudentRecords(t: Table, studentId: Id): (r: seq<Record>)
    requires t.Valid()
    ensures forall rec :: rec in r <==> rec in TableRecords(t) && rec.studentId == studentId
    ensures |r| == |set k | k in t.rows && k.0 == studentId|
  {
    StudentRowCount(t, studentId, (k: Key) => k.0 == studentId);
    Filter(TableRecords(t), OfStudent(studentId))
  }

  lemma StudentRowCount(t: Table, studentId: Id, q: Key -> bool)
    requires t.Valid()
    requires forall k :: q(k) == (k.0 == studentId)
    ensures |Filter(TableRecords(t), OfStudent(studentId))| == |set k | k in t.rows && k.0 == studentId|
  {
    assert |Filter(TableRecords(t), OfStudent(studentId))| == |Filter(t.order, q)| by {
      CountByKeys(t, t.order, OfStudent(studentId), q);
    }
    assert |Filter(t.order, q)| == |Passing(t.order, q)| by {
      FilterDistinctCount(t.order, q);
    }
    StudentKeySet(t, studentId, q);
  }

  lemma StudentKeySet(t: Table, studentId: Id, q: Key -> bool)
    requires t.Valid()
    requires forall k :: q(k) == (k.0 == studentId)
    ensures Passing(t.order, q) == set k | k in t.rows && k.0 == studentId
  {
  }

  /**
   * getStudentAttendanceStats: the counters are the numbers of the student's
   * rows overall and with each status, and the rate is the rounded
   * percentage of present rows (see `Rate`). There is no date window.
   */
  function StudentAttendanceStats(t: Table, studentId: Id): (st: Stats)
    requires t.Valid()
    ensures st.total == |set k | k in t.rows && k.0 == studentId|
    ensures forall s :: Count(st, s) == |set k | k in t.rows && k.0 == studentId && t.rows[k].status == s|
    ensures st.present <= st.total && st.attendanceRate == Rate(st.present, st.total)
  {
    forall s ensures CountStatus(StudentRecords(t, studentId), s) == |set k | k in t.rows && k.0 == studentId && t.rows[k].status == s| {
      StudentStatusCount(t, studentId, s,
        (a: Record) => a.studentId == studentId && a.status == s,
        (k: Key) => k in t.rows && k.0 == studentId && t.rows[k].status == s);
    }
    StatsOf(StudentRecords(t, studentId))
  }

  /** The student's records with status `s` are the student's rows with that status. */
  lemma StudentStatusCount(t: Table, studentId: Id, s: Status, pq: Record -> bool, q: Key -> bool)
    requires t.Valid()
    requires forall a :: pq(a) == (a.studentId == studentId && a.status == s)
    requires forall k :: q(k) == (k in t.rows && k.0 == studentId && t.rows[k].status == s)
    ensures CountStatus(StudentRecords(t, studentId), s) == |set k | k in t.rows && k.0 == studentId && t.rows[k].status == s|
  {
    StudentStatusKeys(t, studentId, s, pq, q);
    FilterDistinctCount(t.order, q);
    StatusKeySet(t, studentId, s, q);
  }

  lemma StatusKeySet(t: Table, studentId: Id, s: Status, q: Key -> bool)
    requires t.Valid()
    requires forall k :: q(k) == (k in t.rows && k.0 == studentId && t.rows[k].status == s)
    ensures Passing(t.order, q) == set k | k in t.rows && k.0 == studentId && t.rows[k].status == s
  {
  }

  lemma StudentStatusKeys(t: Table, studentId: Id, s: Status, pq: Record -> bool, q: Key -> bool)
    requires t.Valid()
    requires forall a :: pq(a) == (a.studentId == studentId && a.status == s)
    requires forall k :: q(k) == (k in t.rows && k.0 == studentId && t.rows[k].status == s)
    ensures CountStatus(StudentRecords(t, studentId), s) == |Filter(t.order, q)|
  {
    var recs := TableRecords(t);
    FilterFilter(recs, OfStudent(studentId), HasStatus(s), pq);
    assert recs == RecordsOf(t, t.order);
    CountByKeys(t, t.order, pq, q);
  }
}
