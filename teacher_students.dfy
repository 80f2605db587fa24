/**
 * The rules of the teacher's students page: the rate badge, the search
 * filter, and the overview counters computed from the dashboard rows.
 */
module TeacherStudentsPage {
  import opened Seqs
  import opened Strings
  import opened Rounding
  import opened TeacherDashboard

  datatype Badge = Excellent | Good | Attention | Alert

  /** getStatusBadge: the label shown for an attendance rate. */
  function StatusBadge(rate: int): (b: Badge)
    ensures b == Excellent <==> rate >= 95
    ensures b == Good <==> 90 <= rate < 95
    ensures b == Attention <==> 85 <= rate < 90
    ensures b == Alert <==> rate < 85
  {
    if rate >= 95 then Excellent
    else if rate >= 90 then Good
    else if rate >= 85 then Attention
    else Alert
  }

  /** Badges from worst to best. */
  function Rank(b: Badge): nat {
    match b
    case Alert => 0
    case Attention => 1
    case Good => 2
    case Excellent => 3
  }

  /** A higher rate never earns a worse badge. */
  lemma BadgeMonotone(lo: int, hi: int)
    requires lo <= hi
    ensures Rank(StatusBadge(lo)) <= Rank(StatusBadge(hi))
  {
  }

  /** The search test: full name or class name contains the term, ignoring ASCII case. */
  predicate Matches(st: StudentWithStats, term: string) {
    Contains(ToLower(st.firstName + " " + st.lastName), ToLower(term))
    || Contains(ToLower(st.className), ToLower(term))
  }

  /** `filteredStudents`. */
  function FilteredStudents(students: seq<StudentWithStats>, term: string): (r: seq<StudentWithStats>)
    ensures forall st :: st in r <==> st in students && Matches(st, term)
    ensures IsSubsequence(r, students)
  {
    Filter(students, (st: StudentWithStats) => Matches(st, term))
  }

  /** An empty search term keeps every student, in order. */
  lemma EmptySearchKeepsAll(students: seq<StudentWithStats>)
    ensures FilteredStudents(students, "") == students
  {
    assert ToLower("") == "";
    forall st ensures Matches(st, "") {
      ContainsEmpty(ToLower(st.firstName + " " + st.lastName));
    }
    FilterKeepsAll(students, (st: StudentWithStats) => Matches(st, ""));
  }

  /** `students.reduce((sum, s) => sum + s.stats.attendanceRate, 0)`. */
  function SumRates(students: seq<StudentWithStats>): int {
    if students == [] then 0 else SumRates(students[..|students| - 1]) + students[|students| - 1].stats.attendanceRate
  }

  lemma {:induction false} SumRatesBounds(students: seq<StudentWithStats>)
    requires forall i :: 0 <= i < |students| ==> 0 <= students[i].stats.attendanceRate <= 100
    ensures 0 <= SumRates(students) <= 100 * |students|
  {
    if students != [] {
      SumRatesBounds(students[..|students| - 1]);
    }
  }

  /** `avgAttendance`: the mean rate rounded to the nearest integer, 0 for no students. */
  function AvgAttendance(students: seq<StudentWithStats>): (r: int)
    ensures |students| == 0 ==> r == 0
    ensures |students| > 0 ==> 2 * |students| * r <= 2 * SumRates(students) + |students| < 2 * |students| * (r + 1)
  {
    if |students| > 0 then RoundDiv(SumRates(students), |students|) else 0
  }

  /** With every rate a percentage, so is the average. */
  lemma AvgAttendanceBounds(students: seq<StudentWithStats>)
    requires forall i :: 0 <= i < |students| ==> 0 <= students[i].stats.attendanceRate <= 100
    ensures 0 <= AvgAttendance(students) <= 100
  {
    if |students| > 0 {
      SumRatesBounds(students);
      RoundDivBounds(SumRates(students), |students|, 0, 100);
    }
  }

  /** How many students carry badge `b`. */
  function BadgeCount(students: seq<StudentWithStats>, b: Badge): nat {
    if students == [] then 0
    else (if StatusBadge(students[0].stats.attendanceRate) == b then 1 else 0) + BadgeCount(students[1..], b)
  }

  /** `alertCount`: the students below 85%, which are exactly those with the Alert badge. */
  function AlertCount(students: seq<StudentWithStats>): (n: nat)
    ensures n == BadgeCount(students, Alert)
    ensures n <= |students|
  {
    var below := (st: StudentWithStats) => st.stats.attendanceRate < 85;
    KeepCountsAlerts(students, below);
    |Filter(students, below)|
  }

  lemma {:induction false} KeepCountsAlerts(students: seq<StudentWithStats>, below: StudentWithStats -> bool)
    requires forall st :: below(st) == (st.stats.attendanceRate < 85)
    ensures |Keep(students, below)| == BadgeCount(students, Alert)
  {
    if students != [] {
      KeepCountsAlerts(students[1..], below);
    }
  }
}
