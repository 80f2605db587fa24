/**
 * The rules of the attendance list page: which sessions a user sees, the
 * date filter, and the latest-first ordering.
 */
module AttendanceListPage {
  import opened Wrappers
  import opened Seqs
  import opened Strings

  datatype Role = Teacher | Admin

  datatype User = User(id: string, role: Role)

  /**
   * A session as the page receives it: `date` is the ISO string, `time` the
   * instant `new Date(date).getTime()` reads from it.
   */
  datatype ListSession = ListSession(id: string, teacherId: string, date: string, time: int)

  /** `loadSessions`: an administrator sees everything, anyone else their own sessions. */
  function VisibleSessions(user: Option<User>, data: seq<ListSession>): (r: seq<ListSession>)
    ensures user.Some? && user.value.role == Admin ==> r == data
    ensures !(user.Some? && user.value.role == Admin) ==>
              forall s :: s in r <==> s in data && user.Some? && s.teacherId == user.value.id
    ensures IsSubsequence(r, data)
  {
    if user.Some? && user.value.role == Admin then
      IsSubsequenceRefl(data);
      data
    else
      Filter(data, (s: ListSession) => user.Some? && s.teacherId == user.value.id)
  }

  /** Without a signed-in user the non-administrator branch keeps nothing. */
  lemma NoUserSeesNothing(data: seq<ListSession>)
    ensures VisibleSessions(None, data) == []
  {
  }

  /** `filteredSessions`: all sessions for an empty filter, else those whose date starts with it. */
  function FilteredSessions(sessions: seq<ListSession>, filterDate: string): (r: seq<ListSession>)
    ensures forall s :: s in r <==> s in sessions && StartsWith(s.date, filterDate)
    ensures IsSubsequence(r, sessions)
    ensures filterDate == "" ==> r == sessions
  {
    if filterDate == "" then
      IsSubsequenceRefl(sessions);
      sessions
    else
      Filter(sessions, (s: ListSession) => StartsWith(s.date, filterDate))
  }

  /** The comparator `b.time - a.time`: `a` may come first when it is not earlier. */
  predicate NotEarlier(a: ListSession, b: ListSession) {
    a.time >= b.time
  }

  /** `sortedSessions`: the filtered sessions, latest first. */
  function SortedSessions(filtered: seq<ListSession>): (r: seq<ListSession>)
    ensures multiset(r) == multiset(filtered)
    ensures |r| == |filtered|
    ensures forall i, j :: 0 <= i < j < |r| ==> r[i].time >= r[j].time
  {
    var r := SortBy(filtered, NotEarlier);
    SortedPairwise(r, NotEarlier);
    r
  }
}
