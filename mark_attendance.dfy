/**
 * The rules of the mark-attendance page: the status map it edits, the
 * counters it shows, the bulk payload it sends and when saving is allowed.
 */
module MarkAttendancePage {
  import opened Seqs
  import opened AttendanceTypes
  import opened AttendanceService

  /** The values of `keys` in `vals`, in key order. */
  function ValuesOf(keys: seq<string>, vals: map<string, string>): (r: seq<string>)
    requires forall k :: k in keys ==> k in vals
    ensures |r| == |keys|
    ensures forall i :: 0 <= i < |keys| ==> r[i] == vals[keys[i]]
  {
    if keys == [] then [] else [vals[keys[0]]] + ValuesOf(keys[1..], vals)
  }

  /** A JavaScript `Map<string, string>`: its keys in insertion order and its entries. */
  class StatusMap {
    var keys: seq<string>
    var vals: map<string, string>

    ghost predicate Valid()
      reads this
    {
      Distinct(keys) && forall k :: k in vals <==> k in keys
    }

    /** `new Map()`. */
    constructor ()
      ensures Valid() && keys == [] && vals == map[]
    {
      keys := [];
      vals := map[];
    }

    /** `new Map(other)`: a separate map with the same entries in the same order. */
    constructor Copy(other: StatusMap)
      requires other.Valid()
      ensures Valid() && keys == other.keys && vals == other.vals
    {
      keys := other.keys;
      vals := other.vals;
    }

    /** `size`. */
    function Size(): nat
      reads this
    {
      |keys|
    }

    /** `set(k, v)`: a present key keeps its place, a new one goes last. */
    method Set(k: string, v: string)
      requires Valid()
      modifies this
      ensures Valid()
      ensures vals == old(vals)[k := v]
      ensures keys == if k in old(vals) then old(keys) else old(keys) + [k]
    {
      if k !in vals {
        keys := keys + [k];
      }
      vals := vals[k := v];
    }

    /** `Array.from(values())`. */
    function Values(): (r: seq<string>)
      reads this
      requires Valid()
      ensures |r| == Size()
      ensures forall i :: 0 <= i < |r| ==> r[i] == vals[keys[i]]
    {
      ValuesOf(keys, vals)
    }
  }

  // ---------------------------------------------------------------- loading

  /** The recursion behind `MapOf`, kept free of postconditions. */
  function Load(records: seq<Record>): map<string, string> {
    if records == [] then map[]
    else Load(records[..|records| - 1])[records[|records| - 1].studentId := Token(records[|records| - 1].status)]
  }

  lemma {:induction false} LoadProperties(records: seq<Record>)
    ensures forall k :: k in Load(records) <==> exists rec :: rec in records && rec.studentId == k
    ensures forall k :: k in Load(records) ==> ParseStatus(Load(records)[k]).Some?
  {
    if records != [] {
      var last := records[|records| - 1];
      var init := records[..|records| - 1];
      LoadProperties(init);
      ParseToken(last.status);
      assert records == init + [last];
    }
  }

  /** The map `loadSessionData` builds: each student's status token, the later record winning. */
  function MapOf(records: seq<Record>): (r: map<string, string>)
    ensures forall k :: k in r <==> exists rec :: rec in records && rec.studentId == k
    ensures forall k :: k in r ==> ParseStatus(r[k]).Some?
  {
    LoadProperties(records);
    Load(records)
  }

  /** A record with no later record of the same student decides that student's status. */
  lemma LastRecordWins(records: seq<Record>, i: int)
    requires 0 <= i < |records|
    requires forall j :: i < j < |records| ==> records[j].studentId != records[i].studentId
    ensures records[i].studentId in MapOf(records)
    ensures MapOf(records)[records[i].studentId] == Token(records[i].status)
  {
    LoadLast(records, i);
  }

  lemma {:induction false} LoadLast(records: seq<Record>, i: int)
    requires 0 <= i < |records|
    requires forall j :: i < j < |records| ==> records[j].studentId != records[i].studentId
    ensures records[i].studentId in Load(records)
    ensures Load(records)[records[i].studentId] == Token(records[i].status)
  {
    var n := |records| - 1;
    if i < n {
      var init := records[..n];
      assert init[i] == records[i];
      forall j | i < j < n ensures init[j].studentId != init[i].studentId {
        assert init[j] == records[j];
      }
      LoadLast(init, i);
    }
  }

  /** `loadSessionData`: fills a new map from the session's records with `set`. */
  method LoadAttendanceMap(records: seq<Record>) returns (m: StatusMap)
    ensures fresh(m) && m.Valid()
    ensures m.vals == MapOf(records)
  {
    m := new StatusMap();
    var i := 0;
    while i < |records|
      invariant 0 <= i <= |records|
      invariant m.Valid()
      invariant m.vals == MapOf(records[..i])
    {
      assert records[..i + 1][..i] == records[..i];
      m.Set(records[i].studentId, Token(records[i].status));
      i := i + 1;
    }
    assert records[..i] == records;
  }

  /** `handleStatusChange`: a new map with one key set; the old map is left alone. */
  method HandleStatusChange(attendance: StatusMap, studentId: string, status: string) returns (next: StatusMap)
    requires attendance.Valid()
    ensures fresh(next) && next.Valid()
    ensures next.vals == attendance.vals[studentId := status]
    ensures next.keys == if studentId in attendance.vals then attendance.keys else attendance.keys + [studentId]
    ensures attendance.keys == old(attendance.keys) && attendance.vals == old(attendance.vals)
  {
    next := new StatusMap.Copy(attendance);
    next.Set(studentId, status);
  }

  // ---------------------------------------------------------------- counters

  datatype PageStats = PageStats(total: nat, present: nat, absent: nat, late: nat, excused: nat)

  /** `stats`: the roster size and the number of map values equal to each token. */
  function Counters(rosterSize: nat, values: seq<string>): (s: PageStats)
    ensures s.total == rosterSize
    ensures s.present == multiset(values)["PRESENT"] && s.absent == multiset(values)["ABSENT"]
    ensures s.late == multiset(values)["LATE"] && s.excused == multiset(values)["EXCUSED"]
    ensures s.present + s.absent + s.late + s.excused <= |values|
    ensures (forall i :: 0 <= i < |values| ==> ParseStatus(values[i]).Some?) ==>
              s.present + s.absent + s.late + s.excused == |values|
  {
    TokenCounts(values);
    PageStats(rosterSize, Occurrences(values, "PRESENT"), Occurrences(values, "ABSENT"),
              Occurrences(values, "LATE"), Occurrences(values, "EXCUSED"))
  }

  lemma {:induction false} TokenCounts(values: seq<string>)
    ensures Occurrences(values, "PRESENT") + Occurrences(values, "ABSENT")
            + Occurrences(values, "LATE") + Occurrences(values, "EXCUSED") <= |values|
    ensures (forall i :: 0 <= i < |values| ==> ParseStatus(values[i]).Some?) ==>
              Occurrences(values, "PRESENT") + Occurrences(values, "ABSENT")
              + Occurrences(values, "LATE") + Occurrences(values, "EXCUSED") == |values|
  {
    if values != [] {
      TokenCounts(values[1..]);
      if forall i :: 0 <= i < |values| ==> ParseStatus(values[i]).Some? {
        assert ParseStatus(values[0]).Some?;
        forall i | 0 <= i < |values[1..]| ensures ParseStatus(values[1..][i]).Some? {
          assert values[1..][i] == values[i + 1];
        }
      }
    }
  }

  /** Right after loading, the counters add up to the number of marked students. */
  lemma LoadedStatsAddUp(rosterSize: nat, m: StatusMap, records: seq<Record>)
    requires m.Valid() && m.vals == MapOf(records)
    ensures var s := Counters(rosterSize, m.Values());
            s.present + s.absent + s.late + s.excused == m.Size()
  {
    var values := m.Values();
    forall i | 0 <= i < |values| ensures ParseStatus(values[i]).Some? {
      assert m.keys[i] in m.vals;
    }
  }

  // ---------------------------------------------------------------- saving

  /** One element of the bulk request built by `handleSave`. */
  datatype PayloadEntry = PayloadEntry(studentId: string, status: string)

  function EntriesOf(keys: seq<string>, vals: map<string, string>): (r: seq<PayloadEntry>)
    requires forall k :: k in keys ==> k in vals
    ensures |r| == |keys|
    ensures forall i :: 0 <= i < |keys| ==> r[i] == PayloadEntry(keys[i], vals[keys[i]])
  {
    if keys == [] then [] else [PayloadEntry(keys[0], vals[keys[0]])] + EntriesOf(keys[1..], vals)
  }

  /**
   * `Array.from(attendance.entries()).map(...)`: one entry per map key in
   * insertion order, so no student id occurs twice.
   */
  function Payload(m: StatusMap): (r: seq<PayloadEntry>)
    reads m
    requires m.Valid()
    ensures |r| == m.Size()
    ensures forall i :: 0 <= i < |r| ==> r[i].studentId in m.vals && r[i].status == m.vals[r[i].studentId]
    ensures forall k :: k in m.vals <==> exists i :: 0 <= i < |r| && r[i].studentId == k
    ensures forall i, j :: 0 <= i < j < |r| ==> r[i].studentId != r[j].studentId
  {
    var r := EntriesOf(m.keys, m.vals);
    assert forall k :: k in m.vals ==> exists i :: 0 <= i < |r| && r[i].studentId == k by {
      forall k | k in m.vals ensures exists i :: 0 <= i < |r| && r[i].studentId == k {
        var i :| 0 <= i < |m.keys| && m.keys[i] == k;
        assert r[i].studentId == k;
      }
    }
    r
  }

  /** The save button's `disabled`: while saving, or with nothing marked. */
  predicate SaveDisabled(saving: bool, m: StatusMap)
    reads m
  {
    saving || m.Size() == 0
  }

  /** When not already saving, the button is disabled exactly when the payload would be empty. */
  lemma SaveDisabledIffEmptyPayload(m: StatusMap)
    requires m.Valid()
    ensures SaveDisabled(false, m) <==> Payload(m) == []
  {
  }
}
