/**
 * Sequence operations the code base uses through JavaScript arrays:
 * `filter`, `filter(...).length`, `sort` with a comparator, and a
 * list appended to itself (`push(...xs)` repeated).
 */
module Seqs {

  /** No element occurs twice. */
  ghost predicate Distinct<T>(s: seq<T>) {
    forall i, j :: 0 <= i < j < |s| ==> s[i] != s[j]
  }

  /** `a` can be obtained from `b` by deleting elements, keeping the order of the rest. */
  ghost predicate IsSubsequence<T>(a: seq<T>, b: seq<T>)
    decreases |b|
  {
    a == [] || (b != [] && ((a[0] == b[0] && IsSubsequence(a[1..], b[1..])) || IsSubsequence(a, b[1..])))
  }

  /** Every sequence is a subsequence of itself. */
  lemma {:induction false} IsSubsequenceRefl<T>(s: seq<T>)
    ensures IsSubsequence(s, s)
  {
    if s != [] {
      IsSubsequenceRefl(s[1..]);
    }
  }

  /** The recursion behind `Filter`, kept free of postconditions so that proofs unfolding it stay small. */
  function Keep<T>(s: seq<T>, p: T -> bool): seq<T> {
    if s == [] then [] else (if p(s[0]) then [s[0]] else []) + Keep(s[1..], p)
  }

  lemma KeepProperties<T(!new)>(s: seq<T>, p: T -> bool)
    ensures |Keep(s, p)| <= |s|
    ensures forall x :: x in Keep(s, p) <==> x in s && p(x)
    ensures forall i :: 0 <= i < |Keep(s, p)| ==> p(Keep(s, p)[i])
    ensures IsSubsequence(Keep(s, p), s)
    ensures multiset(Keep(s, p)) <= multiset(s)
  {
    KeepMembers(s, p);
    KeepOrder(s, p);
  }

  lemma {:induction false} KeepMembers<T(!new)>(s: seq<T>, p: T -> bool)
    ensures |Keep(s, p)| <= |s|
    ensures forall x :: x in Keep(s, p) <==> x in s && p(x)
    ensures forall i :: 0 <= i < |Keep(s, p)| ==> p(Keep(s, p)[i])
  {
    if s != [] {
      KeepMembers(s[1..], p);
      assert s == [s[0]] + s[1..];
    }
  }

  lemma {:induction false} KeepOrder<T>(s: seq<T>, p: T -> bool)
    ensures IsSubsequence(Keep(s, p), s)
    ensures multiset(Keep(s, p)) <= multiset(s)
  {
    if s != [] {
      KeepOrder(s[1..], p);
      assert s == [s[0]] + s[1..];
      var r := Keep(s, p);
      if p(s[0]) {
        assert r[0] == s[0] && r[1..] == Keep(s[1..], p);
      } else {
        assert r == Keep(s[1..], p);
      }
    }
  }

  /** `Array.prototype.filter`: the elements of `s` satisfying `p`, in their order. */
  function Filter<T(!new)>(s: seq<T>, p: T -> bool): (r: seq<T>)
    ensures |r| <= |s|
    ensures forall x :: x in r <==> x in s && p(x)
    ensures forall i :: 0 <= i < |r| ==> p(r[i])
    ensures IsSubsequence(r, s)
    ensures multiset(r) <= multiset(s)
  {
    KeepProperties(s, p);
    Keep(s, p)
  }

  /** A filter that every element passes keeps the whole sequence. */
  lemma {:induction false} FilterKeepsAll<T(!new)>(s: seq<T>, p: T -> bool)
    requires forall x :: x in s ==> p(x)
    ensures Filter(s, p) == s
  {
    if s != [] {
      FilterKeepsAll(s[1..], p);
    }
  }

  lemma {:induction false} KeepAppend<T>(a: seq<T>, b: seq<T>, p: T -> bool)
    ensures Keep(a + b, p) == Keep(a, p) + Keep(b, p)
  {
    if a == [] {
      assert a + b == b;
    } else {
      var ab := a + b;
      var h := if p(a[0]) then [a[0]] else [];
      assert ab[0] == a[0] && ab[1..] == a[1..] + b;
      assert Keep(ab, p) == h + Keep(a[1..] + b, p);
      KeepAppend(a[1..], b, p);
      assert Keep(a, p) == h + Keep(a[1..], p);
    }
  }

  /** A prefix one element longer is the prefix with that element appended. */
  lemma SliceStep<T>(s: seq<T>, j: int)
    requires 0 <= j < |s|
    ensures s[..j + 1] == s[..j] + [s[j]]
  {
  }

  lemma ConsIndex<T>(x: T, s: seq<T>, i: int)
    requires 0 < i <= |s|
    ensures ([x] + s)[i] == s[i - 1]
  {
  }

  /** Sequences with the same multiset have the same members. */
  lemma SameMembers<T>(a: seq<T>, b: seq<T>)
    requires multiset(a) == multiset(b)
    ensures forall x :: x in a <==> x in b
  {
    forall x ensures x in a <==> x in b {
      assert x in a <==> multiset(a)[x] > 0;
      assert x in b <==> multiset(b)[x] > 0;
    }
  }

  /** The tail of a duplicate-free sequence is duplicate-free and lacks the head. */
  lemma DistinctTail<T>(s: seq<T>)
    requires Distinct(s) && s != []
    ensures Distinct(s[1..]) && s[0] !in s[1..]
  {
    forall i, j | 0 <= i < j < |s[1..]| ensures s[1..][i] != s[1..][j] {
      assert s[1..][i] == s[i + 1] && s[1..][j] == s[j + 1];
    }
    forall i | 0 <= i < |s[1..]| ensures s[1..][i] != s[0] {
      assert s[1..][i] == s[i + 1];
    }
  }

  /** Without duplicates, the length of a filter is the number of distinct elements passing it. */
  lemma FilterDistinctCount<T(!new)>(s: seq<T>, q: T -> bool)
    requires Distinct(s)
    ensures |Filter(s, q)| == |Passing(s, q)|
  {
    KeepDistinctCount(s, q);
  }

  /** The set of elements of `s` passing `q`. */
  ghost function Passing<T>(s: seq<T>, q: T -> bool): set<T> {
    set x | x in s && q(x)
  }

  lemma {:induction false} KeepDistinctCount<T>(s: seq<T>, q: T -> bool)
    requires Distinct(s)
    ensures |Keep(s, q)| == |Passing(s, q)|
  {
    if s != [] {
      DistinctTail(s);
      KeepDistinctCount(s[1..], q);
      var all := Passing(s, q);
      var tail := Passing(s[1..], q);
      assert s == [s[0]] + s[1..];
      if q(s[0]) {
        assert all == tail + {s[0]};
      } else {
        assert all == tail;
      }
    }
  }

  /** Two filters in a row are one filter by the conjunction. */
  lemma {:induction false} FilterFilter<T(!new)>(s: seq<T>, p: T -> bool, q: T -> bool, pq: T -> bool)
    requires forall x :: pq(x) == (p(x) && q(x))
    ensures Filter(Filter(s, p), q) == Filter(s, pq)
  {
    KeepKeep(s, p, q, pq);
  }

  lemma {:induction false} KeepKeep<T>(s: seq<T>, p: T -> bool, q: T -> bool, pq: T -> bool)
    requires forall x :: pq(x) == (p(x) && q(x))
    ensures Keep(Keep(s, p), q) == Keep(s, pq)
  {
    if s != [] {
      KeepKeep(s[1..], p, q, pq);
      var h := if p(s[0]) then [s[0]] else [];
      KeepAppend(h, Keep(s[1..], p), q);
    }
  }

  /** Number of occurrences of `x` in `s` (`s.filter(y => y === x).length`). */
  function Occurrences<T(==)>(s: seq<T>, x: T): (n: nat)
    ensures n == multiset(s)[x]
    ensures n <= |s|
  {
    if s == [] then 0
    else
      assert s == [s[0]] + s[1..];
      (if s[0] == x then 1 else 0) + Occurrences(s[1..], x)
  }

  /** In a sequence without duplicates every value occurs at most once. */
  lemma {:induction false} DistinctOccursOnce<T>(s: seq<T>, x: T)
    requires Distinct(s)
    ensures multiset(s)[x] == if x in s then 1 else 0
  {
    if s != [] {
      assert s == [s[0]] + s[1..];
      assert Distinct(s[1..]) by {
        forall i, j | 0 <= i < j < |s[1..]| ensures s[1..][i] != s[1..][j] {
          assert s[1..][i] == s[i + 1] && s[1..][j] == s[j + 1];
        }
      }
      DistinctOccursOnce(s[1..], x);
      if s[0] == x {
        assert x !in s[1..] by {
          forall k | 0 <= k < |s[1..]| ensures s[1..][k] != x {
            assert s[1..][k] == s[k + 1];
          }
        }
      }
    }
  }

  /** A sequence whose elements occur no more often than in a duplicate-free one is duplicate-free. */
  lemma DistinctByMultiset<T>(a: seq<T>, b: seq<T>)
    requires multiset(a) <= multiset(b) && Distinct(b)
    ensures Distinct(a)
  {
    forall i, j | 0 <= i < j < |a| ensures a[i] != a[j] {
      if a[i] == a[j] {
        assert a == a[..j] + a[j..];
        assert a[i] in a[..j] && a[j] in a[j..];
        assert multiset(a)[a[i]] == multiset(a[..j])[a[i]] + multiset(a[j..])[a[i]];
        DistinctOccursOnce(b, a[i]);
      }
    }
  }

  /** `s` concatenated with itself `k` times. */
  function Repeat<T>(s: seq<T>, k: nat): (r: seq<T>)
    ensures |r| == k * |s|
  {
    if k == 0 then [] else Repeat(s, k - 1) + s
  }

  /** A filter keeps `k` times as many elements of `s` repeated `k` times. */
  lemma FilterRepeat<T(!new)>(s: seq<T>, k: nat, p: T -> bool)
    ensures |Filter(Repeat(s, k), p)| == k * |Filter(s, p)|
  {
    KeepRepeat(s, k, p);
  }

  lemma {:induction false} KeepRepeat<T>(s: seq<T>, k: nat, p: T -> bool)
    ensures |Keep(Repeat(s, k), p)| == k * |Keep(s, p)|
  {
    if k > 0 {
      KeepRepeat(s, k - 1, p);
      KeepAppend(Repeat(s, k - 1), s, p);
      var n := |Keep(s, p)|;
      assert |Keep(Repeat(s, k), p)| == (k - 1) * n + n;
      assert (k - 1) * n + n == k * n;
    }
  }

  /** `leq` relates any two values one way or the other. */
  ghost predicate Total<T(!new)>(leq: (T, T) -> bool) {
    forall a, b :: leq(a, b) || leq(b, a)
  }

  ghost predicate Transitive<T(!new)>(leq: (T, T) -> bool) {
    forall a, b, c :: leq(a, b) && leq(b, c) ==> leq(a, c)
  }

  /** Every element is `leq` its successor. */
  ghost predicate SortedBy<T>(s: seq<T>, leq: (T, T) -> bool) {
    forall i :: 0 < i < |s| ==> leq(s[i - 1], s[i])
  }

  /** Inserts `x` into the sorted `s` in front of the first element it is `leq` to. */
  function InsertBy<T(!new)>(x: T, s: seq<T>, leq: (T, T) -> bool): (r: seq<T>)
    requires Total(leq)
    requires SortedBy(s, leq)
    ensures SortedBy(r, leq)
    ensures multiset(r) == multiset(s) + multiset{x}
    ensures |r| == |s| + 1
    ensures r[0] == x || (s != [] && r[0] == s[0])
  {
    if s == [] then [x]
    else if leq(x, s[0]) then [x] + s
    else
      assert s == [s[0]] + s[1..];
      [s[0]] + InsertBy(x, s[1..], leq)
  }

  /**
   * An insertion sort under the order `leq` (`[...s].sort(cmp)`): the result
   * is a permutation of `s` and sorted.
   */
  function SortBy<T(!new)>(s: seq<T>, leq: (T, T) -> bool): (r: seq<T>)
    requires Total(leq)
    ensures SortedBy(r, leq)
    ensures multiset(r) == multiset(s)
    ensures |r| == |s|
  {
    if s == [] then []
    else
      assert s == [s[0]] + s[1..];
      InsertBy(s[0], SortBy(s[1..], leq), leq)
  }

  lemma {:induction false} SortedStep<T(!new)>(s: seq<T>, leq: (T, T) -> bool, i: int, j: int)
    requires Transitive(leq) && SortedBy(s, leq)
    requires 0 <= i < j < |s|
    ensures leq(s[i], s[j])
    decreases j - i
  {
    if j > i + 1 {
      SortedStep(s, leq, i, j - 1);
    }
  }

  /** For a transitive order, sorted by neighbours means sorted between any two positions. */
  lemma SortedPairwise<T(!new)>(s: seq<T>, leq: (T, T) -> bool)
    requires Transitive(leq) && SortedBy(s, leq)
    ensures forall i, j :: 0 <= i < j < |s| ==> leq(s[i], s[j])
  {
    forall i, j | 0 <= i < j < |s| ensures leq(s[i], s[j]) {
      SortedStep(s, leq, i, j);
    }
  }
}
