/**
  Facts about the level-0 sequence of values: sortedness under `<`, the
  number of values below a probe, and insertion and removal at a position.
 */
module Ordering {

  /** The values at positions i < j are in non-decreasing order (trivially so if i, j do not fit). */
  ghost predicate InOrder(s: seq<int>, i: int, j: int) {
    0 <= i < j < |s| ==> s[i] <= s[j]
  }

  /**
    Non-decreasing; equal values may sit side by side. Stated through
    InOrder so that a proof uses it only for the pairs it names.
   */
  ghost predicate Sorted(s: seq<int>) {
    forall i, j {:trigger InOrder(s, i, j)} :: InOrder(s, i, j)
  }

  /** No value occurs twice (with Sorted: strictly increasing). */
  ghost predicate Distinct(s: seq<int>) {
    forall i, j :: 0 <= i < j < |s| ==> s[i] != s[j]
  }

  /** The number of values among the first n of `s` that are less than `v`. */
  function CountBelow(s: seq<int>, v: int, n: nat): (c: nat)
    requires n <= |s|
    ensures c <= n
  {
    if n == 0 then 0 else CountBelow(s, v, n - 1) + (if s[n - 1] < v then 1 else 0)
  }

  /** The number of values of `s` that are less than `v`. */
  function CountLess(s: seq<int>, v: int): (c: nat)
    ensures c <= |s|
  {
    CountBelow(s, v, |s|)
  }

  function InsertAt<T>(s: seq<T>, p: nat, x: T): (r: seq<T>)
    requires p <= |s|
    ensures |r| == |s| + 1
    ensures forall i :: 0 <= i < p ==> r[i] == s[i]
    ensures r[p] == x
    ensures forall i :: p < i <= |s| ==> r[i] == s[i - 1]
  {
    s[..p] + [x] + s[p..]
  }

  function RemoveAt<T>(s: seq<T>, p: nat): (r: seq<T>)
    requires p < |s|
    ensures |r| == |s| - 1
    ensures forall i :: 0 <= i < p ==> r[i] == s[i]
    ensures forall i :: p <= i < |s| - 1 ==> r[i] == s[i + 1]
  {
    s[..p] + s[p + 1..]
  }

  /** In a sorted sequence the values below `v` among the first n are the first CountBelow(s, v, n). */
  lemma {:induction false} SortedSplitBelow(s: seq<int>, v: int, n: nat)
    requires Sorted(s) && n <= |s|
    ensures forall i :: 0 <= i < CountBelow(s, v, n) ==> s[i] < v
    ensures forall i :: CountBelow(s, v, n) <= i < n ==> v <= s[i]
  {
    if n > 0 {
      SortedSplitBelow(s, v, n - 1);
      if s[n - 1] < v {
        forall i | 0 <= i < n - 1 ensures s[i] < v {
          assert InOrder(s, i, n - 1);
        }
      }
    }
  }

  /** In a sorted sequence the values below `v` are exactly the first CountLess(s, v). */
  lemma SortedSplit(s: seq<int>, v: int)
    requires Sorted(s)
    ensures forall i :: 0 <= i < CountLess(s, v) ==> s[i] < v
    ensures forall i :: CountLess(s, v) <= i < |s| ==> v <= s[i]
  {
    SortedSplitBelow(s, v, |s|);
  }

  /** Inserting `v` in front of the first value not below it keeps the sequence sorted. */
  lemma InsertSorted(s: seq<int>, v: int)
    requires Sorted(s)
    ensures Sorted(InsertAt(s, CountLess(s, v), v))
  {
    SortedSplit(s, v);
    var c := CountLess(s, v);
    var r := InsertAt(s, c, v);
    forall i, j ensures InOrder(r, i, j) {
      if 0 <= i < j < |r| && i != c && j != c {
        assert InOrder(s, if i < c then i else i - 1, if j < c then j else j - 1);
      }
    }
  }

  lemma RemoveSorted(s: seq<int>, p: nat)
    requires Sorted(s) && p < |s|
    ensures Sorted(RemoveAt(s, p))
  {
    var r := RemoveAt(s, p);
    forall i, j ensures InOrder(r, i, j) {
      var i' := if i < p then i else i + 1;
      var j' := if j < p then j else j + 1;
      assert InOrder(s, i', j');
    }
  }

  /**
    A value is in a sorted sequence exactly when the first value not below it
    equals it.
   */
  lemma FirstNotLess(s: seq<int>, v: int)
    requires Sorted(s)
    ensures v in s <==> CountLess(s, v) < |s| && s[CountLess(s, v)] == v
  {
    SortedSplit(s, v);
    if v in s {
      var i :| 0 <= i < |s| && s[i] == v;
      assert CountLess(s, v) <= i;
      assert InOrder(s, CountLess(s, v), i);
    }
  }

  /** With distinct values, the only position holding v is CountLess(s, v). */
  lemma DistinctPosition(s: seq<int>, i: nat)
    requires Sorted(s) && Distinct(s) && i < |s|
    ensures CountLess(s, s[i]) == i
  {
    SortedSplit(s, s[i]);
    var c := CountLess(s, s[i]);
    assert c <= i && (c < |s| ==> s[i] <= s[c]);
    assert InOrder(s, c, i);
  }
}
