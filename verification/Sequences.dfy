/** Sequence facts shared by the other modules: filtering, sorting by an integer key, distinctness. */
module Sequences {

  ghost predicate Distinct<T>(s: seq<T>) {
    forall i, j :: 0 <= i < j < |s| ==> s[i] != s[j]
  }

  ghost function ToSet<T>(s: seq<T>): set<T> {
    set x | x in s
  }

  /** A sequence without repeats is as long as the set of its elements. */
  lemma {:induction false} DistinctCardinality<T>(s: seq<T>)
    requires Distinct(s)
    ensures |ToSet(s)| == |s|
  {
    if s != [] {
      var front := s[..|s| - 1];
      DistinctCardinality(front);
      assert ToSet(s) == ToSet(front) + {s[|s| - 1]};
      assert s[|s| - 1] !in ToSet(front);
    }
  }

  /** Strictly increasing integers. */
  predicate Increasing(s: seq<int>) {
    forall i, j :: 0 <= i < j < |s| ==> s[i] < s[j]
  }

  /** Sorted by an integer key, ties allowed. */
  ghost predicate SortedBy<T>(s: seq<T>, key: T -> int) {
    forall i, j :: 0 <= i < j < |s| ==> key(s[i]) <= key(s[j])
  }

  /** Stable insertion: `x` goes ahead of the first element with a larger key. */
  function InsertBy<T>(x: T, s: seq<T>, key: T -> int): (r: seq<T>)
    ensures multiset(r) == multiset(s) + multiset{x}
    ensures |r| == |s| + 1
  {
    if s == [] then [x]
    else if key(x) < key(s[|s| - 1]) then
      assert s == s[..|s| - 1] + [s[|s| - 1]];
      InsertBy(x, s[..|s| - 1], key) + [s[|s| - 1]]
    else s + [x]
  }

  lemma {:induction false} InsertBySorted<T>(x: T, s: seq<T>, key: T -> int)
    requires SortedBy(s, key)
    ensures SortedBy(InsertBy(x, s, key), key)
  {
    if s != [] && key(x) < key(s[|s| - 1]) {
      var front, last := s[..|s| - 1], s[|s| - 1];
      InsertBySorted(x, front, key);
      var r := InsertBy(x, front, key);
      forall i | 0 <= i < |r| ensures key(r[i]) <= key(last) {
        assert r[i] in multiset(r);
        assert r[i] == x || r[i] in front;
      }
    }
  }

  /** The stable sort by key the Rust `sort_by_key` calls stand for. */
  function SortBy<T>(s: seq<T>, key: T -> int): (r: seq<T>)
    ensures multiset(r) == multiset(s)
    ensures |r| == |s|
  {
    if s == [] then []
    else
      assert s == s[..|s| - 1] + [s[|s| - 1]];
      InsertBy(s[|s| - 1], SortBy(s[..|s| - 1], key), key)
  }

  lemma {:induction false} SortByMeaning<T(!new)>(s: seq<T>, key: T -> int)
    ensures SortedBy(SortBy(s, key), key)
    ensures forall x :: x in SortBy(s, key) <==> x in s
  {
    if s != [] {
      SortByMeaning(s[..|s| - 1], key);
      InsertBySorted(s[|s| - 1], SortBy(s[..|s| - 1], key), key);
    }
    forall x ensures x in SortBy(s, key) <==> x in s {
      assert x in multiset(SortBy(s, key)) <==> x in multiset(s);
    }
  }

  /** Drop each element equal to the one kept just before it, as `Vec::dedup` does. */
  function Dedup<T(==,!new)>(s: seq<T>): (r: seq<T>)
    ensures s != [] ==> r != [] && r[|r| - 1] == s[|s| - 1]
    ensures forall x :: x in r <==> x in s
  {
    if s == [] then []
    else
      var front := Dedup(s[..|s| - 1]);
      var last := s[|s| - 1];
      assert s == s[..|s| - 1] + [last];
      if front != [] && front[|front| - 1] == last then front else front + [last]
  }

  ghost predicate KeyInjective<T(!new)>(key: T -> int) {
    forall x, y :: key(x) == key(y) ==> x == y
  }

  lemma {:induction false} DedupSorted<T(!new)>(s: seq<T>, key: T -> int)
    requires SortedBy(s, key) && KeyInjective(key)
    ensures forall i, j :: 0 <= i < j < |Dedup(s)| ==> key(Dedup(s)[i]) < key(Dedup(s)[j])
  {
    if s != [] {
      var front, last := s[..|s| - 1], s[|s| - 1];
      DedupSorted(front, key);
      var d := Dedup(front);
      if front != [] && d[|d| - 1] != last {
        assert d[|d| - 1] == s[|s| - 2];
        assert key(s[|s| - 2]) <= key(last);
        forall i | 0 <= i < |d| ensures key(d[i]) < key(last) {
          assert i < |d| - 1 ==> key(d[i]) < key(d[|d| - 1]);
        }
      }
    }
  }

  /** Two sequences strictly increasing by one key, with the same elements, are equal. */
  lemma {:induction false} IncreasingByUnique<T(!new)>(a: seq<T>, b: seq<T>, key: T -> int)
    requires forall i, j :: 0 <= i < j < |a| ==> key(a[i]) < key(a[j])
    requires forall i, j :: 0 <= i < j < |b| ==> key(b[i]) < key(b[j])
    requires forall x :: x in a <==> x in b
    ensures a == b
  {
    assert (a != [] ==> a[0] in a) && (b != [] ==> b[0] in b);
    if a != [] {
      var x, y := a[|a| - 1], b[|b| - 1];
      assert x in b && y in a;
      var i :| 0 <= i < |b| && b[i] == x;
      var j :| 0 <= j < |a| && a[j] == y;
      assert key(x) <= key(y) && key(y) <= key(x);
      assert i == |b| - 1;
      var a', b' := a[..|a| - 1], b[..|b| - 1];
      forall z ensures z in a' <==> z in b' {
        if z in a' {
          var k :| 0 <= k < |a'| && a'[k] == z;
          assert key(a[k]) < key(a[|a| - 1]);
          assert z in b;
        }
        if z in b' {
          var k :| 0 <= k < |b'| && b'[k] == z;
          assert key(b[k]) < key(b[|b| - 1]);
          assert z in a;
        }
      }
      IncreasingByUnique(a', b', key);
    }
  }
}
