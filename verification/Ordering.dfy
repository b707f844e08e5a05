/** Sorting under a total order, bags of sequences, and permutations. */
module Ordering {
  import opened Sequences

  // ---- strict total orders ----

  ghost predicate StrictTotal<T(!new)>(lt: (T, T) -> bool) {
    && (forall x :: !lt(x, x))
    && (forall x, y, z :: lt(x, y) && lt(y, z) ==> lt(x, z))
    && (forall x, y :: lt(x, y) || x == y || lt(y, x))
  }

  /** Lexicographic order of sequences, a proper prefix first. */
  predicate LexLess<T(==)>(lt: (T, T) -> bool, s: seq<T>, t: seq<T>) {
    if t == [] then false
    else if s == [] then true
    else lt(s[0], t[0]) || (s[0] == t[0] && LexLess(lt, s[1..], t[1..]))
  }

  function Lex<T(==)>(lt: (T, T) -> bool): (seq<T>, seq<T>) -> bool {
    (s, t) => LexLess(lt, s, t)
  }

  lemma {:induction false} LexIrreflexive<T(!new)>(lt: (T, T) -> bool, s: seq<T>)
    requires StrictTotal(lt)
    ensures !LexLess(lt, s, s)
  {
    if s != [] { LexIrreflexive(lt, s[1..]); }
  }

  lemma {:induction false} LexTransitive<T(!new)>(lt: (T, T) -> bool, s: seq<T>, t: seq<T>, u: seq<T>)
    requires StrictTotal(lt) && LexLess(lt, s, t) && LexLess(lt, t, u)
    ensures LexLess(lt, s, u)
  {
    if s != [] && s[0] == t[0] && t[0] == u[0] { LexTransitive(lt, s[1..], t[1..], u[1..]); }
  }

  lemma {:induction false} LexTrichotomy<T(!new)>(lt: (T, T) -> bool, s: seq<T>, t: seq<T>)
    requires StrictTotal(lt)
    ensures LexLess(lt, s, t) || s == t || LexLess(lt, t, s)
  {
    if s != [] && t != [] && s[0] == t[0] {
      LexTrichotomy(lt, s[1..], t[1..]);
      assert s == [s[0]] + s[1..] && t == [t[0]] + t[1..];
    }
  }

  lemma LexIsStrictTotal<T(!new)>(lt: (T, T) -> bool)
    requires StrictTotal(lt)
    ensures StrictTotal(Lex(lt))
  {
    var lex := Lex(lt);
    forall x ensures !lex(x, x) { LexIrreflexive(lt, x); }
    forall x, y, z | lex(x, y) && lex(y, z) ensures lex(x, z) { LexTransitive(lt, x, y, z); }
    forall x, y ensures lex(x, y) || x == y || lex(y, x) { LexTrichotomy(lt, x, y); }
  }

  // ---- sorting ----

  ghost predicate Sorted<T>(s: seq<T>, lt: (T, T) -> bool) {
    forall i, j :: 0 <= i < j < |s| ==> !lt(s[j], s[i])
  }

  ghost predicate StrictlySorted<T>(s: seq<T>, lt: (T, T) -> bool) {
    forall i, j :: 0 <= i < j < |s| ==> lt(s[i], s[j])
  }

  function Insert<T>(x: T, s: seq<T>, lt: (T, T) -> bool): (r: seq<T>)
    ensures multiset(r) == multiset(s) + multiset{x}
    ensures |r| == |s| + 1
  {
    if s == [] then [x]
    else if lt(x, s[|s| - 1]) then
      assert s == s[..|s| - 1] + [s[|s| - 1]];
      Insert(x, s[..|s| - 1], lt) + [s[|s| - 1]]
    else s + [x]
  }

  function Sort<T>(s: seq<T>, lt: (T, T) -> bool): (r: seq<T>)
    ensures multiset(r) == multiset(s)
    ensures |r| == |s|
  {
    if s == [] then []
    else
      assert s == s[..|s| - 1] + [s[|s| - 1]];
      Insert(s[|s| - 1], Sort(s[..|s| - 1], lt), lt)
  }

  lemma SameBagSameMembers<T(!new)>(s: seq<T>, t: seq<T>)
    requires multiset(s) == multiset(t)
    ensures forall x :: x in s <==> x in t
  {
    forall x ensures x in s <==> x in t {
      assert x in multiset(s) <==> x in multiset(t);
    }
  }

  lemma {:induction false} InsertSorted<T(!new)>(x: T, s: seq<T>, lt: (T, T) -> bool)
    requires StrictTotal(lt) && Sorted(s, lt)
    ensures Sorted(Insert(x, s, lt), lt)
  {
    if s != [] {
      var front, last := s[..|s| - 1], s[|s| - 1];
      if lt(x, last) {
        InsertSorted(x, front, lt);
        var r := Insert(x, front, lt);
        forall i | 0 <= i < |r| ensures !lt(last, r[i]) {
          assert r[i] in multiset(r);
          assert r[i] == x || r[i] in front;
        }
      } else {
        forall i | 0 <= i < |s| ensures !lt(x, s[i]) {
          if i < |s| - 1 { assert !lt(last, s[i]); }
        }
      }
    }
  }

  lemma {:induction false} SortSorts<T(!new)>(s: seq<T>, lt: (T, T) -> bool)
    requires StrictTotal(lt)
    ensures Sorted(Sort(s, lt), lt)
    ensures forall x :: x in Sort(s, lt) <==> x in s
  {
    if s != [] {
      SortSorts(s[..|s| - 1], lt);
      InsertSorted(s[|s| - 1], Sort(s[..|s| - 1], lt), lt);
    }
    SameBagSameMembers(Sort(s, lt), s);
  }

  lemma LastIsGreatest<T(!new)>(s: seq<T>, lt: (T, T) -> bool, x: T)
    requires StrictTotal(lt) && Sorted(s, lt) && x in s
    ensures !lt(s[|s| - 1], x)
  {
    var i :| 0 <= i < |s| && s[i] == x;
  }

  /** A bag has one sorted listing. */
  lemma {:induction false} SortedIsUnique<T(!new)>(a: seq<T>, b: seq<T>, lt: (T, T) -> bool)
    requires StrictTotal(lt) && Sorted(a, lt) && Sorted(b, lt) && multiset(a) == multiset(b)
    ensures a == b
  {
    assert |multiset(a)| == |multiset(b)|;
    if a != [] {
      var n := |a| - 1;
      SortedLastsAgree(a, b, lt);
      FrontBag(a);
      FrontBag(b);
      SortedIsUnique(a[..n], b[..n], lt);
      assert a == a[..n] + [a[n]] && b == b[..n] + [b[n]];
    }
  }

  lemma FrontBag<T>(s: seq<T>)
    requires s != []
    ensures multiset(s[..|s| - 1]) == multiset(s) - multiset{s[|s| - 1]}
  {
    assert s == s[..|s| - 1] + [s[|s| - 1]];
  }

  lemma SortedLastsAgree<T(!new)>(a: seq<T>, b: seq<T>, lt: (T, T) -> bool)
    requires StrictTotal(lt) && Sorted(a, lt) && Sorted(b, lt) && multiset(a) == multiset(b)
    requires a != [] && |a| == |b|
    ensures a[|a| - 1] == b[|b| - 1]
  {
    SameBagSameMembers(a, b);
    var x, y := a[|a| - 1], b[|b| - 1];
    assert x in a && y in b;
    LastIsGreatest(a, lt, y);
    LastIsGreatest(b, lt, x);
  }

  /** Sorting sees the bag and nothing else. */
  lemma SortDependsOnBag<T(!new)>(s: seq<T>, t: seq<T>, lt: (T, T) -> bool)
    requires StrictTotal(lt) && multiset(s) == multiset(t)
    ensures Sort(s, lt) == Sort(t, lt)
  {
    SortSorts(s, lt);
    SortSorts(t, lt);
    SortedIsUnique(Sort(s, lt), Sort(t, lt), lt);
  }

  lemma {:induction false} DedupStrict<T(!new)>(s: seq<T>, lt: (T, T) -> bool)
    requires StrictTotal(lt) && Sorted(s, lt)
    ensures StrictlySorted(Dedup(s), lt)
  {
    if s != [] {
      var front, last := s[..|s| - 1], s[|s| - 1];
      DedupStrict(front, lt);
      var d := Dedup(front);
      if front != [] && d[|d| - 1] != last {
        assert d[|d| - 1] == s[|s| - 2];
        forall i | 0 <= i < |d| ensures lt(d[i], last) {
          assert !lt(last, s[|s| - 2]);
          assert i < |d| - 1 ==> lt(d[i], d[|d| - 1]);
        }
      }
    }
  }

  /** The distinct elements in order. */
  function Ranked<T(==,!new)>(s: seq<T>, lt: (T, T) -> bool): seq<T> {
    Dedup(Sort(s, lt))
  }

  lemma RankedMeaning<T(!new)>(s: seq<T>, lt: (T, T) -> bool)
    requires StrictTotal(lt)
    ensures StrictlySorted(Ranked(s, lt), lt)
    ensures forall x :: x in Ranked(s, lt) <==> x in s
  {
    SortSorts(s, lt);
    DedupStrict(Sort(s, lt), lt);
  }

  // ---- bags and permutations ----

  lemma {:induction false} DistinctBag<T>(s: seq<T>)
    requires Distinct(s)
    ensures multiset(s) == multiset(ToSet(s))
  {
    if s != [] {
      var front, last := s[..|s| - 1], s[|s| - 1];
      DistinctBag(front);
      assert s == front + [last];
      assert ToSet(s) == ToSet(front) + {last} && last !in ToSet(front);
    }
  }

  function Map<A, B>(f: A -> B, s: seq<A>): (r: seq<B>)
    ensures |r| == |s| && forall i :: 0 <= i < |s| ==> r[i] == f(s[i])
  {
    seq(|s|, i requires 0 <= i < |s| => f(s[i]))
  }

  lemma SplitBag<T>(s: seq<T>, j: nat)
    requires j < |s|
    ensures multiset(s) == multiset(s[..j]) + multiset{s[j]} + multiset(s[j + 1..])
  {
    assert s == s[..j] + ([s[j]] + s[j + 1..]);
  }

  lemma BagWithout<T>(s: seq<T>, j: nat)
    requires j < |s|
    ensures multiset(s) == multiset(s[..j] + s[j + 1..]) + multiset{s[j]}
  {
    SplitBag(s, j);
  }

  lemma RemoveOne<A, B>(f: A -> B, s: seq<A>, j: nat)
    requires j < |s|
    ensures multiset(s) == multiset(s[..j] + s[j + 1..]) + multiset{s[j]}
    ensures multiset(Map(f, s)) == multiset(Map(f, s[..j] + s[j + 1..])) + multiset{f(s[j])}
  {
    BagWithout(s, j);
    var m := Map(f, s);
    BagWithout(m, j);
    assert m[..j] + m[j + 1..] == Map(f, s[..j] + s[j + 1..]);
  }

  /** Mapping equal bags gives equal bags. */
  lemma {:induction false} MapBag<A, B>(f: A -> B, s: seq<A>, t: seq<A>)
    requires multiset(s) == multiset(t)
    ensures multiset(Map(f, s)) == multiset(Map(f, t))
  {
    assert |multiset(s)| == |multiset(t)|;
    if s != [] {
      var n := |s| - 1;
      assert s[n] in multiset(t);
      var j :| 0 <= j < |t| && t[j] == s[n];
      RemoveOne(f, s, n);
      RemoveOne(f, t, j);
      var s', t' := s[..n] + s[n + 1..], t[..j] + t[j + 1..];
      assert multiset(s') == multiset(s) - multiset{s[n]} && multiset(t') == multiset(t) - multiset{s[n]};
      MapBag(f, s', t');
    } else {
      assert t == [];
    }
  }

  function Range(n: nat): (r: seq<nat>)
    ensures |r| == n && forall i :: 0 <= i < n ==> r[i] == i
  {
    seq(n, i requires 0 <= i => i)
  }

  ghost predicate IsPermutation(p: seq<nat>, n: nat) {
    |p| == n && Distinct(p) && forall i :: 0 <= i < n ==> p[i] < n
  }

  lemma SubsetOfSameSize<T>(a: set<T>, b: set<T>)
    requires a <= b && |a| == |b|
    ensures a == b
  {
    assert |b - a| == |b| - |a|;
    assert b - a == {};
  }

  lemma PermutationBag(p: seq<nat>, n: nat)
    requires IsPermutation(p, n)
    ensures multiset(p) == multiset(Range(n))
    ensures forall x: nat :: x < n ==> x in p
  {
    DistinctCardinality(p);
    DistinctCardinality(Range(n));
    forall x | x in p ensures x in Range(n) { assert Range(n)[x] == x; }
    SubsetOfSameSize(ToSet(p), ToSet(Range(n)));
    DistinctBag(p);
    DistinctBag(Range(n));
    forall x: nat | x < n ensures x in p {
      assert Range(n)[x] == x;
      assert x in ToSet(Range(n));
    }
  }

  lemma BagOfRangePermutes(p: seq<nat>, n: nat)
    requires multiset(p) == multiset(Range(n))
    ensures IsPermutation(p, n)
  {
    assert |multiset(p)| == |multiset(Range(n))|;
    SameBagSameMembers(p, Range(n));
    forall i | 0 <= i < n ensures p[i] < n { assert p[i] in p; }
    BagDistinct(Range(n), p);
  }

  /** A listing of the bag of a distinct sequence is distinct. */
  lemma BagDistinct<T>(a: seq<T>, b: seq<T>)
    requires Distinct(a) && multiset(a) == multiset(b)
    ensures Distinct(b)
  {
    DistinctBag(a);
    forall i, j | 0 <= i < j < |b| ensures b[i] != b[j] {
      if b[i] == b[j] {
        TwiceInBag(b, i, j);
        assert false;
      }
    }
  }

  lemma TwiceInBag<T>(p: seq<T>, i: nat, j: nat)
    requires i < j < |p| && p[i] == p[j]
    ensures multiset(p)[p[i]] >= 2
  {
    assert p == p[..i] + [p[i]] + p[i + 1..j] + [p[j]] + p[j + 1..];
  }

  function At<T>(s: seq<T>, fallback: T): nat -> T {
    (i: nat) => if i < |s| then s[i] else fallback
  }

  /** The same entries at permuted places form the same bag. */
  lemma PermutedBag<T>(a: seq<T>, b: seq<T>, p: seq<nat>)
    requires IsPermutation(p, |b|) && |a| == |b| && forall i :: 0 <= i < |a| ==> a[i] == b[p[i]]
    ensures multiset(a) == multiset(b)
  {
    if b != [] {
      PermutationBag(p, |b|);
      var f := At(b, b[0]);
      MapBag(f, p, Range(|b|));
      assert Map(f, p) == a;
      assert Map(f, Range(|b|)) == b;
    }
  }

  function Sum(s: seq<nat>): nat {
    if s == [] then 0 else Sum(s[..|s| - 1]) + s[|s| - 1]
  }

  lemma {:induction false} SumWithout(s: seq<nat>, j: nat)
    requires j < |s|
    ensures Sum(s) == Sum(s[..j] + s[j + 1..]) + s[j]
  {
    var rest := s[..j] + s[j + 1..];
    if j == |s| - 1 {
      assert rest == s[..j];
    } else {
      SumWithout(s[..|s| - 1], j);
      assert rest[..|rest| - 1] == s[..|s| - 1][..j] + s[..|s| - 1][j + 1..];
    }
  }

  lemma {:induction false} SumOfBag(s: seq<nat>, t: seq<nat>)
    requires multiset(s) == multiset(t)
    ensures Sum(s) == Sum(t)
  {
    hide Sum;
    assert |multiset(s)| == |multiset(t)|;
    if s != [] {
      var n := |s| - 1;
      assert s[n] in multiset(t);
      var j :| 0 <= j < |t| && t[j] == s[n];
      SumWithout(s, n);
      SumWithout(t, j);
      var id := (x: nat) => x;
      RemoveOne(id, s, n);
      RemoveOne(id, t, j);
      var s', t' := s[..n] + s[n + 1..], t[..j] + t[j + 1..];
      assert multiset(s') == multiset(s) - multiset{s[n]} && multiset(t') == multiset(t) - multiset{s[n]};
      SumOfBag(s', t');
    } else {
      assert t == [];
    }
  }

  // ---- colours as ranks ----

  /** The place of an element in a listing that holds it. */
  function IndexOf<T(==)>(s: seq<T>, x: T): (i: nat)
    requires x in s
    ensures i < |s| && s[i] == x
  {
    if s[|s| - 1] == x then |s| - 1 else
      assert s == s[..|s| - 1] + [s[|s| - 1]];
      IndexOf(s[..|s| - 1], x)
  }

  // ---- maps between finite sets ----

  lemma {:induction false} ImageAtMost<A, B>(s: set<A>, f: A -> B)
    ensures |set x | x in s :: f(x)| <= |s|
  {
    if s != {} {
      var x0 :| x0 in s;
      ImageAtMost(s - {x0}, f);
      assert (set x | x in s :: f(x)) == (set x | x in s - {x0} :: f(x)) + {f(x0)};
    }
  }

  lemma OntoIsNoLarger<A, B>(s: set<A>, t: set<B>, f: A -> B)
    requires forall b :: b in t ==> exists a :: a in s && f(a) == b
    ensures |t| <= |s|
  {
    ImageAtMost(s, f);
    var image := set a | a in s :: f(a);
    forall b | b in t ensures b in image {
      var a :| a in s && f(a) == b;
    }
    SubsetIsNoLarger(t, image);
  }

  lemma {:induction false} ToSetAtMost<T>(s: seq<T>)
    ensures |ToSet(s)| <= |s|
  {
    if s != [] {
      var front := s[..|s| - 1];
      ToSetAtMost(front);
      assert ToSet(s) == ToSet(front) + {s[|s| - 1]};
    }
  }

  /** A map onto a set no smaller is one-to-one. */
  lemma OntoSameSizeIsInjective<A, B>(s: set<A>, t: set<B>, f: A -> B, x: A, y: A)
    requires forall b :: b in t ==> exists a :: a in s && f(a) == b
    requires |s| <= |t| && x in s && y in s && f(x) == f(y)
    ensures x == y
  {
    if x != y {
      var rest := s - {x};
      ImageAtMost(rest, f);
      var image := set a | a in rest :: f(a);
      forall b | b in t ensures b in image {
        var a :| a in s && f(a) == b;
        if a == x { assert y in rest && f(y) == b; }
      }
      SubsetIsNoLarger(t, image);
      assert false;
    }
  }

  lemma SubsetIsNoLarger<T>(a: set<T>, b: set<T>)
    requires a <= b
    ensures |a| <= |b|
  {
    assert b == a + (b - a);
  }
}
