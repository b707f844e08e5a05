/** Variables, literals, clauses and formulas, their meaning, and the canonical form of a clause. */
module Cnf {
  import opened Wrappers
  import opened Sequences

  /** The largest variable both DIMACS polarities can write, `i32::MAX`. */
  const MAX_VAR: int := 0x7FFF_FFFF

  /** A variable as DIMACS numbers it; 0 is not one. */
  type VarId = n: int | 1 <= n <= MAX_VAR witness 1

  /** Where a table by variable keeps this one. */
  function Idx(v: VarId): nat { v - 1 }

  function FromIdx(i: nat): VarId
    requires i < MAX_VAR
  {
    i + 1
  }

  datatype Literal = Literal(v: VarId, positive: bool) {
    function Negated(): Literal { Literal(v, !positive) }
  }

  type Clause = seq<Literal>

  /** `numVars` may exceed the number of variables that occur. */
  datatype Formula = Formula(numVars: nat, clauses: seq<Clause>)

  ghost predicate InRange(c: Clause, n: nat) {
    forall l :: l in c ==> l.v <= n
  }

  /** Every variable written is within the declared ones. */
  ghost predicate WellFormed(f: Formula) {
    f.numVars <= MAX_VAR && forall c :: c in f.clauses ==> InRange(c, f.numVars)
  }

  predicate Mentions(c: Clause, v: VarId) {
    Literal(v, true) in c || Literal(v, false) in c
  }

  // ---- meaning ----

  /** An assignment is the set of the variables it makes true. */
  type Assignment = set<VarId>

  predicate LitTrue(a: Assignment, l: Literal) {
    (l.v in a) == l.positive
  }

  predicate ClauseTrue(a: Assignment, c: Clause) {
    exists l :: l in c && LitTrue(a, l)
  }

  predicate Satisfies(a: Assignment, cs: seq<Clause>) {
    forall c :: c in cs ==> ClauseTrue(a, c)
  }

  /** `a` with `v` set to `value`. */
  function Set(a: Assignment, v: VarId, value: bool): Assignment {
    if value then a + {v} else a - {v}
  }

  /** The two assignments agree on every variable outside `free`. */
  ghost predicate AgreeOff(a: Assignment, b: Assignment, free: set<VarId>) {
    a - free == b - free
  }

  /** Assignments that agree on a clause's variables agree on the clause. */
  lemma ClauseDependsOnItsVars(a: Assignment, b: Assignment, c: Clause)
    requires forall l :: l in c ==> (l.v in a <==> l.v in b)
    ensures ClauseTrue(a, c) == ClauseTrue(b, c)
  {
    if ClauseTrue(a, c) {
      var l :| l in c && LitTrue(a, l);
      assert LitTrue(b, l);
    }
    if ClauseTrue(b, c) {
      var l :| l in c && LitTrue(b, l);
      assert LitTrue(a, l);
    }
  }

  // ---- canonical clauses ----

  /** Sort key of a literal: by variable, the positive literal first. */
  function LitKey(l: Literal): int {
    2 * l.v + (if l.positive then 0 else 1)
  }

  function VarKey(l: Literal): int { l.v }

  /** Strictly increasing by variable, so each variable occurs once. */
  ghost predicate Canonical(c: Clause) {
    forall i, j :: 0 <= i < j < |c| ==> c[i].v < c[j].v
  }

  predicate AdjacentSameVar(c: Clause) {
    exists i :: 0 <= i < |c| - 1 && c[i].v == c[i + 1].v
  }

  /** The clause in canonical form, or `None` for a tautology. */
  function Normalize(c: Clause): Option<Clause> {
    var d := Dedup(SortBy(c, LitKey));
    if AdjacentSameVar(d) then None else Some(d)
  }

  ghost predicate Complementary(c: Clause) {
    exists l: Literal :: l in c && l.Negated() in c
  }

  /** A canonical clause holds no complementary pair. */
  lemma CanonicalNotComplementary(c: Clause)
    requires Canonical(c)
    ensures !Complementary(c)
  {
    forall i, j | 0 <= i < |c| && 0 <= j < |c| ensures c[j] != c[i].Negated() {
      if i != j { assert c[i].v != c[j].v; }
    }
  }

  /** Strictly increasing by literal key: canonical, or two neighbours are complementary. */
  lemma KeyIncreasing(d: Clause)
    requires forall i, j :: 0 <= i < j < |d| ==> LitKey(d[i]) < LitKey(d[j])
    ensures if AdjacentSameVar(d) then Complementary(d) else Canonical(d)
  {
    if AdjacentSameVar(d) {
      var i :| 0 <= i < |d| - 1 && d[i].v == d[i + 1].v;
      assert LitKey(d[i]) < LitKey(d[i + 1]);
      assert d[i] in d && d[i].Negated() in d;
    } else {
      forall i, j | 0 <= i < j < |d| ensures d[i].v < d[j].v {
        assert LitKey(d[i]) < LitKey(d[i + 1]) && d[i].v != d[i + 1].v;
        if i + 1 < j { assert LitKey(d[i + 1]) < LitKey(d[j]); }
      }
    }
  }

  /** What normalizing means: the same literals in canonical order, refused exactly for a tautology. */
  lemma NormalizeMeaning(c: Clause)
    ensures Normalize(c).None? <==> Complementary(c)
    ensures Normalize(c).Some? ==>
              Canonical(Normalize(c).value) && forall l :: l in Normalize(c).value <==> l in c
  {
    var s := SortBy(c, LitKey);
    SortByMeaning(c, LitKey);
    DedupSorted(s, LitKey);
    var d := Dedup(s);
    assert forall l :: l in d <==> l in c;
    KeyIncreasing(d);
    if !AdjacentSameVar(d) { CanonicalNotComplementary(d); }
  }

  /** Any canonical clause with the literals of `c` is the normal form of `c`. */
  lemma NormalFormIs(c: Clause, r: Clause)
    requires Canonical(r)
    requires forall l :: l in r <==> l in c
    ensures Normalize(c) == Some(r)
  {
    NormalizeMeaning(c);
    CanonicalNotComplementary(r);
    IncreasingByUnique(Normalize(c).value, r, VarKey);
  }

  /** Normalizing keeps the models, and refuses only what every assignment satisfies. */
  lemma NormalizeKeepsModels(a: Assignment, c: Clause)
    ensures ClauseTrue(a, c) == (Normalize(c).Some? ==> ClauseTrue(a, Normalize(c).value))
  {
    NormalizeMeaning(c);
    if Normalize(c).None? {
      var l: Literal :| l in c && l.Negated() in c;
      assert LitTrue(a, l) || LitTrue(a, l.Negated());
    }
  }

  // ---- resolution ----

  function Without(c: Clause, pivot: VarId): (r: Clause)
    ensures forall l :: l in r <==> l in c && l.v != pivot
  {
    if c == [] then []
    else Without(c[..|c| - 1], pivot) + (if c[|c| - 1].v == pivot then [] else [c[|c| - 1]])
  }

  /** The resolvent as the concatenate-and-normalize definition gives it. */
  function Resolve(a: Clause, b: Clause, pivot: VarId): Option<Clause> {
    Normalize(Without(a, pivot) + Without(b, pivot))
  }

  lemma WithoutCanonical(c: Clause, pivot: VarId)
    requires Canonical(c)
    ensures Canonical(Without(c, pivot))
  {
    if c != [] {
      var front := c[..|c| - 1];
      WithoutCanonical(front, pivot);
      var w := Without(front, pivot);
      forall i | 0 <= i < |w| ensures w[i].v < c[|c| - 1].v {
        assert w[i] in front;
      }
    }
  }

  ghost predicate AllBelow(c: Clause, v: VarId) {
    forall l :: l in c ==> l.v < v
  }

  /** The merge loop's invariant: `out` is the canonical merge of the two prefixes without the
      pivot's literals, and each prefix lies below what the other clause has left. */
  ghost predicate Merged(out: Clause, a: Clause, b: Clause, i: nat, j: nat, pivot: VarId)
    requires i <= |a| && j <= |b|
  {
    && Canonical(out)
    && (forall l :: l in out <==> (l in a[..i] || l in b[..j]) && l.v != pivot)
    && (j < |b| ==> AllBelow(a[..i], b[j].v))
    && (i < |a| ==> AllBelow(b[..j], a[i].v))
  }

  lemma PrefixBelow(c: Clause, i: nat)
    requires Canonical(c) && i < |c|
    ensures AllBelow(c[..i], c[i].v)
    ensures forall l :: l in c[..i + 1] <==> l in c[..i] || l == c[i]
  {
    assert c[..i + 1] == c[..i] + [c[i]];
  }

  /** Taking the next literal of `a`, below everything `b` has left. */
  lemma MergeLeft(out: Clause, a: Clause, b: Clause, i: nat, j: nat, pivot: VarId)
    requires Canonical(a) && i < |a| && j < |b| && a[i].v < b[j].v
    requires Merged(out, a, b, i, j, pivot)
    ensures Merged(if a[i].v == pivot then out else out + [a[i]], a, b, i + 1, j, pivot)
  {
    PrefixBelow(a, i);
    AppendOne(out, a[i]);
    assert i + 1 < |a| ==> a[i].v < a[i + 1].v;
  }

  /** The mirror image: the next literal of `b`. */
  lemma MergeRight(out: Clause, a: Clause, b: Clause, i: nat, j: nat, pivot: VarId)
    requires Canonical(b) && i < |a| && j < |b| && b[j].v < a[i].v
    requires Merged(out, a, b, i, j, pivot)
    ensures Merged(if b[j].v == pivot then out else out + [b[j]], a, b, i, j + 1, pivot)
  {
    PrefixBelow(b, j);
    AppendOne(out, b[j]);
    assert j + 1 < |b| ==> b[j].v < b[j + 1].v;
  }

  /** Both at once: the pivot from either side, or one literal both clauses carry. */
  lemma MergeBoth(out: Clause, a: Clause, b: Clause, i: nat, j: nat, pivot: VarId)
    requires Canonical(a) && Canonical(b) && i < |a| && j < |b|
    requires a[i].v == b[j].v && (a[i].v == pivot || a[i] == b[j])
    requires Merged(out, a, b, i, j, pivot)
    ensures Merged(if a[i].v == pivot then out else out + [a[i]], a, b, i + 1, j + 1, pivot)
  {
    hide Resolve, Normalize;
    PrefixBelow(a, i);
    PrefixBelow(b, j);
    AppendOne(out, a[i]);
    assert i + 1 < |a| ==> a[i].v < a[i + 1].v;
    assert j + 1 < |b| ==> b[j].v < b[j + 1].v;
  }

  lemma AppendOne(c: Clause, l: Literal)
    ensures forall m :: m in c + [l] <==> m in c || m == l
    ensures Canonical(c) && AllBelow(c, l.v) ==> Canonical(c + [l])
  {
    if Canonical(c) && AllBelow(c, l.v) {
      forall i | 0 <= i < |c| ensures c[i].v < l.v { assert c[i] in c; }
    }
  }

  /** The rest of the one clause left over goes on the end. */
  lemma MergeTail(out: Clause, a: Clause, b: Clause, i: nat, j: nat, pivot: VarId)
    requires Canonical(a) && Canonical(b) && i <= |a| && j <= |b| && (i == |a| || j == |b|)
    requires Merged(out, a, b, i, j, pivot)
    ensures Canonical(out + Without(a[i..] + b[j..], pivot))
  {
    var tail := a[i..] + b[j..];
    assert tail == (if i == |a| then b[j..] else a[i..]);
    if tail == [] {
      assert Without(tail, pivot) == [];
    } else {
      TailAbove(out, a, b, i, j, pivot);
      WithoutCanonical(tail, pivot);
      AppendCanonical(out, Without(tail, pivot), tail[0].v);
    }
  }

  lemma TailAbove(out: Clause, a: Clause, b: Clause, i: nat, j: nat, pivot: VarId)
    requires Canonical(a) && Canonical(b) && i <= |a| && j <= |b| && (i == |a|) != (j == |b|)
    requires Merged(out, a, b, i, j, pivot)
    ensures AllBelow(out, (a[i..] + b[j..])[0].v)
    ensures forall l :: l in a[i..] + b[j..] ==> (a[i..] + b[j..])[0].v <= l.v
  {
    hide Without;
    if i < |a| {
      PrefixBelow(a, i);
      assert a[i..] + b[j..] == a[i..];
    } else {
      PrefixBelow(b, j);
      assert a[i..] + b[j..] == b[j..];
    }
  }

  lemma AppendCanonical(a: Clause, b: Clause, least: VarId)
    requires Canonical(a) && Canonical(b)
    requires AllBelow(a, least) && forall l :: l in b ==> least <= l.v
    ensures Canonical(a + b)
  {
    forall m, n | 0 <= m < |a| && 0 <= n < |b| ensures a[m].v < b[n].v {
      assert a[m] in a && b[n] in b;
    }
  }

  lemma SplitMembers(c: Clause, i: nat)
    requires i <= |c|
    ensures forall l :: l in c <==> l in c[..i] || l in c[i..]
  {
    assert c == c[..i] + c[i..];
  }

  lemma MergeComplete(out: Clause, a: Clause, b: Clause, i: nat, j: nat, pivot: VarId)
    requires Canonical(a) && Canonical(b) && i <= |a| && j <= |b| && (i == |a| || j == |b|)
    requires Merged(out, a, b, i, j, pivot)
    ensures Resolve(a, b, pivot) == Some(out + Without(a[i..] + b[j..], pivot))
  {
    MergeTail(out, a, b, i, j, pivot);
    var tail := a[i..] + b[j..];
    var whole := Without(a, pivot) + Without(b, pivot);
    var r := out + Without(tail, pivot);
    forall l ensures l in r <==> l in whole {
      SplitMembers(a, i);
      SplitMembers(b, j);
      assert l in tail <==> l in a[i..] || l in b[j..];
    }
    NormalFormIs(whole, r);
  }

  /** The resolvent of two canonical clauses by a two-pointer merge. */
  method ResolveSorted(a: Clause, b: Clause, pivot: VarId) returns (r: Option<Clause>)
    requires Canonical(a) && Canonical(b)
    ensures r == Resolve(a, b, pivot)
  {
    var out: Clause := [];
    var i, j := 0, 0;
    while i < |a| && j < |b|
      invariant 0 <= i <= |a| && 0 <= j <= |b|
      invariant Merged(out, a, b, i, j, pivot)
      decreases |a| - i + |b| - j
    {
      var x, y := a[i], b[j];
      if x.v < y.v {
        MergeLeft(out, a, b, i, j, pivot);
        if x.v != pivot { out := out + [x]; }
        i := i + 1;
      } else if x.v > y.v {
        MergeRight(out, a, b, i, j, pivot);
        if y.v != pivot { out := out + [y]; }
        j := j + 1;
      } else {
        if x.v != pivot && x.positive != y.positive {
          ComplementStops(a, b, x, pivot);
          return None;
        }
        MergeBoth(out, a, b, i, j, pivot);
        if x.v != pivot { out := out + [x]; }
        i, j := i + 1, j + 1;
      }
    }
    MergeComplete(out, a, b, i, j, pivot);
    return Some(out + Without(a[i..] + b[j..], pivot));
  }

  lemma ComplementStops(a: Clause, b: Clause, x: Literal, pivot: VarId)
    requires x in a && x.Negated() in b && x.v != pivot
    ensures Resolve(a, b, pivot) == None
  {
    var whole := Without(a, pivot) + Without(b, pivot);
    assert x in whole && x.Negated() in whole;
    NormalizeMeaning(whole);
  }

  // ---- variable lists ----

  function VarNumber(v: VarId): int { v }

  /** A variable list sorted, each variable once. */
  function SortedVars(vars: seq<VarId>): seq<VarId> {
    Dedup(SortBy(vars, VarNumber))
  }

  lemma SortedVarsMeaning(vars: seq<VarId>)
    ensures Increasing(SortedVars(vars))
    ensures forall v :: v in SortedVars(vars) <==> v in vars
  {
    var s := SortBy(vars, VarNumber);
    SortByMeaning(vars, VarNumber);
    DedupSorted(s, VarNumber);
    var d := Dedup(s);
    forall i, j | 0 <= i < j < |d| ensures d[i] < d[j] {
      assert VarNumber(d[i]) < VarNumber(d[j]);
    }
  }

  /** Any increasing list of the same variables is that list. */
  lemma SortedVarsUnique(vars: seq<VarId>, s: seq<VarId>)
    requires Increasing(s) && forall v :: v in s <==> v in vars
    ensures SortedVars(vars) == s
  {
    SortedVarsMeaning(vars);
    IncreasingByUnique(SortedVars(vars), s, VarNumber);
  }

  /** An increasing variable list reaches at least its own position. */
  lemma {:induction false} IncreasingVarsBound(s: seq<VarId>)
    requires Increasing(s)
    ensures forall i :: 0 <= i < |s| ==> s[i] >= i + 1
    ensures |s| <= MAX_VAR
  {
    if s != [] {
      var n := |s| - 1;
      IncreasingVarsBound(s[..n]);
      assert n > 0 ==> s[..n][n - 1] < s[n];
    }
  }
}
