/** Weights as a file declares them, some sides missing, and the full table made of that. */
module WeightTables {
  import opened Wrappers
  import opened Cnf
  import opened Rationals
  import W = Weights

  /** A signed DIMACS literal and its weight. */
  type WeightPair = (int, Rational)

  /** Declared sides only. */
  datatype WeightTable = WeightTable(pos: seq<Option<Rational>>, neg: seq<Option<Rational>>) {
    function Given(lit: int): Option<Rational>
      requires lit != 0
    {
      if lit > 0 then (if lit - 1 < |pos| then pos[lit - 1] else None)
      else if -lit - 1 < |neg| then neg[-lit - 1] else None
    }

    predicate Square() { |pos| == |neg| }
  }

  datatype TableError = NamesNoVariable(lit: int) | OutOfRange(lit: int) | LoneWeight(lit: int)

  /** The last weight the pairs give a literal. */
  function GivenBy(pairs: seq<WeightPair>, lit: int): Option<Rational> {
    if pairs == [] then None
    else if pairs[|pairs| - 1].0 == lit then Some(pairs[|pairs| - 1].1)
    else GivenBy(pairs[..|pairs| - 1], lit)
  }

  /** `v` and `-v`. */
  function PosLit(v: VarId): int { v }

  function NegLit(v: VarId): int { 0 - PosLit(v) }

  predicate NamesVariable(lit: int) { lit != 0 && -MAX_VAR <= lit <= MAX_VAR }

  function Magnitude(lit: int): nat { if lit < 0 then -lit else lit }

  ghost predicate PairsInRange(pairs: seq<WeightPair>, n: nat) {
    forall k :: 0 <= k < |pairs| ==> NamesVariable(pairs[k].0) && Magnitude(pairs[k].0) <= n
  }

  // ---- the missing literal ----

  /** Strictly between 0 and 1. */
  predicate InUnit(w: Rational) { 0 < w.num < w.den }

  /** `1 - w`, defined for `0 < w < 1` only. */
  function ComplementWeight(w: Rational): Option<Rational> {
    if InUnit(w) then Some(Reduced(w.den - w.num, w.den)) else None
  }

  /** The two weights sum to one, and the complement lies strictly between 0 and 1 again. */
  lemma ComplementMeaning(w: Rational)
    requires InUnit(w)
    ensures ComplementWeight(w).Some?
    ensures var c := ComplementWeight(w).value;
            c.den > 0 && InUnit(c) && c.num * w.den + w.num * c.den == c.den * w.den
  {
    var c := ComplementWeight(w).value;
    ReducedValue(w.den - w.num, w.den);
    assert c.num * w.den == (w.den - w.num) * c.den;
    Expand(c.den, w.den, w.num);
    PositiveFactor(c.num, w.den, (w.den - w.num) * c.den);
    SmallerFactor(c.num, c.den, w.den, w.num);
  }

  lemma Expand(d: int, e: int, n: int)
    ensures (e - n) * d == d * e - n * d
  {
  }

  lemma PositiveFactor(x: int, y: int, z: int)
    requires y > 0 && x * y == z
    ensures z > 0 ==> x > 0
  {
    ProductOrder(x, 0, y);
  }

  lemma ProductOrder(x: int, y: int, k: int)
    requires k > 0
    ensures x < y ==> x * k < y * k
    ensures x >= y ==> x * k >= y * k
  {
  }

  lemma SmallerFactor(x: int, d: int, e: int, n: int)
    requires e > 0 && d > 0 && 0 < n && x * e == d * e - n * d
    ensures x < d
    ensures n < e ==> x > 0
  {
    ProductOrder(x, d, e);
    ProductOrder(0, n, d);
    ProductOrder(n, e, d);
    ProductOrder(0, x, e);
    ProductOrder(x, 0, e);
  }

  /** A variable given on one literal only is given a weight that has a complement. */
  predicate LoneIsFine(wp: Option<Rational>, wn: Option<Rational>) {
    (wp.Some? && wn.None? ==> InUnit(wp.value)) && (wn.Some? && wp.None? ==> InUnit(wn.value))
  }

  // ---- building the table ----

  function Grown(side: seq<Option<Rational>>, len: nat): (r: seq<Option<Rational>>)
    ensures |r| == if |side| < len then len else |side|
  {
    if |side| < len then side + seq(len - |side|, _ => None) else side
  }

  function SetWeight(t: WeightTable, lit: int, w: Rational): (r: WeightTable)
    requires NamesVariable(lit) && t.Square()
    ensures r.Square() && |r.pos| == if |t.pos| < Magnitude(lit) then Magnitude(lit) else |t.pos|
    ensures r.Given(lit) == Some(w)
    ensures forall l: int :: l != 0 && l != lit ==> r.Given(l) == t.Given(l)
  {
    var pos, neg := Grown(t.pos, Magnitude(lit)), Grown(t.neg, Magnitude(lit));
    if lit > 0 then WeightTable(pos[lit - 1 := Some(w)], neg) else WeightTable(pos, neg[-lit - 1 := Some(w)])
  }

  ghost predicate Records(t: WeightTable, pairs: seq<WeightPair>, n: nat) {
    && t.Square() && |t.pos| <= n
    && forall l: int :: l != 0 ==> t.Given(l) == GivenBy(pairs, l)
  }

  lemma RecordsNext(t: WeightTable, pairs: seq<WeightPair>, n: nat, p: WeightPair)
    requires Records(t, pairs, n) && NamesVariable(p.0) && Magnitude(p.0) <= n
    ensures Records(SetWeight(t, p.0, p.1), pairs + [p], n)
  {
    assert (pairs + [p])[..|pairs|] == pairs;
  }

  ghost predicate NoLoneWeights(pairs: seq<WeightPair>) {
    forall v: VarId :: LoneIsFine(GivenBy(pairs, PosLit(v)), GivenBy(pairs, NegLit(v)))
  }

  /** Accepts exactly the pairs in range that leave no literal without a weight the format can derive. */
  method FromDimacsPairs(pairs: seq<WeightPair>, n: nat) returns (r: Result<WeightTable, TableError>)
    requires n <= MAX_VAR
    ensures r.Ok? <==> PairsInRange(pairs, n) && NoLoneWeights(pairs)
    ensures r.Ok? ==> Records(r.value, pairs, n)
  {
    var t := WeightTable([], []);
    for k := 0 to |pairs|
      invariant PairsInRange(pairs[..k], n) && Records(t, pairs[..k], n)
    {
      var p := pairs[k];
      assert pairs[..k + 1] == pairs[..k] + [p];
      if !NamesVariable(p.0) { return Err(NamesNoVariable(p.0)); }
      if Magnitude(p.0) > n { return Err(OutOfRange(p.0)); }
      RecordsNext(t, pairs[..k], n, p);
      t := SetWeight(t, p.0, p.1);
    }
    assert pairs[..|pairs|] == pairs;
    var lone := CheckLoneWeights(t, pairs, n);
    if lone.Err? { return Err(lone.error); }
    return Ok(t);
  }

  method CheckLoneWeights(t: WeightTable, ghost pairs: seq<WeightPair>, ghost n: nat)
    returns (r: Result<(), TableError>)
    requires Records(t, pairs, n) && n <= MAX_VAR
    ensures r.Ok? <==> NoLoneWeights(pairs)
  {
    for i := 0 to |t.pos|
      invariant forall v: VarId :: v <= i ==> LoneIsFine(GivenBy(pairs, PosLit(v)), GivenBy(pairs, NegLit(v)))
    {
      var v := FromIdx(i);
      var wp, wn := t.pos[i], t.neg[i];
      assert wp == t.Given(PosLit(v)) == GivenBy(pairs, PosLit(v))
          && wn == t.Given(NegLit(v)) == GivenBy(pairs, NegLit(v));
      if wp.Some? && wn.None? && ComplementWeight(wp.value).None? { return Err(LoneWeight(PosLit(v))); }
      if wn.Some? && wp.None? && ComplementWeight(wn.value).None? { return Err(LoneWeight(NegLit(v))); }
    }
    forall v: VarId | v > |t.pos| ensures LoneIsFine(GivenBy(pairs, PosLit(v)), GivenBy(pairs, NegLit(v))) {
      assert t.Given(PosLit(v)) == None && t.Given(NegLit(v)) == None;
    }
    return Ok(());
  }

  // ---- resolving ----

  const ONE := Rational(1, 1)

  /** What one missing side weighs, given the other. */
  function Derived(other: Option<Rational>): Rational
    requires other.Some? ==> InUnit(other.value)
  {
    if other.None? then ONE else ComplementWeight(other.value).value
  }

  /** `(w-, w+)` by the format's rule: given sides as given, an unnamed variable 1 and 1, a lone
      weight's partner its complement. */
  function ResolvedPair(wp: Option<Rational>, wn: Option<Rational>): (Rational, Rational)
    requires LoneIsFine(wp, wn)
  {
    (if wn.Some? then wn.value else Derived(wp), if wp.Some? then wp.value else Derived(wn))
  }

  ghost predicate Fine(t: WeightTable) {
    forall v: VarId :: LoneIsFine(t.Given(PosLit(v)), t.Given(NegLit(v)))
  }

  function Resolve(t: WeightTable, n: nat): (r: W.Table<Rational>)
    requires Fine(t) && n <= MAX_VAR
    ensures |r| == n
  {
    seq(n, i requires 0 <= i < n => ResolvedPair(t.Given(PosLit(FromIdx(i))), t.Given(NegLit(FromIdx(i)))))
  }

  /** Both literals of every variable the file named one of, the other resolved; the first `n` variables. */
  function DeclaredVarPairs(t: WeightTable, n: nat): seq<WeightPair>
    requires Fine(t) && n <= MAX_VAR
  {
    if n == 0 then []
    else
      var v := FromIdx(n - 1);
      var front, pair := DeclaredVarPairs(t, n - 1), ResolvedPair(t.Given(PosLit(v)), t.Given(NegLit(v)));
      if t.Given(PosLit(v)).Some? || t.Given(NegLit(v)).Some?
      then front + [(PosLit(v), pair.1), (NegLit(v), pair.0)]
      else front
  }

  method ToDeclaredVarPairs(t: WeightTable) returns (pairs: seq<WeightPair>)
    requires Fine(t) && t.Square() && |t.pos| <= MAX_VAR
    ensures pairs == DeclaredVarPairs(t, |t.pos|)
  {
    pairs := [];
    for i := 0 to |t.pos|
      invariant pairs == DeclaredVarPairs(t, i)
    {
      if t.pos[i].Some? || t.neg[i].Some? {
        var v := FromIdx(i);
        var pair := ResolvedPair(t.Given(PosLit(v)), t.Given(NegLit(v)));
        pairs := pairs + [(PosLit(v), pair.1), (NegLit(v), pair.0)];
      }
    }
  }

  /** Reading the declared pairs with no rule of one's own gives the table the format's rule resolves to. */
  lemma {:induction false} DeclaredPairsResolve(t: WeightTable, k: nat, n: nat)
    requires Fine(t) && k <= n <= MAX_VAR
    ensures W.EnterPairs(seq(n, _ => (ONE, ONE)), DeclaredVarPairs(t, k))
         == Resolve(t, n)[..k] + seq(n - k, _ => (ONE, ONE))
  {
    var start: W.Table<Rational> := seq(n, _ => (ONE, ONE));
    if k == 0 {
      assert W.EnterPairs(start, []) == start;
    } else {
      DeclaredPairsResolve(t, k - 1, n);
      var v := FromIdx(k - 1);
      var front, pair := DeclaredVarPairs(t, k - 1), ResolvedPair(t.Given(PosLit(v)), t.Given(NegLit(v)));
      var mid := Resolve(t, n)[..k - 1] + seq(n - (k - 1), _ => (ONE, ONE));
      assert Resolve(t, n)[k - 1] == pair;
      if t.Given(PosLit(v)).Some? || t.Given(NegLit(v)).Some? {
        W.EnterPairsConcat(start, front, [(PosLit(v), pair.1), (NegLit(v), pair.0)]);
        W.EnterBoth(mid, v, pair.1, pair.0);
      } else {
        assert pair == (ONE, ONE) == mid[k - 1];
      }
      assert mid[k - 1 := pair] == Resolve(t, n)[..k] + seq(n - k, _ => (ONE, ONE));
    }
  }

  /** So the sparse listing and the resolved table say the same. */
  lemma DeclaredPairsAreResolved(t: WeightTable, n: nat)
    requires Fine(t) && t.Square() && |t.pos| <= n <= MAX_VAR
    ensures W.FromDimacsPairs(DeclaredVarPairs(t, |t.pos|), n, ONE) == Resolve(t, n)
  {
    var k := |t.pos|;
    DeclaredPairsResolve(t, k, n);
    forall i | k <= i < n ensures Resolve(t, n)[i] == (ONE, ONE) {
      assert t.Given(PosLit(FromIdx(i))) == None && t.Given(NegLit(FromIdx(i))) == None;
    }
    assert Resolve(t, n)[..k] + seq(n - k, _ => (ONE, ONE)) == Resolve(t, n);
  }

  // ---- a full table, written and read back ----

  /** The written rows of a table give every literal its weight. */
  lemma {:induction false} RowsGive(w: W.Table<Rational>, lit: int)
    requires lit != 0
    ensures GivenBy(W.ToDimacsPairs(w), lit)
         == if 1 <= lit <= |w| then Some(w[lit - 1].1) else if 1 <= -lit <= |w| then Some(w[-lit - 1].0) else None
  {
    if w != [] {
      var n := |w|;
      RowsGive(w[..n - 1], lit);
      GivenByTwo(W.ToDimacsPairs(w[..n - 1]), (n, w[n - 1].1), (-n, w[n - 1].0), lit);
    }
  }

  lemma GivenByTwo(front: seq<WeightPair>, p: WeightPair, q: WeightPair, lit: int)
    ensures GivenBy(front + [p, q], lit)
         == if q.0 == lit then Some(q.1) else if p.0 == lit then Some(p.1) else GivenBy(front, lit)
  {
    var all := front + [p, q];
    assert all[..|all| - 1] == front + [p];
    assert (front + [p])[..|front|] == front;
  }

  lemma {:induction false} RowsInRange(w: W.Table<Rational>)
    requires |w| <= MAX_VAR
    ensures PairsInRange(W.ToDimacsPairs(w), |w|)
  {
    if w != [] { RowsInRange(w[..|w| - 1]); }
  }

  /** A full table survives being written and read as declarations. */
  lemma RowsRoundTrip(w: W.Table<Rational>, t: WeightTable)
    requires |w| <= MAX_VAR && Records(t, W.ToDimacsPairs(w), |w|)
    ensures PairsInRange(W.ToDimacsPairs(w), |w|) && NoLoneWeights(W.ToDimacsPairs(w))
    ensures Fine(t) && Resolve(t, |w|) == w
  {
    hide GivenBy, W.ToDimacsPairs, ResolvedPair;
    RowsInRange(w);
    forall v: VarId
      ensures LoneIsFine(GivenBy(W.ToDimacsPairs(w), PosLit(v)), GivenBy(W.ToDimacsPairs(w), NegLit(v)))
      ensures t.Given(PosLit(v)) == GivenBy(W.ToDimacsPairs(w), PosLit(v))
      ensures t.Given(NegLit(v)) == GivenBy(W.ToDimacsPairs(w), NegLit(v))
    {
      RowsGive(w, PosLit(v));
      RowsGive(w, NegLit(v));
    }
    forall i | 0 <= i < |w| ensures Resolve(t, |w|)[i] == w[i] { RowResolved(w, t, i); }
  }

  lemma RowResolved(w: W.Table<Rational>, t: WeightTable, i: nat)
    requires i < |w| <= MAX_VAR && Records(t, W.ToDimacsPairs(w), |w|) && Fine(t)
    ensures Resolve(t, |w|)[i] == w[i]
  {
    hide GivenBy, W.ToDimacsPairs;
    RowsGive(w, PosLit(FromIdx(i)));
    RowsGive(w, NegLit(FromIdx(i)));
  }
}
