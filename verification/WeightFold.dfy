/** Weights of variables that equivalences remove, multiplied into those that stay. */
module WeightFold {
  import opened Cnf
  import opened Counting

  /** `(w-, w+)` per variable. */
  type Table = seq<(real, real)>

  /** One equivalence: a variable and the literal it always equals. */
  datatype EquivFold = EquivFold(eliminated: VarId, survivor: Literal)

  /** Multiplication by name, so that a proof about long products can leave it unopened. */
  function Mul(x: real, y: real): real { x * y }

  /** Both sides multiplied. */
  function Times(a: (real, real), b: (real, real)): (real, real) { (Mul(a.0, b.0), Mul(a.1, b.1)) }

  /** The table with a pair of weights multiplied into a survivor, the sides swapped for a negative literal. */
  function Folded(t: Table, pair: (real, real), surv: Literal): (r: Table)
    requires Idx(surv.v) < |t|
    ensures |r| == |t|
  {
    var s := Idx(surv.v);
    t[s := Times(t[s], if surv.positive then pair else (pair.1, pair.0))]
  }

  ghost predicate InTable(folds: seq<EquivFold>, n: nat) {
    forall k :: 0 <= k < |folds| ==> Idx(folds[k].eliminated) < n && Idx(folds[k].survivor.v) < n
  }

  /** Each member's weights as they then stand go into its survivor, in order. */
  function FoldAll(t: Table, folds: seq<EquivFold>): (r: Table)
    requires InTable(folds, |t|)
    ensures |r| == |t|
  {
    if folds == [] then t
    else
      var w, f := FoldAll(t, folds[..|folds| - 1]), folds[|folds| - 1];
      Folded(w, w[Idx(f.eliminated)], f.survivor)
  }

  class Weights {
    var table: Table

    constructor (t: Table)
      ensures table == t
    {
      table := t;
    }

    method FoldInto(pair: (real, real), surv: Literal)
      requires Idx(surv.v) < |table|
      modifies this
      ensures table == Folded(old(table), pair, surv)
    {
      var s := Idx(surv.v);
      if surv.positive {
        table := table[s := Times(table[s], pair)];
      } else {
        table := table[s := Times(table[s], (pair.1, pair.0))];
      }
    }

    method FoldEliminated(folds: seq<EquivFold>)
      requires InTable(folds, |table|)
      modifies this
      ensures table == FoldAll(old(table), folds)
    {
      ghost var start := table;
      for k := 0 to |folds|
        invariant |table| == |start| && table == FoldAll(start, folds[..k])
      {
        assert folds[..k + 1][..k] == folds[..k];
        var f := folds[k];
        FoldInto(table[Idx(f.eliminated)], f.survivor);
      }
      assert folds[..|folds|] == folds;
    }
  }

  // ---- what an assignment weighs ----

  function LiteralWeight(t: Table, a: Assignment, v: VarId): real
    requires Idx(v) < |t|
  {
    if v in a then t[Idx(v)].1 else t[Idx(v)].0
  }

  /** The product of the weights the assignment gives the variables of `live` among the first `k`. */
  function Product(t: Table, a: Assignment, live: set<VarId>, k: nat): real
    requires k <= |t| && k <= MAX_VAR
  {
    if k == 0 then 1.0
    else if k in live then Mul(Product(t, a, live, k - 1), LiteralWeight(t, a, k))
    else Product(t, a, live, k - 1)
  }

  lemma MulAssociates(x: real, y: real, z: real)
    ensures Mul(Mul(x, y), z) == Mul(x, Mul(y, z))
  {
  }

  lemma MulSwaps(x: real, y: real, z: real)
    ensures Mul(Mul(x, y), z) == Mul(Mul(x, z), y)
  {
  }

  lemma MulOne(x: real)
    ensures Mul(x, 1.0) == x == Mul(1.0, x)
  {
  }

  /** One variable's factor taken out of the product. */
  lemma {:induction false} TakeOut(t: Table, a: Assignment, live: set<VarId>, v: VarId, k: nat)
    requires v in live && v <= k <= |t| && k <= MAX_VAR
    ensures Product(t, a, live, k) == Mul(Product(t, a, live - {v}, k), LiteralWeight(t, a, v))
  {
    hide Mul, LiteralWeight;
    if v == k {
      NotLive(t, a, live, v, k - 1);
    } else {
      TakeOut(t, a, live, v, k - 1);
      if k in live {
        MulSwaps(Product(t, a, live - {v}, k - 1), LiteralWeight(t, a, v), LiteralWeight(t, a, k));
      }
    }
  }

  lemma {:induction false} NotLive(t: Table, a: Assignment, live: set<VarId>, v: VarId, k: nat)
    requires k < v && k <= |t| && k <= MAX_VAR
    ensures Product(t, a, live, k) == Product(t, a, live - {v}, k)
  {
    if k > 0 { NotLive(t, a, live, v, k - 1); }
  }

  /** A product reads the table only at live variables. */
  lemma {:induction false} SameWhereLive(t: Table, t': Table, a: Assignment, live: set<VarId>, k: nat)
    requires k <= |t| == |t'| && k <= MAX_VAR
    requires forall v :: v in live && v <= k ==> t[Idx(v)] == t'[Idx(v)]
    ensures Product(t, a, live, k) == Product(t', a, live, k)
  {
    if k > 0 { SameWhereLive(t, t', a, live, k - 1); }
  }

  ghost predicate RespectsFold(a: Assignment, f: EquivFold) {
    f.eliminated in a <==> LitTrue(a, f.survivor)
  }

  /** The survivor's folded weight is both weights, whichever way the equivalence goes. */
  lemma FoldedWeight(t: Table, f: EquivFold, a: Assignment)
    requires Idx(f.eliminated) < |t| && Idx(f.survivor.v) < |t| && RespectsFold(a, f)
    ensures LiteralWeight(Folded(t, t[Idx(f.eliminated)], f.survivor), a, f.survivor.v)
         == Mul(LiteralWeight(t, a, f.survivor.v), LiteralWeight(t, a, f.eliminated))
  {
    hide Mul;
  }

  /** One fold: dropping the eliminated variable loses nothing on an assignment that respects it. */
  lemma FoldStep(t: Table, f: EquivFold, a: Assignment, live: set<VarId>)
    requires |t| <= MAX_VAR && Idx(f.eliminated) < |t| && Idx(f.survivor.v) < |t| && RespectsFold(a, f)
    requires f.eliminated in live && f.survivor.v in live && f.eliminated != f.survivor.v
    ensures Product(t, a, live, |t|)
         == Product(Folded(t, t[Idx(f.eliminated)], f.survivor), a, live - {f.eliminated}, |t|)
  {
    hide Mul, Product, LiteralWeight;
    var n, e, s := |t|, f.eliminated, f.survivor.v;
    var t' := Folded(t, t[Idx(e)], f.survivor);
    var rest := live - {e} - {s};
    TakeOut(t, a, live, e, n);
    TakeOut(t, a, live - {e}, s, n);
    TakeOut(t', a, live - {e}, s, n);
    SameWhereLive(t, t', a, rest, n);
    FoldedWeight(t, f, a);
    MulAssociates(Product(t, a, rest, n), LiteralWeight(t, a, s), LiteralWeight(t, a, e));
  }

  // ---- fold sequences ----

  /** Every member is eliminated once, and nothing is folded into itself or an eliminated variable. */
  ghost predicate FoldsValid(folds: seq<EquivFold>) {
    && (forall k :: 0 <= k < |folds| ==> folds[k].eliminated != folds[k].survivor.v)
    && forall j, k :: 0 <= j < k < |folds| ==>
        folds[j].eliminated != folds[k].eliminated && folds[j].eliminated != folds[k].survivor.v
  }

  ghost function Gone(folds: seq<EquivFold>): set<VarId> {
    set f | f in folds :: f.eliminated
  }

  ghost predicate Respects(a: Assignment, folds: seq<EquivFold>) {
    forall f :: f in folds ==> RespectsFold(a, f)
  }

  /** Every assignment that satisfies the equivalences weighs as much before as its survivors do after. */
  lemma {:induction false} FoldKeepsWeight(t: Table, folds: seq<EquivFold>, a: Assignment)
    requires |t| <= MAX_VAR && InTable(folds, |t|) && FoldsValid(folds) && Respects(a, folds)
    ensures Product(t, a, AllVars(|t|), |t|) == Product(FoldAll(t, folds), a, AllVars(|t|) - Gone(folds), |t|)
  {
    hide Product, Folded, RespectsFold, Respects, Gone, FoldsValid;
    if folds == [] {
      NothingGone();
      assert AllVars(|t|) - Gone(folds) == AllVars(|t|);
    } else {
      var n := |folds| - 1;
      var front, f := folds[..n], folds[n];
      LastFold(folds, a, |t|);
      FoldKeepsWeight(t, front, a);
      var live := AllVars(|t|) - Gone(front);
      FoldStep(FoldAll(t, front), f, a, live);
      assert live - {f.eliminated} == AllVars(|t|) - Gone(folds);
    }
  }

  lemma NothingGone()
    ensures Gone([]) == {}
  {
  }

  lemma LastFold(folds: seq<EquivFold>, a: Assignment, n: nat)
    requires InTable(folds, n) && FoldsValid(folds) && Respects(a, folds) && folds != []
    ensures var front, f := folds[..|folds| - 1], folds[|folds| - 1];
            && InTable(front, n) && FoldsValid(front) && Respects(a, front) && RespectsFold(a, f)
            && f.eliminated != f.survivor.v && f.eliminated !in Gone(front) && f.survivor.v !in Gone(front)
            && Gone(folds) == Gone(front) + {f.eliminated}
  {
    var front, f := folds[..|folds| - 1], folds[|folds| - 1];
    assert folds == front + [f];
    forall g | g in front ensures g.eliminated != f.eliminated && g.eliminated != f.survivor.v && RespectsFold(a, g) {
      var j :| 0 <= j < |front| && front[j] == g;
      assert folds[j] == g && g in folds;
    }
  }

  /** Folding into a variable already eliminated loses its weight: with weights 1 and 2 throughout, 1
      folded into 2 and then 3 into 1, the assignment of all three weighs 8 before and 4 after. */
  lemma FoldIntoGoneLosesWeight()
    ensures Respects({1, 2, 3}, CHAIN) && !FoldsValid(CHAIN)
    ensures InTable(CHAIN, 3) && Product(ALIKE, {1, 2, 3}, {1, 2, 3}, 3) == 8.0
    ensures Product(FoldAll(ALIKE, CHAIN), {1, 2, 3}, {2}, 3) == 4.0
  {
    hide FoldAll, Product, Folded;
    assert CHAIN[0].eliminated == CHAIN[1].survivor.v;
    ChainFolded();
    ThreeFactors(ALIKE, {1, 2, 3}, {1, 2, 3});
    ThreeFactors(FoldAll(ALIKE, CHAIN), {1, 2, 3}, {2});
  }

  lemma ChainFolded()
    ensures InTable(CHAIN, 3) && FoldAll(ALIKE, CHAIN)[1] == (1.0, 4.0)
  {
    hide FoldAll;
    var first, second := EquivFold(1, Literal(2, true)), EquivFold(3, Literal(1, true));
    FoldNothing(ALIKE);
    FoldOneMore(ALIKE, [], first);
    FoldOneMore(ALIKE, [first], second);
    assert [] + [first] == [first] && [first] + [second] == CHAIN;
    assert Times((1.0, 2.0), (1.0, 2.0)) == (1.0, 4.0);
  }

  lemma FoldNothing(t: Table)
    ensures FoldAll(t, []) == t
  {
  }

  lemma FoldOneMore(t: Table, front: seq<EquivFold>, f: EquivFold)
    requires InTable(front, |t|) && Idx(f.eliminated) < |t| && Idx(f.survivor.v) < |t|
    ensures InTable(front + [f], |t|)
    ensures FoldAll(t, front + [f]) == Folded(FoldAll(t, front), FoldAll(t, front)[Idx(f.eliminated)], f.survivor)
  {
    assert (front + [f])[..|front|] == front;
  }

  const CHAIN := [EquivFold(1, Literal(2, true)), EquivFold(3, Literal(1, true))]
  const ALIKE: Table := [(1.0, 2.0), (1.0, 2.0), (1.0, 2.0)]

  lemma ThreeFactors(t: Table, a: Assignment, live: set<VarId>)
    requires |t| == 3
    ensures Product(t, a, live, 3) == Factor(t, a, live, 1) * Factor(t, a, live, 2) * Factor(t, a, live, 3)
  {
    assert Product(t, a, live, 1) == Factor(t, a, live, 1);
    assert Product(t, a, live, 2) == Factor(t, a, live, 1) * Factor(t, a, live, 2);
  }

  function Factor(t: Table, a: Assignment, live: set<VarId>, v: VarId): real
    requires Idx(v) < |t|
  {
    if v in live then LiteralWeight(t, a, v) else 1.0
  }

  // ---- from survivors back to all variables ----

  /** The assignment the survivors' values extend to: each eliminated variable as its literal says. */
  function Extend(b: Assignment, folds: seq<EquivFold>): Assignment {
    if folds == [] then b
    else
      var rest := Extend(b, folds[1..]);
      Set(rest, folds[0].eliminated, LitTrue(rest, folds[0].survivor))
  }

  lemma TailValid(folds: seq<EquivFold>)
    requires FoldsValid(folds) && folds != []
    ensures FoldsValid(folds[1..])
    ensures forall f :: f in folds[1..] ==> f.eliminated != folds[0].eliminated && f.survivor.v != folds[0].eliminated
    ensures Gone(folds) == Gone(folds[1..]) + {folds[0].eliminated}
  {
    assert folds == [folds[0]] + folds[1..];
    forall f | f in folds[1..] ensures f.eliminated != folds[0].eliminated && f.survivor.v != folds[0].eliminated {
      var j :| 0 <= j < |folds[1..]| && folds[1..][j] == f;
      assert folds[j + 1] == f;
    }
  }

  /** The extension satisfies every equivalence and changes no survivor. */
  lemma {:induction false} ExtendRespects(b: Assignment, folds: seq<EquivFold>)
    requires FoldsValid(folds)
    ensures Respects(Extend(b, folds), folds)
    ensures Extend(b, folds) - Gone(folds) == b - Gone(folds)
  {
    if folds != [] {
      var e := folds[0].eliminated;
      TailValid(folds);
      ExtendRespects(b, folds[1..]);
      var rest, ext := Extend(b, folds[1..]), Extend(b, folds);
      assert folds[0].eliminated != folds[0].survivor.v;
      assert ext - Gone(folds) == (rest - Gone(folds[1..])) - {e} == b - Gone(folds);
      forall f | f in folds ensures RespectsFold(ext, f) {
        if f in folds[1..] { assert RespectsFold(rest, f); } else { assert f == folds[0]; }
      }
    }
  }

  /** It is the only assignment that does. */
  lemma {:induction false} ExtendIsUnique(a: Assignment, folds: seq<EquivFold>)
    requires FoldsValid(folds) && Respects(a, folds)
    ensures Extend(a - Gone(folds), folds) == a
  {
    if folds != [] {
      var f, e := folds[0], folds[0].eliminated;
      TailValid(folds);
      var a' := a - {e};
      forall g | g in folds[1..] ensures RespectsFold(a', g) {
        assert g in folds && RespectsFold(a, g);
      }
      ExtendIsUnique(a', folds[1..]);
      assert a' - Gone(folds[1..]) == a - Gone(folds);
      assert RespectsFold(a, f) && f.eliminated != f.survivor.v by { assert folds[0] in folds; }
    }
  }

  // ---- sums over models ----

  /** The sum of a function over a finite set of assignments. */
  ghost function SumOver(s: set<Assignment>, f: Assignment -> real): real {
    if s == {} then 0.0
    else
      var x :| x in s;
      f(x) + SumOver(s - {x}, f)
  }

  /** Any element may be taken first. */
  lemma {:induction false} SumTake(s: set<Assignment>, f: Assignment -> real, x: Assignment)
    requires x in s
    ensures SumOver(s, f) == f(x) + SumOver(s - {x}, f)
  {
    var y :| y in s && SumOver(s, f) == f(y) + SumOver(s - {y}, f);
    if y != x {
      SumTake(s - {y}, f, x);
      SumTake(s - {x}, f, y);
      assert s - {y} - {x} == s - {x} - {y};
    }
  }

  /** Sums agree along a bijection that keeps the summand. */
  lemma {:induction false} SumBijection(s: set<Assignment>, t: set<Assignment>, g: Assignment -> Assignment,
                                        f: Assignment -> real, f': Assignment -> real)
    requires InjectiveOn(s, g) && t == set x | x in s :: g(x)
    requires forall x :: x in s ==> f(x) == f'(g(x))
    ensures SumOver(s, f) == SumOver(t, f')
  {
    if s == {} {
      assert t == {};
    } else {
      var x :| x in s;
      SumTake(s, f, x);
      SumTake(t, f', g(x));
      forall y | y in t - {g(x)} ensures y in set z | z in s - {x} :: g(z) {
        var z :| z in s && g(z) == y;
      }
      assert t - {g(x)} == set z | z in s - {x} :: g(z);
      SumBijection(s - {x}, t - {g(x)}, g, f, f');
    }
  }

  /** The models of a formula that also satisfy the equivalences. */
  ghost function EquivModels(cs: seq<Clause>, folds: seq<EquivFold>, n: nat): set<Assignment>
    requires n <= MAX_VAR
  {
    set a: Assignment | a <= AllVars(n) && Satisfies(a, cs) && Respects(a, folds)
  }

  /** The survivors' assignments that extend to one. */
  ghost function SurvivorModels(cs: seq<Clause>, folds: seq<EquivFold>, n: nat): set<Assignment>
    requires n <= MAX_VAR
  {
    set b: Assignment | b <= AllVars(n) - Gone(folds) && Satisfies(Extend(b, folds), cs)
  }

  lemma ModelsDrop(cs: seq<Clause>, folds: seq<EquivFold>, n: nat)
    requires n <= MAX_VAR && InTable(folds, n) && FoldsValid(folds)
    ensures SurvivorModels(cs, folds, n) == set a | a in EquivModels(cs, folds, n) :: a - Gone(folds)
    ensures InjectiveOn(EquivModels(cs, folds, n), (a: Assignment) => a - Gone(folds))
  {
    var full, kept := EquivModels(cs, folds, n), SurvivorModels(cs, folds, n);
    forall a | a in full ensures Extend(a - Gone(folds), folds) == a { ExtendIsUnique(a, folds); }
    GoneInRange(folds, n);
    forall b | b in kept ensures Extend(b, folds) in full && Extend(b, folds) - Gone(folds) == b {
      ExtendRespects(b, folds);
      assert Extend(b, folds) <= (Extend(b, folds) - Gone(folds)) + Gone(folds);
      assert b - Gone(folds) == b;
    }
  }

  lemma GoneInRange(folds: seq<EquivFold>, n: nat)
    requires n <= MAX_VAR && InTable(folds, n)
    ensures Gone(folds) <= AllVars(n)
  {
    forall v | v in Gone(folds) ensures v in AllVars(n) {
      var f :| f in folds && f.eliminated == v;
      var k :| 0 <= k < |folds| && folds[k] == f;
    }
  }

  lemma {:induction false} DroppedVars(t: Table, a: Assignment, gone: set<VarId>, live: set<VarId>, k: nat)
    requires k <= |t| && k <= MAX_VAR && live !! gone
    ensures Product(t, a - gone, live, k) == Product(t, a, live, k)
  {
    if k > 0 { DroppedVars(t, a, gone, live, k - 1); }
  }

  /** The weighted count under the equivalences is the folded weighted count over the survivors. */
  lemma FoldedCount(cs: seq<Clause>, t: Table, folds: seq<EquivFold>)
    requires |t| <= MAX_VAR && InTable(folds, |t|) && FoldsValid(folds)
    ensures SumOver(EquivModels(cs, folds, |t|), a => Product(t, a, AllVars(|t|), |t|))
         == SumOver(SurvivorModels(cs, folds, |t|), b => Product(FoldAll(t, folds), b, AllVars(|t|) - Gone(folds), |t|))
  {
    var n, live := |t|, AllVars(|t|) - Gone(folds);
    var f: Assignment -> real := a => Product(t, a, AllVars(n), n);
    var f': Assignment -> real := b => Product(FoldAll(t, folds), b, live, n);
    var g := (a: Assignment) => a - Gone(folds);
    ModelsDrop(cs, folds, n);
    forall a | a in EquivModels(cs, folds, n) ensures f(a) == f'(g(a)) {
      FoldKeepsWeight(t, folds, a);
      DroppedVars(FoldAll(t, folds), a, Gone(folds), live, n);
    }
    SumBijection(EquivModels(cs, folds, n), SurvivorModels(cs, folds, n), g, f, f');
  }
}
