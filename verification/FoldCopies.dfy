/** Exactly which batches of folds keep every weight: each eliminated variable must arrive in a survivor once. */
module FoldCopies {
  import opened Cnf
  import opened Counting
  import opened WeightFold

  /** How often the weight standing at a variable before the folds is a factor of a survivor's weight after them. */
  ghost function Copies(folds: seq<EquivFold>, live: set<VarId>, v: VarId): nat {
    if folds == [] then (if v in live then 1 else 0)
    else
      Copies(folds[1..], live, v)
      + (if folds[0].eliminated == v then Copies(folds[1..], live, folds[0].survivor.v) else 0)
  }

  ghost predicate ArrivesOnce(folds: seq<EquivFold>, n: nat)
    requires n <= MAX_VAR
  {
    forall v :: v in Gone(folds) ==> Copies(folds, AllVars(n) - Gone(folds), v) == 1
  }

  /** The assignment weighs as much before the folds as its survivors do after. */
  ghost predicate Keeps(t: Table, folds: seq<EquivFold>, a: Assignment)
    requires |t| <= MAX_VAR && InTable(folds, |t|)
  {
    Product(t, a, AllVars(|t|), |t|) == Product(FoldAll(t, folds), a, AllVars(|t|) - Gone(folds), |t|)
  }

  // ---- products of powers ----

  ghost function Power(x: real, k: nat): real { if k == 0 then 1.0 else Mul(Power(x, k - 1), x) }

  lemma {:induction false} PowerTimes(x: real, y: real, k: nat)
    ensures Power(Mul(x, y), k) == Mul(Power(x, k), Power(y, k))
  {
    hide Mul;
    MulOne(1.0);
    if k > 0 {
      PowerTimes(x, y, k - 1);
      var p, q := Power(x, k - 1), Power(y, k - 1);
      MulAssociates(Mul(p, q), x, y);
      MulSwaps(p, q, x);
      MulAssociates(Mul(p, x), q, y);
    }
  }

  lemma {:induction false} PowerPlus(x: real, j: nat, k: nat)
    ensures Power(x, j + k) == Mul(Power(x, j), Power(x, k))
  {
    hide Mul;
    MulOne(Power(x, j));
    if k > 0 {
      PowerPlus(x, j, k - 1);
      MulAssociates(Power(x, j), Power(x, k - 1), x);
    }
  }

  lemma {:induction false} PowerOfTwo(k: nat)
    ensures Power(2.0, k) >= 1.0 && (Power(2.0, k) == 2.0 <==> k == 1)
    ensures k > 1 ==> Power(2.0, k) > 2.0
  {
    if k > 0 {
      PowerOfTwo(k - 1);
      assert Power(2.0, k) == Power(2.0, k - 1) * 2.0;
    }
  }

  ghost function PowProduct(w: seq<real>, c: seq<nat>): real
    requires |w| == |c|
  {
    if w == [] then 1.0
    else
      var n := |w| - 1;
      Mul(PowProduct(w[..n], c[..n]), Power(w[n], c[n]))
  }

  /** A factor in one entry comes out as often as its exponent says. */
  lemma {:induction false} FactorOut(w: seq<real>, c: seq<nat>, s: nat, x: real)
    requires s < |w| == |c|
    ensures PowProduct(w[s := Mul(w[s], x)], c) == Mul(PowProduct(w, c), Power(x, c[s]))
  {
    hide Mul, Power;
    var n := |w| - 1;
    var front, w' := PowProduct(w[..n], c[..n]), w[s := Mul(w[s], x)];
    if s == n {
      assert w'[..n] == w[..n];
      PowerTimes(w[s], x, c[s]);
      MulAssociates(front, Power(w[s], c[s]), Power(x, c[s]));
    } else {
      assert w'[..n] == w[..n][s := Mul(w[..n][s], x)];
      FactorOut(w[..n], c[..n], s, x);
      MulSwaps(front, Power(x, c[s]), Power(w[n], c[n]));
    }
  }

  lemma {:induction false} RaiseExponent(w: seq<real>, c: seq<nat>, e: nat, m: nat)
    requires e < |w| == |c|
    ensures PowProduct(w, c[e := c[e] + m]) == Mul(PowProduct(w, c), Power(w[e], m))
  {
    hide Mul, Power;
    var n := |w| - 1;
    var front, c' := PowProduct(w[..n], c[..n]), c[e := c[e] + m];
    if e == n {
      assert c'[..n] == c[..n];
      PowerPlus(w[e], c[e], m);
      MulAssociates(front, Power(w[e], c[e]), Power(w[e], m));
    } else {
      assert c'[..n] == c[..n][e := c[..n][e] + m];
      RaiseExponent(w[..n], c[..n], e, m);
      MulSwaps(front, Power(w[e], m), Power(w[n], c[n]));
    }
  }

  lemma {:induction false} OnesProduct(n: nat, w: seq<real>, c: seq<nat>)
    requires |w| == |c| == n && forall i :: 0 <= i < n ==> Power(w[i], c[i]) == 1.0
    ensures PowProduct(w, c) == 1.0
  {
    if n > 0 { OnesProduct(n - 1, w[..n - 1], c[..n - 1]); }
  }

  lemma {:induction false} PowerOfOne(k: nat)
    ensures Power(1.0, k) == 1.0
  {
    if k > 0 { PowerOfOne(k - 1); }
  }

  // ---- the folds on exponents ----

  /** The weights the assignment picks. */
  ghost function Picked(t: Table, a: Assignment): (w: seq<real>)
    requires |t| <= MAX_VAR
    ensures |w| == |t|
  {
    seq(|t|, i requires 0 <= i < |t| => LiteralWeight(t, a, FromIdx(i)))
  }

  ghost function AllCopies(folds: seq<EquivFold>, live: set<VarId>, n: nat): (c: seq<nat>)
    requires n <= MAX_VAR
    ensures |c| == n
  {
    seq(n, i requires 0 <= i < n => Copies(folds, live, FromIdx(i)))
  }

  lemma {:induction false} ProductIsPowers(t: Table, a: Assignment, live: set<VarId>, k: nat)
    requires k <= |t| <= MAX_VAR
    ensures Product(t, a, live, k) == PowProduct(Picked(t, a)[..k], AllCopies([], live, |t|)[..k])
  {
    if k > 0 {
      var w, c := Picked(t, a), AllCopies([], live, |t|);
      ProductIsPowers(t, a, live, k - 1);
      assert w[..k][..k - 1] == w[..k - 1] && c[..k][..k - 1] == c[..k - 1];
      assert w[..k][k - 1] == LiteralWeight(t, a, k) && c[..k][k - 1] == if k in live then 1 else 0;
      assert Power(w[k - 1], 1) == Mul(Power(w[k - 1], 0), w[k - 1]) == w[k - 1];
    }
  }

  /** On values a fold multiplies one entry by another, on exponents it adds one to the other. */
  lemma OneFold(t: Table, folds: seq<EquivFold>, a: Assignment, live: set<VarId>)
    requires |t| <= MAX_VAR && InTable(folds, |t|) && folds != [] && RespectsFold(a, folds[0])
    ensures PowProduct(Picked(Folded(t, t[Idx(folds[0].eliminated)], folds[0].survivor), a),
                       AllCopies(folds[1..], live, |t|))
         == PowProduct(Picked(t, a), AllCopies(folds, live, |t|))
  {
    hide PowProduct, Power, Mul;
    var f := folds[0];
    var e, s := Idx(f.eliminated), Idx(f.survivor.v);
    var w, c := Picked(t, a), AllCopies(folds[1..], live, |t|);
    var t' := Folded(t, t[e], f.survivor);
    FoldedWeight(t, f, a);
    assert Picked(t', a) == w[s := Mul(w[s], w[e])];
    assert AllCopies(folds, live, |t|) == c[e := c[e] + c[s]];
    FactorOut(w, c, s, w[e]);
    RaiseExponent(w, c, e, c[s]);
  }

  lemma {:induction false} FoldAllFirst(t: Table, folds: seq<EquivFold>)
    requires InTable(folds, |t|) && folds != []
    ensures InTable(folds[1..], |t|)
    ensures FoldAll(t, folds)
         == FoldAll(Folded(t, t[Idx(folds[0].eliminated)], folds[0].survivor), folds[1..])
  {
    hide Folded;
    var n := |folds| - 1;
    if n == 0 {
      FoldNothing(t);
      assert folds[..0] == [] && folds[1..] == [];
    } else {
      FoldAllFirst(t, folds[..n]);
      assert folds[..n][1..] == folds[1..][..n - 1] && folds[..n][0] == folds[0];
    }
  }

  /** After all folds a survivor's weight is the product of what arrived in it. */
  lemma {:induction false} FoldsArrive(t: Table, folds: seq<EquivFold>, a: Assignment, live: set<VarId>)
    requires |t| <= MAX_VAR && InTable(folds, |t|) && Respects(a, folds)
    ensures PowProduct(Picked(FoldAll(t, folds), a), AllCopies([], live, |t|))
         == PowProduct(Picked(t, a), AllCopies(folds, live, |t|))
    decreases |folds|
  {
    hide PowProduct, Picked, AllCopies, RespectsFold, Folded;
    if folds == [] {
      FoldNothing(t);
    } else {
      FoldAllFirst(t, folds);
      assert folds[0] in folds && forall f :: f in folds[1..] ==> f in folds;
      OneFold(t, folds, a, live);
      FoldsArrive(Folded(t, t[Idx(folds[0].eliminated)], folds[0].survivor), folds[1..], a, live);
    }
  }

  /** A variable that is never eliminated arrives once, as itself. */
  lemma {:induction false} SurvivorArrives(folds: seq<EquivFold>, live: set<VarId>, v: VarId)
    requires v in live && v !in Gone(folds)
    ensures Copies(folds, live, v) == 1
  {
    if folds != [] {
      assert folds[0] in folds && forall f :: f in folds[1..] ==> f in folds;
      SurvivorArrives(folds[1..], live, v);
    }
  }

  // ---- exactly when every weight is kept ----

  lemma KeepsByPowers(t: Table, folds: seq<EquivFold>, a: Assignment)
    requires |t| <= MAX_VAR && InTable(folds, |t|) && Respects(a, folds)
    ensures Keeps(t, folds, a)
       <==> PowProduct(Picked(t, a), AllCopies([], AllVars(|t|), |t|))
            == PowProduct(Picked(t, a), AllCopies(folds, AllVars(|t|) - Gone(folds), |t|))
  {
    hide PowProduct, Picked, AllCopies, Product, Respects;
    var n, live := |t|, AllVars(|t|) - Gone(folds);
    ProductIsPowers(t, a, AllVars(n), n);
    ProductIsPowers(FoldAll(t, folds), a, live, n);
    FoldsArrive(t, folds, a, live);
    Whole(Picked(t, a), AllCopies([], AllVars(n), n));
    Whole(Picked(FoldAll(t, folds), a), AllCopies([], live, n));
  }

  lemma Whole(w: seq<real>, c: seq<nat>)
    requires |w| == |c|
    ensures w[..|w|] == w && c[..|w|] == c
  {
  }

  /** All weights 1 but one variable's, which are 2. */
  function Heavy(n: nat, v: nat): (t: Table)
    requires v < n
    ensures |t| == n
  {
    seq(n, i => if i == v then (2.0, 2.0) else (1.0, 1.0))
  }

  lemma HeavyPowers(n: nat, v: nat, a: Assignment, c: seq<nat>)
    requires v < n == |c| && n <= MAX_VAR
    ensures PowProduct(Picked(Heavy(n, v), a), c) == Power(2.0, c[v])
  {
    hide Power, PowProduct, Mul;
    var ones: seq<real> := seq(n, _ => 1.0);
    MulOne(2.0);
    assert Picked(Heavy(n, v), a) == ones[v := Mul(ones[v], 2.0)];
    MulOne(Power(2.0, c[v]));
    forall i | 0 <= i < n ensures Power(ones[i], c[i]) == 1.0 { PowerOfOne(c[i]); }
    OnesProduct(n, ones, c);
    FactorOut(ones, c, v, 2.0);
  }

  /** A batch of folds keeps every weight of an assignment that respects it exactly when each eliminated variable's
      weight arrives in a survivor once, neither lost nor counted again. */
  lemma FoldsKeepExactly(folds: seq<EquivFold>, a: Assignment, n: nat)
    requires n <= MAX_VAR && InTable(folds, n) && Respects(a, folds)
    ensures (forall t: Table :: |t| == n ==> Keeps(t, folds, a)) <==> ArrivesOnce(folds, n)
  {
    hide PowProduct, Picked, Respects, Keeps, Gone, Power;
    var live := AllVars(n) - Gone(folds);
    var once, c := AllCopies([], AllVars(n), n), AllCopies(folds, live, n);
    assert forall i :: 0 <= i < n ==> once[i] == 1;
    if ArrivesOnce(folds, n) {
      forall i | 0 <= i < n ensures c[i] == 1 {
        if FromIdx(i) !in Gone(folds) { SurvivorArrives(folds, live, FromIdx(i)); }
      }
      assert c == once;
      forall t: Table | |t| == n ensures Keeps(t, folds, a) { KeepsByPowers(t, folds, a); }
    } else {
      GoneInRange(folds, n);
      var v :| v in Gone(folds) && Copies(folds, live, v) != 1;
      var t := Heavy(n, Idx(v));
      KeepsByPowers(t, folds, a);
      HeavyPowers(n, Idx(v), a, once);
      HeavyPowers(n, Idx(v), a, c);
      PowerOfTwo(c[Idx(v)]);
      PowerOfTwo(1);
      assert !Keeps(t, folds, a);
    }
  }

  /** Folding each variable once, and never into one already gone, is enough. */
  lemma ValidArrivesOnce(folds: seq<EquivFold>, n: nat)
    requires n <= MAX_VAR && InTable(folds, n) && FoldsValid(folds)
    ensures ArrivesOnce(folds, n)
  {
    hide Respects, FoldsValid, Product, ArrivesOnce;
    var a := Extend({}, folds);
    ExtendRespects({}, folds);
    forall t: Table | |t| == n ensures Keeps(t, folds, a) { FoldKeepsWeight(t, folds, a); }
    FoldsKeepExactly(folds, a, n);
  }
}
