/** The dual formula a definability probe asks its questions of: the clauses, a primed copy over some
    candidate variables, and an indicator per candidate that ties it to its copy. */
module DualCnf {
  import opened Cnf
  import opened Sequences
  import opened Ordering
  import opened Counting

  const MAX_DUAL_CNF_CLAUSES: nat := 500_000

  // ---- the three id families ----

  datatype DualLayout = DualLayout(numVars: nat, numCandidates: nat) {
    function TotalVars(): nat { numVars + 2 * numCandidates }

    /** Every id the layout names can be written as a signed 32-bit literal. */
    predicate Fits() { TotalVars() <= MAX_VAR }

    function Primed(i: nat): VarId
      requires Fits() && i < numCandidates
    {
      numVars + i + 1
    }

    function Indicator(i: nat): VarId
      requires Fits() && i < numCandidates
    {
      numVars + numCandidates + i + 1
    }
  }

  /** The layout's last id is its total, so `Fits` is exactly when all ids are variables. */
  lemma LayoutFitsExactly(layout: DualLayout)
    requires layout.numVars <= MAX_VAR && layout.numCandidates > 0
    ensures layout.Fits() <==>
              forall i: nat :: i < layout.numCandidates ==> LastIdOf(layout, i) <= MAX_VAR
  {
    assert LastIdOf(layout, layout.numCandidates - 1) == layout.TotalVars();
  }

  function LastIdOf(layout: DualLayout, i: nat): nat { layout.numVars + layout.numCandidates + i + 1 }

  /** Declaring the largest variable and mentioning one leaves no room for its copy. */
  lemma LayoutOverflows()
    ensures !DualLayout(MAX_VAR, 1).Fits()
  {
  }

  ghost predicate Candidates(layout: DualLayout, cands: seq<nat>) {
    layout.Fits() && |cands| == layout.numCandidates && Increasing(cands)
    && forall i :: 0 <= i < |cands| ==> cands[i] < layout.numVars
  }

  // ---- the clauses ----

  function PrimedLit(layout: DualLayout, cands: seq<nat>, l: Literal): Literal
    requires layout.Fits() && |cands| == layout.numCandidates
  {
    if Idx(l.v) in cands then Literal(layout.Primed(IndexOf(cands, Idx(l.v))), l.positive) else l
  }

  function PrimedClause(layout: DualLayout, cands: seq<nat>, c: Clause): (r: Clause)
    requires layout.Fits() && |cands| == layout.numCandidates
    ensures |r| == |c| && forall i :: 0 <= i < |c| ==> r[i] == PrimedLit(layout, cands, c[i])
  {
    seq(|c|, i requires 0 <= i < |c| => PrimedLit(layout, cands, c[i]))
  }

  predicate HasCandidate(cands: seq<nat>, c: Clause) {
    exists i :: 0 <= i < |c| && Idx(c[i].v) in cands
  }

  function PrimedClauses(layout: DualLayout, cands: seq<nat>, cs: seq<Clause>): seq<Clause>
    requires layout.Fits() && |cands| == layout.numCandidates
  {
    if cs == [] then []
    else
      var c := cs[|cs| - 1];
      PrimedClauses(layout, cands, cs[..|cs| - 1])
          + (if HasCandidate(cands, c) then [PrimedClause(layout, cands, c)] else [])
  }

  /** `indicator -> (v <-> v')`, as two clauses. */
  function IndicatorPair(layout: DualLayout, cands: seq<nat>, i: nat): seq<Clause>
    requires Candidates(layout, cands) && i < |cands|
  {
    var v, p, d := FromIdx(cands[i]), layout.Primed(i), layout.Indicator(i);
    [[Literal(d, false), Literal(v, true), Literal(p, false)], [Literal(d, false), Literal(v, false), Literal(p, true)]]
  }

  function IndicatorClauses(layout: DualLayout, cands: seq<nat>, k: nat): seq<Clause>
    requires Candidates(layout, cands) && k <= |cands|
  {
    if k == 0 then [] else IndicatorClauses(layout, cands, k - 1) + IndicatorPair(layout, cands, k - 1)
  }

  function DualClauses(layout: DualLayout, cands: seq<nat>, cs: seq<Clause>): seq<Clause>
    requires Candidates(layout, cands)
  {
    cs + PrimedClauses(layout, cands, cs) + IndicatorClauses(layout, cands, |cands|)
  }

  method BuildDualClauses(layout: DualLayout, cands: seq<nat>, cs: seq<Clause>) returns (dual: seq<Clause>)
    requires Candidates(layout, cands)
    ensures dual == DualClauses(layout, cands, cs)
  {
    dual := cs;
    for k := 0 to |cs|
      invariant dual == cs + PrimedClauses(layout, cands, cs[..k])
    {
      assert cs[..k + 1][..k] == cs[..k];
      if HasCandidate(cands, cs[k]) { dual := dual + [PrimedClause(layout, cands, cs[k])]; }
    }
    assert cs[..|cs|] == cs;
    ghost var so := dual;
    for i := 0 to |cands|
      invariant dual == so + IndicatorClauses(layout, cands, i)
    {
      dual := dual + IndicatorPair(layout, cands, i);
    }
  }

  // ---- from a dual model to two models ----

  /** The second model a dual one carries. */
  ghost function SecondOf(layout: DualLayout, cands: seq<nat>, d: Assignment): Assignment
    requires layout.Fits() && |cands| == layout.numCandidates
  {
    set v | v in AllVars(layout.numVars) && LitTrue(d, PrimedLit(layout, cands, Literal(v, true)))
  }

  lemma PrimedLitTrue(layout: DualLayout, cands: seq<nat>, d: Assignment, l: Literal)
    requires Candidates(layout, cands) && l.v <= layout.numVars
    ensures LitTrue(d, PrimedLit(layout, cands, l)) == LitTrue(SecondOf(layout, cands, d), l)
  {
  }

  lemma PrimedClauseTrue(layout: DualLayout, cands: seq<nat>, d: Assignment, c: Clause)
    requires Candidates(layout, cands) && InRange(c, layout.numVars)
    ensures ClauseTrue(d, PrimedClause(layout, cands, c)) == ClauseTrue(SecondOf(layout, cands, d), c)
  {
    var p, b := PrimedClause(layout, cands, c), SecondOf(layout, cands, d);
    forall i | 0 <= i < |c| ensures LitTrue(d, p[i]) == LitTrue(b, c[i]) {
      assert c[i] in c;
      PrimedLitTrue(layout, cands, d, c[i]);
    }
    if ClauseTrue(d, p) {
      var l :| l in p && LitTrue(d, l);
      var i :| 0 <= i < |p| && p[i] == l;
      assert c[i] in c;
    }
    if ClauseTrue(b, c) {
      var l :| l in c && LitTrue(b, l);
      var i :| 0 <= i < |c| && c[i] == l;
      assert p[i] in p;
    }
  }

  /** A clause without candidates reads the same in both models. */
  lemma UnprimedSame(layout: DualLayout, cands: seq<nat>, d: Assignment, c: Clause)
    requires Candidates(layout, cands) && InRange(c, layout.numVars) && !HasCandidate(cands, c)
    ensures ClauseTrue(d, c) == ClauseTrue(SecondOf(layout, cands, d), c)
  {
    forall l | l in c ensures l.v in d <==> l.v in SecondOf(layout, cands, d) {
      var i :| 0 <= i < |c| && c[i] == l;
      assert PrimedLit(layout, cands, Literal(l.v, true)) == Literal(l.v, true);
    }
    ClauseDependsOnItsVars(d, SecondOf(layout, cands, d), c);
  }

  lemma {:induction false} PrimedClausesTrue(layout: DualLayout, cands: seq<nat>, d: Assignment, cs: seq<Clause>)
    requires Candidates(layout, cands) && (forall c :: c in cs ==> InRange(c, layout.numVars)) && Satisfies(d, cs)
    ensures Satisfies(d, PrimedClauses(layout, cands, cs)) <==> Satisfies(SecondOf(layout, cands, d), cs)
  {
    if cs != [] {
      var front, last := cs[..|cs| - 1], cs[|cs| - 1];
      PrimedClausesTrue(layout, cands, d, front);
      PrimedClauseTrue(layout, cands, d, last);
      if !HasCandidate(cands, last) { UnprimedSame(layout, cands, d, last); }
      assert last in cs;
      SatisfiesSplit(SecondOf(layout, cands, d), front, last);
      SatisfiesSplit(d, PrimedClauses(layout, cands, front), PrimedClause(layout, cands, last));
      assert cs == front + [last];
    }
  }

  lemma SatisfiesSplit(a: Assignment, front: seq<Clause>, last: Clause)
    ensures Satisfies(a, front + [last]) <==> Satisfies(a, front) && ClauseTrue(a, last)
  {
    assert forall c :: c in front + [last] <==> c in front || c == last;
  }

  lemma SatisfiesSum(a: Assignment, left: seq<Clause>, right: seq<Clause>)
    ensures Satisfies(a, left + right) <==> Satisfies(a, left) && Satisfies(a, right)
  {
    assert forall c :: c in left + right <==> c in left || c in right;
  }

  /** An indicator that is true ties a candidate to its copy. */
  ghost predicate Tied(layout: DualLayout, cands: seq<nat>, d: Assignment, i: nat)
    requires Candidates(layout, cands) && i < |cands|
  {
    layout.Indicator(i) in d ==> (FromIdx(cands[i]) in d <==> layout.Primed(i) in d)
  }

  lemma IndicatorPairTrue(layout: DualLayout, cands: seq<nat>, d: Assignment, i: nat)
    requires Candidates(layout, cands) && i < |cands|
    ensures Satisfies(d, IndicatorPair(layout, cands, i)) <==> Tied(layout, cands, d, i)
  {
    var pair := IndicatorPair(layout, cands, i);
    var c0, c1 := pair[0], pair[1];
    assert Satisfies(d, pair) <==> ClauseTrue(d, c0) && ClauseTrue(d, c1) by { assert c0 in pair && c1 in pair; }
    ThreeLiterals(d, c0);
    ThreeLiterals(d, c1);
  }

  lemma ThreeLiterals(d: Assignment, c: Clause)
    requires |c| == 3
    ensures ClauseTrue(d, c) <==> LitTrue(d, c[0]) || LitTrue(d, c[1]) || LitTrue(d, c[2])
  {
    assert c[0] in c && c[1] in c && c[2] in c;
  }

  lemma {:induction false} IndicatorClausesTrue(layout: DualLayout, cands: seq<nat>, d: Assignment, k: nat)
    requires Candidates(layout, cands) && k <= |cands|
    ensures Satisfies(d, IndicatorClauses(layout, cands, k)) <==> forall i :: 0 <= i < k ==> Tied(layout, cands, d, i)
  {
    if k > 0 {
      IndicatorClausesTrue(layout, cands, d, k - 1);
      IndicatorPairTrue(layout, cands, d, k - 1);
      SatisfiesSum(d, IndicatorClauses(layout, cands, k - 1), IndicatorPair(layout, cands, k - 1));
    }
  }

  /** A dual assignment satisfies the dual formula exactly when both its halves satisfy the clauses and
      its indicators tell the truth. */
  lemma DualMeaning(layout: DualLayout, cands: seq<nat>, d: Assignment, cs: seq<Clause>)
    requires Candidates(layout, cands) && forall c :: c in cs ==> InRange(c, layout.numVars)
    ensures Satisfies(d, DualClauses(layout, cands, cs)) <==>
              && Satisfies(d, cs) && Satisfies(SecondOf(layout, cands, d), cs)
              && forall i :: 0 <= i < |cands| ==> Tied(layout, cands, d, i)
  {
    SatisfiesSum(d, cs + PrimedClauses(layout, cands, cs), IndicatorClauses(layout, cands, |cands|));
    SatisfiesSum(d, cs, PrimedClauses(layout, cands, cs));
    IndicatorClausesTrue(layout, cands, d, |cands|);
    if Satisfies(d, cs) { PrimedClausesTrue(layout, cands, d, cs); }
  }

  // ---- from two models to a dual model ----

  ghost predicate Agree(a: Assignment, b: Assignment, v: VarId) { v in a <==> v in b }

  /** The dual assignment carrying two given ones: `a`, `b` on the primed copies, and the indicators of
      the candidates they agree on. */
  ghost function Pair(layout: DualLayout, cands: seq<nat>, a: Assignment, b: Assignment): Assignment
    requires Candidates(layout, cands)
  {
    (a * AllVars(layout.numVars))
    + (set i | i in Slots(layout) && FromIdx(cands[i]) in b :: layout.Primed(i))
    + (set i | i in Slots(layout) && Agree(a, b, FromIdx(cands[i])) :: layout.Indicator(i))
  }

  ghost function Slots(layout: DualLayout): set<nat> {
    ToSet(Range(layout.numCandidates))
  }

  lemma PairMembers(layout: DualLayout, cands: seq<nat>, a: Assignment, b: Assignment, i: nat, v: VarId)
    requires Candidates(layout, cands) && i < |cands| && v <= layout.numVars
    ensures v in Pair(layout, cands, a, b) <==> v in a
    ensures layout.Primed(i) in Pair(layout, cands, a, b) <==> FromIdx(cands[i]) in b
    ensures layout.Indicator(i) in Pair(layout, cands, a, b) <==> Agree(a, b, FromIdx(cands[i]))
  {
    assert Range(layout.numCandidates)[i] == i && i in Slots(layout);
  }

  /** The two halves of the pair are the two assignments, when they agree off the candidates. */
  lemma PairHalves(layout: DualLayout, cands: seq<nat>, a: Assignment, b: Assignment, v: VarId)
    requires Candidates(layout, cands) && v <= layout.numVars
    requires Idx(v) !in cands ==> Agree(a, b, v)
    ensures v in Pair(layout, cands, a, b) <==> v in a
    ensures v in SecondOf(layout, cands, Pair(layout, cands, a, b)) <==> v in b
  {
    if Idx(v) in cands {
      PairMembers(layout, cands, a, b, IndexOf(cands, Idx(v)), v);
    } else {
      assert v in AllVars(layout.numVars);
    }
  }

  /** Two models that agree off the candidates make a dual model. */
  lemma PairIsDual(layout: DualLayout, cands: seq<nat>, a: Assignment, b: Assignment, cs: seq<Clause>)
    requires Candidates(layout, cands) && forall c :: c in cs ==> InRange(c, layout.numVars)
    requires Satisfies(a, cs) && Satisfies(b, cs)
    requires forall v: VarId :: v <= layout.numVars && Idx(v) !in cands ==> Agree(a, b, v)
    ensures Satisfies(Pair(layout, cands, a, b), DualClauses(layout, cands, cs))
  {
    hide Pair, SecondOf;
    var d := Pair(layout, cands, a, b);
    forall c | c in cs ensures ClauseTrue(d, c) && ClauseTrue(SecondOf(layout, cands, d), c) {
      forall l | l in c ensures (l.v in d <==> l.v in a) && (l.v in SecondOf(layout, cands, d) <==> l.v in b) {
        PairHalves(layout, cands, a, b, l.v);
      }
      ClauseDependsOnItsVars(d, a, c);
      ClauseDependsOnItsVars(SecondOf(layout, cands, d), b, c);
    }
    forall i | 0 <= i < |cands| ensures Tied(layout, cands, d, i) {
      PairMembers(layout, cands, a, b, i, FromIdx(cands[i]));
    }
    DualMeaning(layout, cands, d, cs);
  }
}
