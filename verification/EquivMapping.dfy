/** The mapping an equivalence table gives, and the formula over its representatives alone. */
module EquivMapping {
  import opened Wrappers
  import opened Sequences
  import opened Cnf
  import opened Counting
  import opened ComponentCount
  import opened Scc
  import opened Equivalence
  import opened Substitution

  datatype EquivMapping = EquivMapping(varToRep: RepTable, repToEquivs: map<VarId, seq<Literal>>,
                                       representatives: seq<VarId>)

  // ---- the reverse index ----

  /** The variables among the first `k` that stand for themselves, ascending. */
  function Representatives(t: RepTable, k: nat): seq<VarId>
    requires k <= |t|
  {
    if k == 0 then [] else Representatives(t, k - 1) + (if Folded(t, k - 1) then [] else [t[k - 1].v])
  }

  /** The literals over the first `k` variables folded into `r`, each equivalent to `r`'s positive literal. */
  function EquivsOf(t: RepTable, k: nat, r: VarId): seq<Literal>
    requires k <= |t| <= MAX_VAR
  {
    if k == 0 then []
    else
      EquivsOf(t, k - 1, r)
      + (if Folded(t, k - 1) && t[k - 1].v == r then [Literal(FromIdx(k - 1), t[k - 1].positive)] else [])
  }

  lemma {:induction false} RepresentativesMeaning(t: RepTable, k: nat)
    requires k <= |t| <= MAX_VAR
    ensures Increasing(Representatives(t, k))
    ensures forall v: VarId :: v in Representatives(t, k) <==> v <= k && t[Idx(v)].v == v
    ensures |Representatives(t, k)| <= k
  {
    hide SelfRepresenting;
    if k > 0 {
      RepresentativesMeaning(t, k - 1);
      var front := Representatives(t, k - 1);
      forall i | 0 <= i < |front| ensures front[i] < k { assert front[i] in front; }
    }
  }

  lemma {:induction false} EquivsMembers(t: RepTable, k: nat, r: VarId)
    requires k <= |t| <= MAX_VAR
    ensures forall l :: l in EquivsOf(t, k, r) <==>
              l.v <= k && Folded(t, Idx(l.v)) && t[Idx(l.v)] == Literal(r, l.positive)
  {
    if k > 0 { EquivsMembers(t, k - 1, r); }
  }

  /** Every variable is a representative or listed under exactly one, its own; and the listed literals
      take the representative's value wherever the table is respected. */
  lemma MappingPartitions(t: RepTable, v: VarId, r: VarId)
    requires SelfRepresenting(t) && |t| <= MAX_VAR && v <= |t|
    ensures v in Representatives(t, |t|) || t[Idx(v)].v in Representatives(t, |t|)
    ensures (exists positive :: Literal(v, positive) in EquivsOf(t, |t|, r))
       <==> v !in Representatives(t, |t|) && t[Idx(v)].v == r
    ensures forall a, l :: Respects(a, t) && l in EquivsOf(t, |t|, r) ==> (LitTrue(a, l) <==> r in a)
  {
    RepresentativesMeaning(t, |t|);
    EquivsMembers(t, |t|, r);
    if v !in Representatives(t, |t|) && t[Idx(v)].v == r {
      assert Literal(v, t[Idx(v)].positive) in EquivsOf(t, |t|, r);
    }
  }

  /** The reverse index after the first `k` variables. */
  ghost predicate Indexes(index: map<VarId, seq<Literal>>, t: RepTable, k: nat)
    requires k <= |t| <= MAX_VAR
  {
    forall r: VarId :: EquivsOf(t, k, r) == if r in index then index[r] else []
  }

  method FromVarToRep(t: RepTable) returns (m: EquivMapping)
    requires |t| <= MAX_VAR
    ensures m.varToRep == t && m.representatives == Representatives(t, |t|)
    ensures Indexes(m.repToEquivs, t, |t|) && forall r :: r in m.repToEquivs ==> m.repToEquivs[r] != []
    ensures SelfRepresenting(t) ==> forall r :: r in m.repToEquivs ==> Idx(r) < |t| && t[Idx(r)] == Literal(r, true)
  {
    hide MapLit, Indexes, EquivsOf, SelfRepresenting;
    NothingIndexed(t);
    var index: map<VarId, seq<Literal>> := map[];
    var representatives: seq<VarId> := [];
    for v := 0 to |t|
      invariant representatives == Representatives(t, v)
      invariant Indexes(index, t, v) && forall r :: r in index ==> index[r] != []
    {
      var rep := t[v];
      IndexedNext(index, t, v);
      if Idx(rep.v) == v {
        representatives := representatives + [rep.v];
      } else {
        var entry := if rep.v in index then index[rep.v] else [];
        index := index[rep.v := entry + [Literal(FromIdx(v), rep.positive)]];
      }
    }
    m := EquivMapping(t, index, representatives);
    forall r | r in index && SelfRepresenting(t) ensures Idx(r) < |t| && t[Idx(r)] == Literal(r, true) {
      IndexedIsRepresentative(index, t, r);
    }
  }

  lemma NothingIndexed(t: RepTable)
    requires |t| <= MAX_VAR
    ensures Indexes(map[], t, 0)
  {
  }

  /** One more variable: nothing changes if it represents itself, and otherwise its representative gains it. */
  lemma IndexedNext(index: map<VarId, seq<Literal>>, t: RepTable, v: nat)
    requires v < |t| <= MAX_VAR && Indexes(index, t, v)
    ensures Idx(t[v].v) == v ==> Indexes(index, t, v + 1)
    ensures Idx(t[v].v) != v ==>
              Indexes(index[t[v].v := (if t[v].v in index then index[t[v].v] else [])
                            + [Literal(FromIdx(v), t[v].positive)]], t, v + 1)
  {
  }

  lemma IndexedIsRepresentative(index: map<VarId, seq<Literal>>, t: RepTable, r: VarId)
    requires |t| <= MAX_VAR && Indexes(index, t, |t|) && SelfRepresenting(t) && r in index && index[r] != []
    ensures Idx(r) < |t| && t[Idx(r)] == Literal(r, true)
  {
    hide EquivsOf;
    EquivsMembers(t, |t|, r);
    assert index[r][0] in EquivsOf(t, |t|, r);
  }

  // ---- the reduced formula ----

  function Reduction(t: RepTable): Renumber
    requires |t| <= MAX_VAR
  {
    RepresentativesMeaning(t, |t|);
    Renumber(LocalIds(Representatives(t, |t|)), Representatives(t, |t|))
  }

  lemma ReductionNames(t: RepTable)
    requires SelfRepresenting(t) && |t| <= MAX_VAR
    ensures Names(t, Some(Reduction(t)))
    ensures Reduction(t).toNew.Keys == ToSet(Reduction(t).toOld)
    ensures InjectiveMap(Reduction(t).toNew) && Onto(Reduction(t).toNew, AllVars(|Reduction(t).toOld|))
  {
    RepresentativesMeaning(t, |t|);
    LocalIdsMeaning(Representatives(t, |t|));
    forall v | 0 <= v < |t| ensures t[v].v in Reduction(t).toNew {
      assert t[v].v in Representatives(t, |t|);
    }
  }

  method ReduceFormula(m: EquivMapping, f: Formula) returns (reduced: Formula, renumbering: Renumber)
    requires TableFits(f, m.varToRep) && m.representatives == Representatives(m.varToRep, |m.varToRep|)
    ensures SelfRepresenting(m.varToRep) && |m.varToRep| <= MAX_VAR && renumbering == Reduction(m.varToRep)
    ensures IsReduction(reduced, f, m.varToRep)
  {
    var t := m.varToRep;
    TableCovers(f, t);
    ReductionNames(t);
    RepresentativesMeaning(t, |t|);
    renumbering := OfKept(m.representatives);
    var clauses := SubstituteClauses(f.clauses, t, Some(renumbering));
    reduced := Formula(|m.representatives|, clauses);
  }

  ghost predicate IsReduction(reduced: Formula, f: Formula, t: RepTable) {
    && SelfRepresenting(t) && |t| == f.numVars <= MAX_VAR
    && (forall c :: c in f.clauses ==> InTableRange(t, c))
    && Names(t, Some(Reduction(t)))
    && reduced.numVars == |Reduction(t).toOld| <= MAX_VAR
    && reduced.clauses == Substituted(f.clauses, t, Some(Reduction(t)))
  }

  /** The model over the original variables that a reduced one stands for. */
  ghost function Expand(b: Assignment, t: RepTable): Assignment
    requires |t| <= MAX_VAR && Names(t, Some(Reduction(t)))
  {
    set v | v in AllVars(|t|) && LitTrue(b, FinalLit(t, Some(Reduction(t)), Literal(v, true)))
  }

  lemma ReduceCarries(a: Assignment, t: RepTable)
    requires SelfRepresenting(t) && Respects(a, t)
    ensures Names(t, Some(Reduction(t))) && Carries(a, Rename(a, Reduction(t).toNew), t, Some(Reduction(t)))
  {
    ReductionNames(t);
    var ids := Reduction(t).toNew;
    forall v: VarId | v <= |t|
      ensures v in a <==> LitTrue(Rename(a, ids), FinalLit(t, Some(Reduction(t)), Literal(v, true)))
    {
      RenamedLiteral(a, t[Idx(v)].v, ids);
    }
  }

  lemma ExpandCarries(b: Assignment, t: RepTable)
    requires SelfRepresenting(t) && |t| <= MAX_VAR
    ensures Names(t, Some(Reduction(t))) && Carries(Expand(b, t), b, t, Some(Reduction(t)))
  {
    ReductionNames(t);
  }

  /** Reducing a model and expanding it again gives the model back. */
  lemma ExpandUndoesReduce(a: Assignment, f: Formula, reduced: Formula, t: RepTable)
    requires TableFits(f, t) && IsReduction(reduced, f, t)
    requires a in Models(f.clauses, AllVars(f.numVars))
    ensures Rename(a, Reduction(t).toNew) in Models(reduced.clauses, AllVars(reduced.numVars))
    ensures Expand(Rename(a, Reduction(t).toNew), t) == a
  {
    ReductionNames(t);
    ModelsRespect(a, f.clauses, f.numVars, t);
    ReduceCarries(a, t);
    SubstitutedMeaning(a, Rename(a, Reduction(t).toNew), f.clauses, t, Some(Reduction(t)));
  }

  /** Expanding a reduced model gives a model, which reduces to it. */
  lemma ReduceUndoesExpand(b: Assignment, f: Formula, reduced: Formula, t: RepTable)
    requires TableFits(f, t) && IsReduction(reduced, f, t)
    requires b in Models(reduced.clauses, AllVars(reduced.numVars))
    ensures Expand(b, t) in Models(f.clauses, AllVars(f.numVars))
    ensures Rename(Expand(b, t), Reduction(t).toNew) == b
  {
    hide Substituted, Satisfies, Representatives;
    ReductionNames(t);
    ExpandCarries(b, t);
    SubstitutedMeaning(Expand(b, t), b, f.clauses, t, Some(Reduction(t)));
    RepresentativesMeaning(t, |t|);
    var ids := Reduction(t).toNew;
    forall r | r in ids ensures r in Expand(b, t) <==> ids[r] in b {
      assert r in Representatives(t, |t|);
      assert t[Idx(r)] == Literal(r, true);
    }
    forall u | u in b ensures u in Rename(Expand(b, t), ids) {
      var r :| r in ids && ids[r] == u;
    }
  }

  /** The reduced formula has as many models as the original. */
  lemma ReducedCount(f: Formula, reduced: Formula, t: RepTable)
    requires TableFits(f, t) && IsReduction(reduced, f, t)
    ensures Count(reduced) == Count(f)
  {
    var ids := Reduction(t).toNew;
    var g := (a: Assignment) => Rename(a, ids);
    var from, to := Models(f.clauses, AllVars(f.numVars)), Models(reduced.clauses, AllVars(reduced.numVars));
    forall a | a in from ensures g(a) in to { ExpandUndoesReduce(a, f, reduced, t); }
    forall a, b | a in from && b in from && g(a) == g(b) ensures a == b {
      ExpandUndoesReduce(a, f, reduced, t);
      ExpandUndoesReduce(b, f, reduced, t);
    }
    forall b | b in to ensures exists a :: a in from && g(a) == b {
      ReduceUndoesExpand(b, f, reduced, t);
      assert g(Expand(b, t)) == b;
    }
    BijectionCardinality(from, to, g);
  }

  /** The reduced formula stays within its variables. */
  lemma ReductionWellFormed(f: Formula, reduced: Formula, t: RepTable)
    requires TableFits(f, t) && IsReduction(reduced, f, t)
    ensures WellFormed(reduced)
  {
    ReductionNames(t);
    SubstitutedInRange(f.clauses, t, Some(Reduction(t)), reduced.numVars);
  }

  // ---- the whole extraction ----

  datatype EquivSccResult = Unsat | NoEquivs | Found(representative: seq<nat>, equivCount: nat)

  method FindEquivalences(f: Formula, tarjan: Graph -> seq<seq<nat>>) returns (r: EquivSccResult)
    requires WellFormed(f) && FindsComponents(tarjan)
    ensures r.Unsat? <==> Contradicts(f.clauses, f.numVars)
    ensures r.NoEquivs? <==> !Equates(f.clauses, f.numVars)
    ensures r.Found? ==> Represents(f, r.representative) && CountsComponents(f, r.equivCount)
  {
    hide IsSccGroups, Mutual, LiteralGraph, Contradicts, Equates;
    var numNodes := f.numVars * 2;
    if numNodes == 0 {
      EmptyGraph(f);
      return NoEquivs;
    }
    var groups := ImplicationSccs(f.clauses, f.numVars, tarjan);
    GroupsFound(f.clauses, f.numVars, groups);
    ContradictionEquates(f.clauses, f.numVars);
    if |groups| == 0 { return NoEquivs; }
    GroupsInside(f.clauses, f.numVars, groups);
    var rep := SccRepresentatives(groups, numNodes);
    ContradictionFound(f.clauses, f.numVars, groups, rep);
    if HasEquivContradiction(rep, f.numVars) { return Unsat; }
    VarToRepReads(f.clauses, f.numVars, groups, rep);
    return Found(rep, |groups|);
  }

  ghost predicate Represents(f: Formula, rep: seq<nat>) {
    && f.numVars <= MAX_VAR && |rep| == 2 * f.numVars
    && (forall u :: 0 <= u < |rep| ==> rep[u] < 2 * f.numVars)
    && TableFits(f, VarToRep(rep, f.numVars))
  }

  /** As many components of two literals or more. */
  ghost predicate CountsComponents(f: Formula, count: nat) {
    exists groups :: IsSccGroups(LiteralGraph(f.clauses, f.numVars), groups) && |groups| == count
  }

  lemma ContradictionEquates(cs: seq<Clause>, numVars: nat)
    ensures Contradicts(cs, numVars) ==> Equates(cs, numVars)
  {
    hide Mutual, LiteralGraph;
  }

  lemma GroupsInside(cs: seq<Clause>, numVars: nat, groups: seq<seq<nat>>)
    requires IsSccGroups(LiteralGraph(cs, numVars), groups)
    ensures forall g :: g in groups ==> forall u: nat :: u in g ==> u < 2 * numVars
  {
    hide Mutual;
  }

  lemma EmptyGraph(f: Formula)
    requires f.numVars == 0
    ensures !Equates(f.clauses, f.numVars) && !Contradicts(f.clauses, f.numVars)
  {
    forall u: nat, w: nat | Mutual(LiteralGraph(f.clauses, f.numVars), u, w) ensures u == w {
      if u != w {
        MutualHasEdge(LiteralGraph(f.clauses, f.numVars), u, w);
        assert false;
      }
    }
    ContradictionEquates(f.clauses, f.numVars);
  }

  /** Whatever the outcome, the result has exactly the models of the input; a mapping comes back only
      with equivalences to substitute. */
  method ExtractEquivalences(f: Formula, tarjan: Graph -> seq<seq<nat>>)
    returns (r: EquivalenceResult, m: Option<EquivMapping>)
    requires WellFormed(f) && FindsComponents(tarjan)
    ensures r.formula.numVars == f.numVars && WellFormed(r.formula)
    ensures forall a :: Satisfies(a, r.formula.clauses) <==> Satisfies(a, f.clauses)
    ensures r.isUnsat <==> Contradicts(f.clauses, f.numVars)
    ensures r.isUnsat ==> r.formula.clauses == [[]] && r.numEquivalences == 0
    ensures m.Some? <==> Equates(f.clauses, f.numVars) && !r.isUnsat
    ensures m.None? && !r.isUnsat ==> r.formula == f && r.numEquivalences == 0
    ensures m.Some? ==> TableFits(f, m.value.varToRep) && CountsComponents(f, r.numEquivalences)
                        && m.value.representatives == Representatives(m.value.varToRep, |m.value.varToRep|)
                        && Indexes(m.value.repToEquivs, m.value.varToRep, |m.value.varToRep|)
                        && IsSubstitution(r.formula, f, m.value.varToRep)
  {
    hide Contradicts, Equates, LiteralGraph, CountsComponents;
    ContradictionEquates(f.clauses, f.numVars);
    var found := FindEquivalences(f, tarjan);
    match found
    case Unsat =>
      r := EquivalenceResult(Formula(f.numVars, [[]]), 0, true);
      m := None;
      forall a ensures !Satisfies(a, f.clauses) { ContradictionIsUnsat(a, f.clauses, f.numVars); }
      assert [] in r.formula.clauses;
    case NoEquivs =>
      r := EquivalenceResult(f, 0, false);
      m := None;
    case Found(representative, equivCount) =>
      var t := VarToRep(representative, f.numVars);
      var mapping := FromVarToRep(t);
      r := BuildSubstitutedFormula(f, t, equivCount);
      m := Some(mapping);
  }
}
