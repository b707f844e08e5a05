/** Substituting every literal by its representative: the formula it leaves, and the one over the
    representatives alone. */
module Substitution {
  import opened Wrappers
  import opened Sequences
  import opened Cnf
  import opened ComponentCount
  import opened Equivalence

  // ---- contiguous renumbering ----

  /** Which old variables survive, and what each is called. */
  datatype Renumber = Renumber(toNew: map<VarId, VarId>, toOld: seq<VarId>)

  method OfKept(kept: seq<VarId>) returns (r: Renumber)
    requires Increasing(kept) && |kept| <= MAX_VAR
    ensures r == Renumber(LocalIds(kept), kept)
  {
    r := Renumber(map[], []);
    for i := 0 to |kept|
      invariant r == Renumber(LocalIds(kept[..i]), kept[..i])
    {
      assert kept[..i + 1][..i] == kept[..i] && kept[..i + 1] == kept[..i] + [kept[i]];
      r := Renumber(r.toNew[kept[i] := FromIdx(|r.toOld|)], r.toOld + [kept[i]]);
    }
    assert kept[..|kept|] == kept;
  }

  // ---- literals and clauses ----

  /** A literal substituted: the positive one becomes its variable's representative, the negative one
      the representative's negation. */
  function MapLit(t: RepTable, l: Literal): Literal
    requires Idx(l.v) < |t|
  {
    var rep := t[Idx(l.v)];
    if l.positive then rep else rep.Negated()
  }

  /** The renumbering, when there is one, names every representative. */
  ghost predicate Names(t: RepTable, names: Option<Renumber>) {
    names.Some? ==> forall v :: 0 <= v < |t| ==> t[v].v in names.value.toNew
  }

  function FinalLit(t: RepTable, names: Option<Renumber>, l: Literal): Literal
    requires Idx(l.v) < |t| && Names(t, names)
  {
    var sub := MapLit(t, l);
    if names.None? then sub else Literal(names.value.toNew[sub.v], sub.positive)
  }

  ghost predicate InTableRange(t: RepTable, c: Clause) {
    forall l :: l in c ==> Idx(l.v) < |t|
  }

  function MappedClause(t: RepTable, names: Option<Renumber>, c: Clause): (r: Clause)
    requires InTableRange(t, c) && Names(t, names)
  {
    if c == [] then []
    else MappedClause(t, names, c[..|c| - 1]) + [FinalLit(t, names, c[|c| - 1])]
  }

  method SubstituteClause(c: Clause, t: RepTable, names: Option<Renumber>) returns (r: Option<Clause>)
    requires InTableRange(t, c) && Names(t, names)
    ensures r == Normalize(MappedClause(t, names, c))
  {
    var lits: Clause := [];
    for i := 0 to |c|
      invariant lits == MappedClause(t, names, c[..i])
    {
      assert c[..i + 1][..i] == c[..i];
      lits := lits + [FinalLit(t, names, c[i])];
    }
    assert c[..|c|] == c;
    r := Normalize(lits);
  }

  /** Every clause substituted, tautologies and repeats dropped, in clause order. */
  function Substituted(cs: seq<Clause>, t: RepTable, names: Option<Renumber>): seq<Clause>
    requires Names(t, names) && forall c :: c in cs ==> InTableRange(t, c)
  {
    if cs == [] then []
    else
      var front, r := Substituted(cs[..|cs| - 1], t, names), Normalize(MappedClause(t, names, cs[|cs| - 1]));
      if r.None? || r.value in front then front else front + [r.value]
  }

  method SubstituteClauses(cs: seq<Clause>, t: RepTable, names: Option<Renumber>) returns (out: seq<Clause>)
    requires Names(t, names) && forall c :: c in cs ==> InTableRange(t, c)
    ensures out == Substituted(cs, t, names)
  {
    hide MappedClause, Normalize;
    out := [];
    var seen: set<Clause> := {};
    for i := 0 to |cs|
      invariant out == Substituted(cs[..i], t, names)
      invariant forall c :: c in seen <==> c in out
    {
      assert cs[..i + 1][..i] == cs[..i];
      assert cs[i] in cs;
      var r := SubstituteClause(cs[i], t, names);
      if r.Some? && r.value !in seen {
        seen := seen + {r.value};
        out := out + [r.value];
      }
    }
    assert cs[..|cs|] == cs;
  }

  // ---- what substituting means ----

  /** `b` gives each substituted literal the value `a` gives the variable it came from. */
  ghost predicate Carries(a: Assignment, b: Assignment, t: RepTable, names: Option<Renumber>)
    requires Names(t, names)
  {
    |t| <= MAX_VAR && forall v: VarId :: v <= |t| ==> (v in a <==> LitTrue(b, FinalLit(t, names, Literal(v, true))))
  }

  lemma LiteralCarried(a: Assignment, b: Assignment, t: RepTable, names: Option<Renumber>, l: Literal)
    requires Names(t, names) && Carries(a, b, t, names) && Idx(l.v) < |t|
    ensures LitTrue(b, FinalLit(t, names, l)) == LitTrue(a, l)
  {
    assert l.v in a <==> LitTrue(b, FinalLit(t, names, Literal(l.v, true)));
  }

  lemma {:induction false} ClauseCarried(a: Assignment, b: Assignment, t: RepTable, names: Option<Renumber>, c: Clause)
    requires Names(t, names) && Carries(a, b, t, names) && InTableRange(t, c)
    ensures ClauseTrue(b, MappedClause(t, names, c)) == ClauseTrue(a, c)
  {
    if c != [] {
      var front, last := c[..|c| - 1], c[|c| - 1];
      ClauseCarried(a, b, t, names, front);
      LiteralCarried(a, b, t, names, last);
      AppendedLiteral(a, front, last);
      AppendedLiteral(b, MappedClause(t, names, front), FinalLit(t, names, last));
      assert c == front + [last];
    }
  }

  lemma AppendedLiteral(a: Assignment, front: Clause, last: Literal)
    ensures ClauseTrue(a, front + [last]) <==> ClauseTrue(a, front) || LitTrue(a, last)
  {
    assert forall l :: l in front + [last] <==> l in front || l == last;
    if ClauseTrue(a, front) {
      var l :| l in front && LitTrue(a, l);
      assert l in front + [last];
    }
  }

  /** The substituted clauses hold exactly when the original ones do. */
  lemma {:induction false} SubstitutedMeaning(a: Assignment, b: Assignment, cs: seq<Clause>, t: RepTable,
                                              names: Option<Renumber>)
    requires Names(t, names) && Carries(a, b, t, names) && forall c :: c in cs ==> InTableRange(t, c)
    ensures Satisfies(b, Substituted(cs, t, names)) == Satisfies(a, cs)
  {
    hide MappedClause, Normalize, Satisfies, ClauseTrue, Carries;
    if cs == [] {
      NothingToSatisfy(a);
      NothingToSatisfy(b);
    } else {
      var front, last := cs[..|cs| - 1], cs[|cs| - 1];
      SubstitutedMeaning(a, b, front, t, names);
      ClauseCarried(a, b, t, names, last);
      var mapped := MappedClause(t, names, last);
      NormalizeKeepsModels(b, mapped);
      assert cs == front + [last];
      SatisfiesAppend(a, front, last);
      SatisfiesKept(b, Substituted(front, t, names), Normalize(mapped));
    }
  }

  lemma NothingToSatisfy(a: Assignment)
    ensures Satisfies(a, [])
  {
  }

  lemma SatisfiesAppend(a: Assignment, front: seq<Clause>, last: Clause)
    ensures Satisfies(a, front + [last]) <==> Satisfies(a, front) && ClauseTrue(a, last)
  {
    assert forall c :: c in front + [last] <==> c in front || c == last;
  }

  lemma SatisfiesKept(a: Assignment, front: seq<Clause>, r: Option<Clause>)
    ensures Satisfies(a, if r.None? || r.value in front then front else front + [r.value])
       <==> Satisfies(a, front) && (r.Some? ==> ClauseTrue(a, r.value))
  {
    if r.Some? { SatisfiesAppend(a, front, r.value); }
  }

  lemma {:induction false} MappedInRange(t: RepTable, names: Option<Renumber>, c: Clause, n: nat)
    requires InTableRange(t, c) && Names(t, names)
    requires forall v: VarId :: v <= |t| ==> FinalLit(t, names, Literal(v, true)).v <= n
    ensures InRange(MappedClause(t, names, c), n)
  {
    if c != [] {
      var last := c[|c| - 1];
      MappedInRange(t, names, c[..|c| - 1], n);
      assert FinalLit(t, names, last).v == FinalLit(t, names, Literal(last.v, true)).v;
    }
  }

  lemma {:induction false} SubstitutedInRange(cs: seq<Clause>, t: RepTable, names: Option<Renumber>, n: nat)
    requires Names(t, names) && forall c :: c in cs ==> InTableRange(t, c)
    requires forall v: VarId :: v <= |t| ==> FinalLit(t, names, Literal(v, true)).v <= n
    ensures forall c :: c in Substituted(cs, t, names) ==> Canonical(c) && InRange(c, n)
    ensures Distinct(Substituted(cs, t, names))
  {
    hide MappedClause, Normalize, FinalLit;
    if cs != [] {
      var last := cs[|cs| - 1];
      SubstitutedInRange(cs[..|cs| - 1], t, names, n);
      MappedInRange(t, names, last, n);
      NormalizeMeaning(MappedClause(t, names, last));
    }
  }

  // ---- the formula over the same variables ----

  /** Does entry `v` stand for another variable. */
  predicate Folded(t: RepTable, v: nat)
    requires v < |t|
  {
    Idx(t[v].v) != v
  }

  /** The two clauses tying variable `v` to its representative. */
  function LinkOf(t: RepTable, v: nat): seq<Clause>
    requires v < |t| <= MAX_VAR
  {
    [[Literal(FromIdx(v), false), t[v]], [Literal(FromIdx(v), true), t[v].Negated()]]
  }

  function Links(t: RepTable, k: nat): seq<Clause>
    requires k <= |t| <= MAX_VAR
  {
    if k == 0 then [] else Links(t, k - 1) + (if Folded(t, k - 1) then LinkOf(t, k - 1) else [])
  }

  lemma LinkMeaning(a: Assignment, t: RepTable, v: nat)
    requires v < |t| <= MAX_VAR
    ensures Satisfies(a, LinkOf(t, v)) <==> (FromIdx(v) in a <==> LitTrue(a, t[v]))
  {
    var c, d := LinkOf(t, v)[0], LinkOf(t, v)[1];
    assert ClauseTrue(a, c) <==> LitTrue(a, c[0]) || LitTrue(a, c[1]) by { assert c[0] in c && c[1] in c; }
    assert ClauseTrue(a, d) <==> LitTrue(a, d[0]) || LitTrue(a, d[1]) by { assert d[0] in d && d[1] in d; }
    assert c in LinkOf(t, v) && d in LinkOf(t, v);
  }

  lemma {:induction false} LinksMeaning(a: Assignment, t: RepTable, k: nat)
    requires k <= |t| <= MAX_VAR && SelfRepresenting(t)
    ensures Satisfies(a, Links(t, k)) <==> forall v: VarId :: v <= k ==> (v in a <==> LitTrue(a, t[Idx(v)]))
  {
    if k > 0 {
      LinksMeaning(a, t, k - 1);
      LinkMeaning(a, t, k - 1);
      SatisfiesBoth(a, Links(t, k - 1), if Folded(t, k - 1) then LinkOf(t, k - 1) else []);
      if !Folded(t, k - 1) { assert t[k - 1] == Literal(FromIdx(k - 1), true); }
    }
  }

  lemma SatisfiesBoth(a: Assignment, left: seq<Clause>, right: seq<Clause>)
    ensures Satisfies(a, left + right) <==> Satisfies(a, left) && Satisfies(a, right)
  {
    assert forall c :: c in left + right <==> c in left || c in right;
  }

  datatype EquivalenceResult = EquivalenceResult(formula: Formula, numEquivalences: nat, isUnsat: bool)

  ghost predicate TableFits(f: Formula, t: RepTable) {
    ReadsComponents(f.clauses, f.numVars, t)
  }

  lemma TableCovers(f: Formula, t: RepTable)
    requires TableFits(f, t)
    ensures SelfRepresenting(t) && |t| <= MAX_VAR && forall c :: c in f.clauses ==> InTableRange(t, c)
  {
    RepresentativesAreSelf(f.clauses, f.numVars, t);
    forall c | c in f.clauses ensures InTableRange(t, c) { assert InRange(c, f.numVars); }
  }

  /** Substituting leaves nothing but representatives. */
  lemma {:induction false} OnlyRepresentativesLeft(cs: seq<Clause>, t: RepTable)
    requires SelfRepresenting(t) && Names(t, None) && forall c :: c in cs ==> InTableRange(t, c)
    ensures forall c, l :: c in Substituted(cs, t, None) && l in c ==> l.v <= |t| && t[Idx(l.v)] == Literal(l.v, true)
  {
    hide MappedClause, Normalize;
    if cs != [] {
      var last := cs[|cs| - 1];
      OnlyRepresentativesLeft(cs[..|cs| - 1], t);
      MappedToRepresentatives(t, last);
      NormalizeMeaning(MappedClause(t, None, last));
    }
  }

  lemma {:induction false} MappedToRepresentatives(t: RepTable, c: Clause)
    requires SelfRepresenting(t) && Names(t, None) && InTableRange(t, c)
    ensures forall l :: l in MappedClause(t, None, c) ==> l.v <= |t| && t[Idx(l.v)] == Literal(l.v, true)
  {
    if c != [] { MappedToRepresentatives(t, c[..|c| - 1]); }
  }

  method TieBack(kept: seq<Clause>, t: RepTable) returns (clauses: seq<Clause>)
    requires |t| <= MAX_VAR
    ensures clauses == kept + Links(t, |t|)
  {
    clauses := kept;
    for v := 0 to |t|
      invariant clauses == kept + Links(t, v)
    {
      if Idx(t[v].v) != v {
        clauses := clauses + [[Literal(FromIdx(v), false), t[v]]];
        clauses := clauses + [[Literal(FromIdx(v), true), t[v].Negated()]];
      }
    }
  }

  /** The substituted clauses, then both implications for every variable folded away. */
  ghost predicate IsSubstitution(r: Formula, f: Formula, t: RepTable) {
    && Names(t, None) && |t| == f.numVars == r.numVars <= MAX_VAR && (forall c :: c in f.clauses ==> InTableRange(t, c))
    && r.clauses == Substituted(f.clauses, t, None) + Links(t, |t|)
  }

  method BuildSubstitutedFormula(f: Formula, t: RepTable, equivCount: nat) returns (r: EquivalenceResult)
    requires TableFits(f, t)
    ensures r.numEquivalences == equivCount && !r.isUnsat && IsSubstitution(r.formula, f, t)
    ensures forall a :: Satisfies(a, r.formula.clauses) <==> Satisfies(a, f.clauses)
    ensures WellFormed(r.formula)
  {
    TableCovers(f, t);
    var clauses := SubstituteClauses(f.clauses, t, None);
    clauses := TieBack(clauses, t);
    r := EquivalenceResult(Formula(f.numVars, clauses), equivCount, false);
    forall a ensures Satisfies(a, clauses) <==> Satisfies(a, f.clauses) { SubstitutedModels(a, f, t); }
    SubstitutedFits(f, t);
  }

  /** Substituting and tying back has exactly the models of the input. */
  lemma SubstitutedModels(a: Assignment, f: Formula, t: RepTable)
    requires TableFits(f, t)
    ensures SelfRepresenting(t) && |t| <= MAX_VAR && forall c :: c in f.clauses ==> InTableRange(t, c)
    ensures Satisfies(a, Substituted(f.clauses, t, None) + Links(t, |t|)) <==> Satisfies(a, f.clauses)
  {
    TableCovers(f, t);
    LinksMeaning(a, t, |t|);
    SatisfiesBoth(a, Substituted(f.clauses, t, None), Links(t, |t|));
    if Satisfies(a, f.clauses) { ModelsRespect(a, f.clauses, f.numVars, t); }
    if Respects(a, t) { SubstitutedMeaning(a, a, f.clauses, t, None); }
  }

  lemma {:induction false} LinksInRange(t: RepTable, k: nat)
    requires k <= |t| <= MAX_VAR && SelfRepresenting(t)
    ensures forall c :: c in Links(t, k) ==> InRange(c, |t|)
  {
    if k > 0 {
      LinksInRange(t, k - 1);
      forall c | c in LinkOf(t, k - 1) ensures InRange(c, |t|) {
        assert forall l :: l in c ==> l.v == FromIdx(k - 1) || l.v == t[k - 1].v;
      }
    }
  }

  lemma SubstitutedFits(f: Formula, t: RepTable)
    requires TableFits(f, t)
    ensures SelfRepresenting(t) && |t| <= MAX_VAR && forall c :: c in f.clauses ==> InTableRange(t, c)
    ensures WellFormed(Formula(f.numVars, Substituted(f.clauses, t, None) + Links(t, |t|)))
  {
    TableCovers(f, t);
    LinksInRange(t, |t|);
    SubstitutedInRange(f.clauses, t, None, f.numVars);
  }
}
