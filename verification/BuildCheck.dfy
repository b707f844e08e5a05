/** Whether a finished build fits a formula: the test before export, and exactly what passes it. */
module BuildCheck {
  import opened Wrappers
  import opened Cnf
  import opened Sequences
  import opened Ordering
  import opened Counting
  import opened ComponentCount
  import opened Vtrees
  import opened Grafting

  /** The tree to be exported, with the per-component trees if there were several. */
  datatype VtreeBuild = VtreeBuild(vtree: Vtree, components: Option<seq<ComponentVtree>>)

  datatype Mismatch =
    | LeafCount
    | OutsideSpace(v: VarId)
    | Repeats(v: VarId)
    | NoSuchClause(index: nat)
    | UndeclaredVariable(v: VarId)
    | BothClaim(other: nat, index: nat, v: VarId)
    | WrongNumbering(index: nat, detail: Disagreement)

  /** Why two lists of variables are not the same. */
  datatype Disagreement =
    | DiffersAt(local: nat, named: VarId, cut: VarId)
    | LengthsDiffer(namedLength: nat, cutLength: nat)

  // ---- the leaf space ----

  ghost predicate MarksExactly(seen: seq<bool>, vars: seq<VarId>) {
    forall v: VarId :: Idx(v) < |seen| ==> (seen[Idx(v)] <==> v in vars)
  }

  ghost predicate OnceWithin(vars: seq<VarId>, count: nat) {
    Distinct(vars) && forall v :: v in vars ==> Idx(v) < count
  }

  /** Accepts exactly when every leaf variable is inside `1..count` and none repeats. */
  method CheckLeafSpace(t: Vtree, count: nat) returns (r: Result<(), Mismatch>)
    requires t.Valid()
    ensures r.Ok? <==> OnceWithin(t.LeafBottomUp(), count)
  {
    hide LeafVars, Leaves, TreeAt;
    var seen := seq(count, _ => false);
    var vars := t.LeafBottomUp();
    for k := 0 to |vars|
      invariant |seen| == count && MarksExactly(seen, vars[..k]) && OnceWithin(vars[..k], count)
    {
      var v := vars[k];
      assert vars[..k + 1] == vars[..k] + [v];
      assert v in vars;
      if Idx(v) >= |seen| { return Err(OutsideSpace(v)); }
      if seen[Idx(v)] {
        RepeatFound(vars, k);
        return Err(Repeats(v));
      }
      seen := seen[Idx(v) := true];
    }
    assert vars[..|vars|] == vars;
    return Ok(());
  }

  lemma RepeatFound(vars: seq<VarId>, k: nat)
    requires k < |vars| && vars[k] in vars[..k]
    ensures !Distinct(vars)
  {
    var j :| 0 <= j < k && vars[..k][j] == vars[k];
    assert vars[j] == vars[k];
  }

  /** With the leaf count, the leaf check holds exactly when the leaves are a permutation of 1 to `n`. */
  lemma LeafCheckIsPermutation(t: Vtree, n: nat)
    requires t.Valid() && n <= MAX_VAR
    ensures t.NumLeaves() == n && OnceWithin(t.LeafBottomUp(), n) <==> LeafSpace(t.Shape(), n)
  {
    ValidCountsLeaves(t);
    FirstVarsBag(n);
    var vars := t.LeafBottomUp();
    if t.NumLeaves() == n && OnceWithin(vars, n) {
      DistinctCardinality(vars);
      assert ToSet(vars) <= AllVars(n);
      SubsetOfSameSize(ToSet(vars), AllVars(n));
      DistinctBag(vars);
    }
    if LeafSpace(t.Shape(), n) {
      assert |multiset(vars)| == |multiset(AllVars(n))|;
      DistinctBag(FirstVars(n));
      BagDistinct(FirstVars(n), vars);
      forall v | v in vars ensures Idx(v) < n { assert v in multiset(vars); }
    }
  }

  // ---- the claims ----

  ghost predicate LiteralFree(claims: seq<Option<nat>>, index: nat, l: Literal) {
    Idx(l.v) < |claims| && (claims[Idx(l.v)].Some? ==> claims[Idx(l.v)].value == index)
  }

  /** Every clause exists and none of its variables belongs to another component. */
  ghost predicate ClausesFree(claims: seq<Option<nat>>, index: nat, clauseIndices: seq<nat>, f: Formula) {
    forall k :: 0 <= k < |clauseIndices| ==>
      clauseIndices[k] < |f.clauses| && forall l :: l in f.clauses[clauseIndices[k]] ==> LiteralFree(claims, index, l)
  }

  ghost predicate ClauseMentions(f: Formula, clauseIndices: seq<nat>, v: VarId) {
    exists k, l :: 0 <= k < |clauseIndices| && clauseIndices[k] < |f.clauses| && l in f.clauses[clauseIndices[k]]
        && l.v == v
  }

  /** `claims'` is `claims` with every variable of the clauses claimed for `index`. */
  ghost predicate ClaimsAdded(claims: seq<Option<nat>>, claims': seq<Option<nat>>, index: nat, mine: set<VarId>) {
    && |claims'| == |claims|
    && forall v: VarId :: Idx(v) < |claims| ==> claims'[Idx(v)] == if v in mine then Some(index) else claims[Idx(v)]
  }

  /** The variables of some literals. */
  ghost function LiteralVars(c: Clause): set<VarId> {
    set l | l in c :: l.v
  }

  ghost function ClausesVars(f: Formula, clauseIndices: seq<nat>): set<VarId>
    requires forall k :: 0 <= k < |clauseIndices| ==> clauseIndices[k] < |f.clauses|
  {
    if clauseIndices == [] then {}
    else
      ClausesVars(f, clauseIndices[..|clauseIndices| - 1]) + LiteralVars(f.clauses[clauseIndices[|clauseIndices| - 1]])
  }

  lemma LiteralAlreadyMine(claims: seq<Option<nat>>, claims': seq<Option<nat>>, index: nat, mine: set<VarId>,
                           l: Literal)
    requires ClaimsAdded(claims, claims', index, mine)
    ensures LiteralFree(claims', index, l) <==> LiteralFree(claims, index, l) || (l.v in mine && Idx(l.v) < |claims|)
  {
  }

  /** One clause's literals claimed in order; refused at the first that is not free. */
  method ClaimClause(index: nat, c: Clause, claims0: seq<Option<nat>>, ghost start: seq<Option<nat>>,
                     ghost mine: set<VarId>)
    returns (r: Result<(), Mismatch>, claims: seq<Option<nat>>)
    requires ClaimsAdded(start, claims0, index, mine)
    requires forall v :: v in mine ==> LiteralFree(start, index, Literal(v, true))
    ensures r.Ok? <==> forall l :: l in c ==> LiteralFree(start, index, l)
    ensures r.Ok? ==> ClaimsAdded(start, claims, index, mine + LiteralVars(c))
  {
    claims := claims0;
    assert LiteralVars(c[..0]) == {};
    for k := 0 to |c|
      invariant ClaimsAdded(start, claims, index, mine + LiteralVars(c[..k]))
      invariant forall l :: l in c[..k] ==> LiteralFree(start, index, l)
    {
      var l := c[k];
      assert c[..k + 1] == c[..k] + [l];
      assert l in c;
      NotFreeStays(start, claims, index, mine, c[..k], l);
      if Idx(l.v) >= |claims| { return Err(UndeclaredVariable(l.v)), claims; }
      if claims[Idx(l.v)].Some? && claims[Idx(l.v)].value != index {
        return Err(BothClaim(claims[Idx(l.v)].value, index, l.v)), claims;
      }
      claims := claims[Idx(l.v) := Some(index)];
      assert LiteralVars(c[..k + 1]) == LiteralVars(c[..k]) + {l.v};
    }
    assert c[..|c|] == c;
    return Ok(()), claims;
  }

  lemma NotFreeStays(start: seq<Option<nat>>, claims: seq<Option<nat>>, index: nat, mine: set<VarId>, done: Clause,
                     l: Literal)
    requires ClaimsAdded(start, claims, index, mine + LiteralVars(done))
    requires forall v :: v in mine ==> LiteralFree(start, index, Literal(v, true))
    requires forall m :: m in done ==> LiteralFree(start, index, m)
    ensures LiteralFree(claims, index, l) <==> LiteralFree(start, index, l)
  {
    LiteralAlreadyMine(start, claims, index, mine + LiteralVars(done), l);
    if l.v in LiteralVars(done) {
      var m :| m in done && m.v == l.v;
    } else if l.v in mine {
      assert LiteralFree(start, index, Literal(l.v, true));
    }
  }

  method ClaimComponentClauses(index: nat, clauseIndices: seq<nat>, f: Formula, claims0: seq<Option<nat>>)
    returns (r: Result<(), Mismatch>, claims: seq<Option<nat>>)
    ensures r.Ok? <==> ClausesFree(claims0, index, clauseIndices, f)
    ensures r.Ok? ==> ClaimsAdded(claims0, claims, index, ClausesVars(f, clauseIndices))
  {
    claims := claims0;
    for k := 0 to |clauseIndices|
      invariant ClausesFree(claims0, index, clauseIndices[..k], f)
      invariant ClaimsAdded(claims0, claims, index, ClausesVars(f, clauseIndices[..k]))
      invariant forall v :: v in ClausesVars(f, clauseIndices[..k]) ==> LiteralFree(claims0, index, Literal(v, true))
    {
      var ci := clauseIndices[k];
      assert clauseIndices[..k + 1][..k] == clauseIndices[..k];
      if ci >= |f.clauses| { return Err(NoSuchClause(ci)), claims; }
      var mine, next := ClaimClause(index, f.clauses[ci], claims, claims0, ClausesVars(f, clauseIndices[..k]));
      if mine.Err? { return mine, claims; }
      claims := next;
    }
    assert clauseIndices[..|clauseIndices|] == clauseIndices;
    return Ok(()), claims;
  }

  // ---- the whole check ----

  ghost predicate AllValid(build: VtreeBuild) {
    build.vtree.Valid() && (build.components.Some? ==> ValidTrees(build.components.value))
  }

  ghost predicate ValidTrees(comps: seq<ComponentVtree>) {
    forall i :: 0 <= i < |comps| ==> comps[i].vtree.Valid()
  }

  /** The component's clauses exist, its map is the numbering they give, and its tree spans it. */
  ghost predicate ComponentBelongs(f: Formula, c: ComponentVtree)
    requires c.vtree.Valid()
  {
    && InFormula(f, c.clauseIndices)
    && c.localToOuter == ComponentVars(f, c.clauseIndices) && |c.localToOuter| <= MAX_VAR
    && LeafSpace(c.vtree.Shape(), |c.localToOuter|)
  }

  /** The variables a component's clauses name, those of missing clauses left out. */
  ghost function ClaimedVars(f: Formula, c: ComponentVtree): set<VarId> {
    if IndicesExist(f, c.clauseIndices) then ClausesVars(f, c.clauseIndices) else {}
  }

  ghost predicate IndicesExist(f: Formula, clauseIndices: seq<nat>) {
    forall k :: 0 <= k < |clauseIndices| ==> clauseIndices[k] < |f.clauses|
  }

  /** The first `k` components belong, and no two of them claim one variable. */
  ghost predicate FirstBelong(f: Formula, comps: seq<ComponentVtree>, k: nat)
    requires k <= |comps| && ValidTrees(comps)
  {
    && (forall i :: 0 <= i < k ==> ComponentBelongs(f, comps[i]))
    && forall i :: 0 <= i < k ==> ApartFromEarlier(f, comps, i)
  }

  ghost predicate ApartFromEarlier(f: Formula, comps: seq<ComponentVtree>, k: nat)
    requires k < |comps|
  {
    forall j :: 0 <= j < k ==> ClaimedVars(f, comps[j]) !! ClaimedVars(f, comps[k])
  }

  /** What the check is for: one leaf per variable, and components that each own their clauses' variables. */
  ghost predicate Belongs(build: VtreeBuild, f: Formula)
    requires AllValid(build) && f.numVars <= MAX_VAR
  {
    && LeafSpace(build.vtree.Shape(), f.numVars)
    && (build.components.Some? ==> FirstBelong(f, build.components.value, |build.components.value|))
  }

  /** After the first `k` components: a variable is claimed by one of them exactly when it names it. */
  ghost predicate ClaimsOf(claims: seq<Option<nat>>, f: Formula, comps: seq<ComponentVtree>, k: nat)
    requires k <= |comps|
  {
    && |claims| == f.numVars
    && forall v: VarId :: v <= f.numVars ==>
        match claims[Idx(v)]
        case Some(j) => j < k && v in ClaimedVars(f, comps[j])
        case None => forall j :: 0 <= j < k ==> v !in ClaimedVars(f, comps[j])
  }

  lemma {:induction false} ClausesVarsMembers(f: Formula, clauseIndices: seq<nat>)
    requires IndicesExist(f, clauseIndices)
    ensures forall v :: v in ClausesVars(f, clauseIndices) <==> ClauseMentions(f, clauseIndices, v)
  {
    if clauseIndices != [] {
      var n := |clauseIndices| - 1;
      ClausesVarsMembers(f, clauseIndices[..n]);
      forall v ensures v in ClausesVars(f, clauseIndices) <==> ClauseMentions(f, clauseIndices, v) {
        LastClauseMentions(f, clauseIndices, v);
      }
    }
  }

  lemma LastClauseMentions(f: Formula, clauseIndices: seq<nat>, v: VarId)
    requires IndicesExist(f, clauseIndices) && clauseIndices != []
    ensures ClauseMentions(f, clauseIndices, v)
       <==> ClauseMentions(f, clauseIndices[..|clauseIndices| - 1], v)
            || v in LiteralVars(f.clauses[clauseIndices[|clauseIndices| - 1]])
  {
    var n := |clauseIndices| - 1;
    if ClauseMentions(f, clauseIndices, v) {
      var k, l :| 0 <= k < |clauseIndices| && l in f.clauses[clauseIndices[k]] && l.v == v;
      if k < n { assert clauseIndices[..n][k] == clauseIndices[k]; }
    }
    if ClauseMentions(f, clauseIndices[..n], v) {
      var k, l :| 0 <= k < n && l in f.clauses[clauseIndices[..n][k]] && l.v == v;
      assert clauseIndices[k] == clauseIndices[..n][k];
    }
    if v in LiteralVars(f.clauses[clauseIndices[n]]) {
      var l :| l in f.clauses[clauseIndices[n]] && l.v == v;
    }
  }

  /** A component may claim its variables exactly when its clauses exist and none before it shares one. */
  lemma FreeIsApart(claims: seq<Option<nat>>, f: Formula, comps: seq<ComponentVtree>, k: nat)
    requires WellFormed(f) && k < |comps| && ClaimsOf(claims, f, comps, k)
    ensures ClausesFree(claims, k, comps[k].clauseIndices, f)
       <==> IndicesExist(f, comps[k].clauseIndices) && ApartFromEarlier(f, comps, k)
  {
    var mine := comps[k].clauseIndices;
    if IndicesExist(f, mine) {
      ClausesVarsMembers(f, mine);
      if ClausesFree(claims, k, mine, f) {
        forall j | 0 <= j < k ensures ClaimedVars(f, comps[j]) !! ClaimedVars(f, comps[k]) {
          forall v | v in ClaimedVars(f, comps[k]) ensures v !in ClaimedVars(f, comps[j]) {
            var i, l :| 0 <= i < |mine| && mine[i] < |f.clauses| && l in f.clauses[mine[i]] && l.v == v;
            assert LiteralFree(claims, k, l);
          }
        }
      }
      if ApartFromEarlier(f, comps, k) {
        forall i | 0 <= i < |mine| ensures forall l :: l in f.clauses[mine[i]] ==> LiteralFree(claims, k, l) {
          forall l | l in f.clauses[mine[i]] ensures LiteralFree(claims, k, l) {
            assert InRange(f.clauses[mine[i]], f.numVars);
            assert ClauseMentions(f, mine, l.v);
          }
        }
      }
    }
  }

  lemma ClaimsStep(claims: seq<Option<nat>>, claims': seq<Option<nat>>, f: Formula, comps: seq<ComponentVtree>, k: nat)
    requires k < |comps| && ClaimsOf(claims, f, comps, k) && IndicesExist(f, comps[k].clauseIndices)
    requires ClaimsAdded(claims, claims', k, ClausesVars(f, comps[k].clauseIndices))
    ensures ClaimsOf(claims', f, comps, k + 1)
  {
    assert ClaimedVars(f, comps[k]) == ClausesVars(f, comps[k].clauseIndices);
  }

  /** `local` is the first place two lists disagree at, everything before it the same. */
  ghost predicate FirstDisagreement(named: seq<VarId>, cut: seq<VarId>, local: nat) {
    local < |named| && local < |cut| && named[local] != cut[local] && named[..local] == cut[..local]
  }

  /** Where the two lists first disagree, as far as both go. */
  method FindDisagreement(named: seq<VarId>, cut: seq<VarId>) returns (r: Option<nat>)
    ensures r.Some? ==> FirstDisagreement(named, cut, r.value)
    ensures r.None? ==> named <= cut || cut <= named
  {
    var shared := if |named| < |cut| then |named| else |cut|;
    for local := 0 to shared
      invariant named[..local] == cut[..local]
    {
      if named[local] != cut[local] { return Some(local); }
    }
    return None;
  }

  /** A refusal names the first variable numbered otherwise than the clauses number it, or, when one list
      merely ends before the other, the two lengths. */
  method CheckLocalToOuterMatches(index: nat, named: seq<VarId>, cut: seq<VarId>) returns (r: Result<(), Mismatch>)
    ensures r.Ok? <==> named == cut
    ensures r.Err? ==> r.error.WrongNumbering? && r.error.index == index
    ensures r.Err? && r.error.detail.DiffersAt? ==>
              var d := r.error.detail;
              FirstDisagreement(named, cut, d.local) && d.named == named[d.local] && d.cut == cut[d.local]
    ensures r.Err? && r.error.detail.LengthsDiffer? ==>
              (named < cut || cut < named) && r.error.detail.namedLength == |named| && r.error.detail.cutLength == |cut|
  {
    if named == cut { return Ok(()); }
    var disagreement := FindDisagreement(named, cut);
    match disagreement
    case Some(local) => return Err(WrongNumbering(index, DiffersAt(local, named[local], cut[local])));
    case None => return Err(WrongNumbering(index, LengthsDiffer(|named|, |cut|)));
  }

  method CheckComponent(index: nat, c: ComponentVtree, f: Formula) returns (r: Result<(), Mismatch>)
    requires c.vtree.Valid() && InFormula(f, c.clauseIndices)
    ensures r.Ok? <==> ComponentBelongs(f, c)
  {
    hide ComponentVars, LeafSpace;
    var outer := ComponentVars(f, c.clauseIndices);
    ComponentFits(f, c.clauseIndices);
    LeafCheckIsPermutation(c.vtree, |outer|);
    if c.vtree.NumLeaves() != |outer| { return Err(LeafCount); }
    r := CheckLeafSpace(c.vtree, |outer|);
    if r.Ok? { r := CheckLocalToOuterMatches(index, c.localToOuter, outer); }
  }

  /** Accepts exactly the builds that belong to the formula. */
  method CheckBuildBelongs(build: VtreeBuild, f: Formula) returns (r: Result<(), Mismatch>)
    requires WellFormed(f) && AllValid(build)
    ensures r.Ok? <==> Belongs(build, f)
  {
    hide LeafSpace, ComponentVars, ClaimedVars, ClausesVars, ClausesFree, OnceWithin;
    LeafCheckIsPermutation(build.vtree, f.numVars);
    if build.vtree.NumLeaves() != f.numVars { return Err(LeafCount); }
    r := CheckLeafSpace(build.vtree, f.numVars);
    if r.Err? || build.components.None? { return r; }
    r := CheckComponents(build.components.value, f);
  }

  /** One component claimed and checked: accepted exactly when it belongs and is apart from those before it. */
  method ClaimAndCheck(k: nat, comps: seq<ComponentVtree>, f: Formula, claims0: seq<Option<nat>>)
    returns (r: Result<(), Mismatch>, claims: seq<Option<nat>>)
    requires WellFormed(f) && ValidTrees(comps) && k < |comps| && ClaimsOf(claims0, f, comps, k)
    ensures r.Ok? <==> ComponentBelongs(f, comps[k]) && ApartFromEarlier(f, comps, k)
    ensures r.Ok? ==> ClaimsOf(claims, f, comps, k + 1)
  {
    hide ComponentBelongs, ApartFromEarlier, ClausesFree, ClaimsOf, ClaimsAdded, ClausesVars;
    var c := comps[k];
    FreeIsApart(claims0, f, comps, k);
    BelongingExists(f, c);
    r, claims := ClaimComponentClauses(k, c.clauseIndices, f, claims0);
    if r.Err? { return r, claims; }
    ClaimsStep(claims0, claims, f, comps, k);
    r := CheckComponent(k, c, f);
  }

  method CheckComponents(comps: seq<ComponentVtree>, f: Formula) returns (r: Result<(), Mismatch>)
    requires WellFormed(f) && ValidTrees(comps)
    ensures r.Ok? <==> FirstBelong(f, comps, |comps|)
  {
    hide ComponentBelongs, ApartFromEarlier, ClaimsOf, ValidTrees, WellFormed;
    var claims: seq<Option<nat>> := seq(f.numVars, _ => None);
    assert ClaimsOf(claims, f, comps, 0) by { NothingClaimed(f, comps); }
    for k := 0 to |comps|
      invariant ClaimsOf(claims, f, comps, k) && FirstBelong(f, comps, k)
    {
      r, claims := ClaimAndCheck(k, comps, f, claims);
      if r.Err? { return r; }
    }
    return Ok(());
  }

  lemma NothingClaimed(f: Formula, comps: seq<ComponentVtree>)
    ensures ClaimsOf(seq(f.numVars, _ => None), f, comps, 0)
  {
  }

  lemma BelongingExists(f: Formula, c: ComponentVtree)
    requires c.vtree.Valid()
    ensures IndicesExist(f, c.clauseIndices) <==> InFormula(f, c.clauseIndices)
    ensures ComponentBelongs(f, c) ==> IndicesExist(f, c.clauseIndices)
  {
    ExistIsInFormula(f, c.clauseIndices);
  }

  lemma ExistIsInFormula(f: Formula, clauseIndices: seq<nat>)
    ensures IndicesExist(f, clauseIndices) <==> InFormula(f, clauseIndices)
  {
    if InFormula(f, clauseIndices) {
      forall k | 0 <= k < |clauseIndices| ensures clauseIndices[k] < |f.clauses| {
        assert clauseIndices[k] in clauseIndices;
      }
    }
  }
}
