/** Components renumbered, and how their model counts multiply to that of the whole. */
module ComponentCount {
  import opened Sequences
  import opened Cnf
  import opened Counting
  import opened Components

  ghost predicate InFormula(f: Formula, indices: seq<nat>) {
    forall i: nat :: i in indices ==> i < |f.clauses|
  }

  /** Clauses picked by index. */
  function Pick(f: Formula, indices: seq<nat>): (r: seq<Clause>)
    requires InFormula(f, indices)
    ensures |r| == |indices| && forall k :: 0 <= k < |r| ==> indices[k] in indices && r[k] == f.clauses[indices[k]]
  {
    assert forall k :: 0 <= k < |indices| ==> indices[k] in indices;
    seq(|indices|, k requires 0 <= k < |indices| => f.clauses[indices[k]])
  }

  function ClauseVars(c: Clause): seq<VarId> {
    seq(|c|, i requires 0 <= i < |c| => c[i].v)
  }

  function VarsOf(cs: seq<Clause>): seq<VarId> {
    if cs == [] then [] else VarsOf(cs[..|cs| - 1]) + ClauseVars(cs[|cs| - 1])
  }

  lemma {:induction false} VarsOfMembers(cs: seq<Clause>)
    ensures forall v :: v in VarsOf(cs) <==> exists c, l :: c in cs && l in c && l.v == v
  {
    if cs != [] {
      var front, last := cs[..|cs| - 1], cs[|cs| - 1];
      VarsOfMembers(front);
      forall v ensures v in ClauseVars(last) <==> exists l :: l in last && l.v == v {
        if v in ClauseVars(last) {
          var i :| 0 <= i < |last| && ClauseVars(last)[i] == v;
          assert last[i] in last;
        }
        if exists l :: l in last && l.v == v {
          var l :| l in last && l.v == v;
          var i :| 0 <= i < |last| && last[i] == l;
          assert ClauseVars(last)[i] == v;
        }
      }
      assert forall c :: c in cs <==> c in front || c == last;
    }
  }

  /** Where local names lead: the component's variables from the smallest up. */
  function ComponentVars(f: Formula, indices: seq<nat>): seq<VarId>
    requires InFormula(f, indices)
  {
    SortedVars(VarsOf(Pick(f, indices)))
  }

  /** The inverse map, from outer variables to local ones. */
  function LocalIds(outer: seq<VarId>): (m: map<VarId, VarId>)
    requires |outer| <= MAX_VAR
    ensures forall v :: v in m ==> v in outer
  {
    if outer == [] then map[]
    else LocalIds(outer[..|outer| - 1])[outer[|outer| - 1] := FromIdx(|outer| - 1)]
  }

  lemma ComponentVarsMeaning(f: Formula, indices: seq<nat>)
    requires InFormula(f, indices)
    ensures Increasing(ComponentVars(f, indices))
    ensures forall v :: v in ComponentVars(f, indices) <==> exists c, l :: c in Pick(f, indices) && l in c && l.v == v
    ensures Over(Pick(f, indices), ToSet(ComponentVars(f, indices)))
  {
    SortedVarsMeaning(VarsOf(Pick(f, indices)));
    VarsOfMembers(Pick(f, indices));
  }

  lemma LocalIdsAt(outer: seq<VarId>)
    requires Increasing(outer) && |outer| <= MAX_VAR
    ensures LocalIds(outer).Keys == ToSet(outer)
    ensures forall i :: 0 <= i < |outer| ==> outer[i] in LocalIds(outer) && LocalIds(outer)[outer[i]] == i + 1
  {
    hide LocalIds, Increasing;
    LocalIdsKeys(outer);
    forall i | 0 <= i < |outer| ensures outer[i] in LocalIds(outer) && LocalIds(outer)[outer[i]] == i + 1 {
      LocalIdAt(outer, i);
    }
  }

  lemma {:induction false} LocalIdsKeys(outer: seq<VarId>)
    requires |outer| <= MAX_VAR
    ensures LocalIds(outer).Keys == ToSet(outer)
  {
    hide LocalIds;
    if outer == [] {
      NoLocalIds();
    } else {
      LocalIdsKeys(outer[..|outer| - 1]);
      LocalIdsNext(outer);
      assert ToSet(outer) == ToSet(outer[..|outer| - 1]) + {outer[|outer| - 1]};
    }
  }

  lemma {:induction false} LocalIdAt(outer: seq<VarId>, i: nat)
    requires Increasing(outer) && i < |outer| <= MAX_VAR
    ensures outer[i] in LocalIds(outer) && LocalIds(outer)[outer[i]] == i + 1
  {
    hide LocalIds;
    var front := outer[..|outer| - 1];
    LocalIdsNext(outer);
    if i < |front| {
      LocalIdAt(front, i);
      assert front[i] == outer[i] && outer[i] != outer[|front|];
    }
  }

  lemma NoLocalIds()
    ensures LocalIds([]).Keys == {}
  {
  }

  lemma LocalIdsNext(outer: seq<VarId>)
    requires 0 < |outer| <= MAX_VAR
    ensures LocalIds(outer) == LocalIds(outer[..|outer| - 1])[outer[|outer| - 1] := FromIdx(|outer| - 1)]
    ensures LocalIds(outer).Keys == LocalIds(outer[..|outer| - 1]).Keys + {outer[|outer| - 1]}
  {
  }

  lemma LocalIdBack(outer: seq<VarId>, v: VarId)
    requires Increasing(outer) && |outer| <= MAX_VAR && v in LocalIds(outer)
    ensures 1 <= LocalIds(outer)[v] <= |outer| && outer[LocalIds(outer)[v] - 1] == v
  {
    hide LocalIds;
    LocalIdsAt(outer);
    var i :| 0 <= i < |outer| && outer[i] == v;
  }

  lemma LocalIdOf(outer: seq<VarId>, u: VarId)
    requires Increasing(outer) && |outer| <= MAX_VAR && u <= |outer|
    ensures outer[u - 1] in LocalIds(outer) && LocalIds(outer)[outer[u - 1]] == u
  {
    LocalIdsAt(outer);
  }

  lemma LocalIdsMeaning(outer: seq<VarId>)
    requires Increasing(outer) && |outer| <= MAX_VAR
    ensures LocalIds(outer).Keys == ToSet(outer)
    ensures Onto(LocalIds(outer), AllVars(|outer|))
    ensures InjectiveMap(LocalIds(outer))
  {
    var m := LocalIds(outer);
    assert m.Keys == ToSet(outer) by { LocalIdsAt(outer); }
    forall v | v in m ensures m[v] <= |outer| { LocalIdBack(outer, v); }
    forall v, w | v in m && w in m && m[v] == m[w] ensures v == w {
      LocalIdBack(outer, v);
      LocalIdBack(outer, w);
    }
    forall u | u in AllVars(|outer|) ensures exists v :: v in m && m[v] == u {
      LocalIdOf(outer, u);
    }
  }

  /** A clause list over the variables `outer`, renumbered to their positions. */
  function SubFormula(cs: seq<Clause>, outer: seq<VarId>): Formula
    requires |outer| <= MAX_VAR && Over(cs, LocalIds(outer).Keys)
  {
    Formula(|outer|, seq(|cs|, k requires 0 <= k < |cs| => RenameIn(cs, k, LocalIds(outer))))
  }

  function RenameIn(cs: seq<Clause>, k: nat, names: map<VarId, VarId>): Clause
    requires k < |cs| && Over(cs, names.Keys)
  {
    assert cs[k] in cs;
    RenameClause(cs[k], names)
  }

  lemma SubFormulaCount(cs: seq<Clause>, outer: seq<VarId>)
    requires Increasing(outer) && |outer| <= MAX_VAR && Over(cs, LocalIds(outer).Keys)
    ensures Count(SubFormula(cs, outer)) == |Models(cs, ToSet(outer))|
  {
    LocalIdsMeaning(outer);
    var sub := SubFormula(cs, outer);
    forall k | 0 <= k < |cs| ensures cs[k] in cs && sub.clauses[k] == RenameIn(cs, k, LocalIds(outer)) { }
    RenamedCount(cs, sub.clauses, ToSet(outer), AllVars(|outer|), LocalIds(outer));
  }

  lemma SubFormulaWellFormed(cs: seq<Clause>, outer: seq<VarId>)
    requires Increasing(outer) && |outer| <= MAX_VAR && Over(cs, LocalIds(outer).Keys)
    ensures WellFormed(SubFormula(cs, outer))
  {
    LocalIdsMeaning(outer);
    var sub, names := SubFormula(cs, outer), LocalIds(outer);
    forall c | c in sub.clauses ensures InRange(c, |outer|) {
      var k :| 0 <= k < |cs| && sub.clauses[k] == c;
      assert c == RenameIn(cs, k, names) && cs[k] in cs;
      forall l | l in c ensures l.v <= |outer| {
        var i :| 0 <= i < |c| && c[i] == l;
        assert cs[k][i] in cs[k] && l.v == names[cs[k][i].v];
      }
    }
  }

  lemma ComponentFits(f: Formula, indices: seq<nat>)
    requires InFormula(f, indices)
    ensures Increasing(ComponentVars(f, indices)) && |ComponentVars(f, indices)| <= MAX_VAR
    ensures Over(Pick(f, indices), LocalIds(ComponentVars(f, indices)).Keys)
  {
    ComponentVarsMeaning(f, indices);
    IncreasingVarsBound(ComponentVars(f, indices));
    LocalIdsMeaning(ComponentVars(f, indices));
  }

  /** One component over its own contiguous variables, and what each of them stands for. */
  function ExtractComponent(f: Formula, indices: seq<nat>): (Formula, seq<VarId>)
    requires InFormula(f, indices)
  {
    ComponentFits(f, indices);
    (SubFormula(Pick(f, indices), ComponentVars(f, indices)), ComponentVars(f, indices))
  }

  /** The extracted formula is well formed and has as many models as its clauses over their variables. */
  lemma ExtractKeepsCount(f: Formula, indices: seq<nat>)
    requires InFormula(f, indices)
    ensures WellFormed(ExtractComponent(f, indices).0)
    ensures Count(ExtractComponent(f, indices).0)
         == |Models(Pick(f, indices), ToSet(ComponentVars(f, indices)))|
  {
    ComponentFits(f, indices);
    SubFormulaWellFormed(Pick(f, indices), ComponentVars(f, indices));
    SubFormulaCount(Pick(f, indices), ComponentVars(f, indices));
  }

  // ---- the product ----

  ghost function CountProduct(f: Formula, groups: seq<seq<nat>>): int
    requires forall g :: g in groups ==> InFormula(f, g)
  {
    if groups == [] then 1
    else CountProduct(f, groups[..|groups| - 1]) * ComponentModels(f, groups[|groups| - 1])
  }

  /** The model count of one extracted component. */
  ghost function ComponentModels(f: Formula, indices: seq<nat>): nat
    requires InFormula(f, indices)
  {
    ExtractKeepsCount(f, indices);
    Count(ExtractComponent(f, indices).0)
  }

  /** The variables of some groups, and their clauses one group after the other. */
  ghost function GroupVars(f: Formula, groups: seq<seq<nat>>): set<VarId>
    requires forall g :: g in groups ==> InFormula(f, g)
  {
    if groups == [] then {}
    else GroupVars(f, groups[..|groups| - 1]) + ToSet(ComponentVars(f, groups[|groups| - 1]))
  }

  ghost function GroupClauses(f: Formula, groups: seq<seq<nat>>): seq<Clause>
    requires forall g :: g in groups ==> InFormula(f, g)
  {
    if groups == [] then []
    else GroupClauses(f, groups[..|groups| - 1]) + Pick(f, groups[|groups| - 1])
  }

  lemma {:induction false} GroupMembers(f: Formula, groups: seq<seq<nat>>)
    requires forall g :: g in groups ==> InFormula(f, g)
    ensures forall c :: c in GroupClauses(f, groups) <==> exists g :: g in groups && c in Pick(f, g)
    ensures forall v :: v in GroupVars(f, groups) <==> exists g :: g in groups && v in ComponentVars(f, g)
    ensures Over(GroupClauses(f, groups), GroupVars(f, groups))
  {
    if groups != [] {
      var front, last := groups[..|groups| - 1], groups[|groups| - 1];
      GroupMembers(f, front);
      ComponentVarsMeaning(f, last);
      assert forall g :: g in groups <==> g in front || g == last;
    }
  }

  /** A variable in two groups puts a clause of each in one component. */
  lemma GroupsShareNothing(f: Formula, g: seq<nat>, h: seq<nat>, v: VarId)
    requires InFormula(f, g) && InFormula(f, h) && SameExactly(f.clauses, g, h)
    requires v in ComponentVars(f, g) && v in ComponentVars(f, h)
    ensures g == h
  {
    ComponentVarsMeaning(f, g);
    ComponentVarsMeaning(f, h);
    var c, l :| c in Pick(f, g) && l in c && l.v == v;
    var d, m :| d in Pick(f, h) && m in d && m.v == v;
    var i :| 0 <= i < |g| && Pick(f, g)[i] == c;
    var j :| 0 <= j < |h| && Pick(f, h)[j] == d;
    SharedVarRelates(f.clauses, g[i], h[j], l, m);
  }

  lemma {:induction false} ProductOverGroups(f: Formula, groups: seq<seq<nat>>)
    requires forall g :: g in groups ==> InFormula(f, g)
    requires Distinct(groups) && forall g, h :: g in groups && h in groups ==> SameExactly(f.clauses, g, h)
    ensures |Models(GroupClauses(f, groups), GroupVars(f, groups))| == CountProduct(f, groups)
  {
    if groups == [] {
      FreeCount({});
    } else {
      var front, last := groups[..|groups| - 1], groups[|groups| - 1];
      ProductOverGroups(f, front);
      GroupMembers(f, front);
      ComponentVarsMeaning(f, last);
      ExtractKeepsCount(f, last);
      var va, vb := GroupVars(f, front), ToSet(ComponentVars(f, last));
      forall g | g in front ensures g != last {
        var i :| 0 <= i < |front| && front[i] == g;
        assert groups[i] != groups[|groups| - 1];
      }
      forall v | v in va ensures v !in vb {
        var g :| g in front && v in ComponentVars(f, g);
        if v in vb {
          GroupsShareNothing(f, g, last, v);
          assert false;
        }
      }
      IndependentCount(GroupClauses(f, front), Pick(f, last), GroupClauses(f, groups), va, vb);
    }
  }

  /** The variables no clause mentions. */
  ghost function FreeVars(f: Formula): set<VarId>
    requires f.numVars <= MAX_VAR
  {
    set v | v in AllVars(f.numVars) && forall c :: c in f.clauses ==> !Mentions(c, v)
  }

  /** The count of a formula is the product of its components' counts, doubled for every free variable. */
  lemma CountFactors(f: Formula, groups: seq<seq<nat>>)
    requires WellFormed(f) && IsSplit(f.clauses, groups)
    ensures forall g :: g in groups ==> InFormula(f, g)
    ensures Count(f) == CountProduct(f, groups) * Pow2(|FreeVars(f)|)
  {
    assert forall g :: g in groups ==> InFormula(f, g);
    assert Distinct(groups) by {
      forall m, n | 0 <= m < n < |groups| ensures groups[m] != groups[n] {
        assert GroupKey(f.clauses, groups[m]) < GroupKey(f.clauses, groups[n]);
      }
    }
    ProductOverGroups(f, groups);
    GroupMembers(f, groups);
    SplitCoversFormula(f, groups);
    FreeCount(FreeVars(f));
    IndependentCount(GroupClauses(f, groups), [], f.clauses, GroupVars(f, groups), FreeVars(f));
  }

  lemma SplitCoversFormula(f: Formula, groups: seq<seq<nat>>)
    requires WellFormed(f) && IsSplit(f.clauses, groups)
    requires forall g :: g in groups ==> InFormula(f, g)
    ensures forall c :: c in GroupClauses(f, groups) <==> c in f.clauses
    ensures GroupVars(f, groups) !! FreeVars(f)
    ensures GroupVars(f, groups) + FreeVars(f) == AllVars(f.numVars)
  {
    GroupMembers(f, groups);
    forall c | c in f.clauses ensures c in GroupClauses(f, groups) {
      var i :| 0 <= i < |f.clauses| && f.clauses[i] == c;
      assert Covered(groups, i);
      var g :| g in groups && i in g;
      var k :| 0 <= k < |g| && g[k] == i;
      assert Pick(f, g)[k] == c;
    }
    forall c | c in GroupClauses(f, groups) ensures c in f.clauses {
      var g :| g in groups && c in Pick(f, g);
      var k :| 0 <= k < |g| && Pick(f, g)[k] == c;
    }
    forall v ensures v in GroupVars(f, groups) <==> v in AllVars(f.numVars) && v !in FreeVars(f) {
      GroupVarOccurs(f, groups, v);
    }
  }

  lemma GroupVarOccurs(f: Formula, groups: seq<seq<nat>>, v: VarId)
    requires WellFormed(f) && forall g :: g in groups ==> InFormula(f, g)
    requires forall c :: c in GroupClauses(f, groups) <==> c in f.clauses
    ensures v in GroupVars(f, groups) <==> exists c :: c in f.clauses && Mentions(c, v)
    ensures v in GroupVars(f, groups) ==> v in AllVars(f.numVars)
  {
    GroupMembers(f, groups);
    if v in GroupVars(f, groups) {
      var g :| g in groups && v in ComponentVars(f, g);
      ComponentVarsMeaning(f, g);
      var c, l :| c in Pick(f, g) && l in c && l.v == v;
      assert c in GroupClauses(f, groups) && LitMentions(c, l);
    }
    if exists c :: c in f.clauses && Mentions(c, v) {
      var c :| c in f.clauses && Mentions(c, v);
      var l := MentionedLiteral(c, v);
      var g :| g in groups && c in Pick(f, g);
      ComponentVarsMeaning(f, g);
    }
  }
}
