/** Building component by component: the result always passes the test before export. */
module ComponentBuild {
  import opened Wrappers
  import opened Cnf
  import opened Sequences
  import opened Ordering
  import opened Counting
  import opened ShowSets
  import opened Components
  import opened ComponentCount
  import opened Canonical
  import opened Vtrees
  import opened Grafting
  import opened Bisect
  import opened VtreeCache
  import opened BuildCheck

  /** The view one component is built from. */
  datatype LocalView = LocalView(formula: Formula, show: Option<ShowSet>, localToOuter: seq<VarId>)

  method PrepareComponentView(f: Formula, indices: seq<nat>, show: Option<ShowMask>, inComponent0: seq<bool>)
    returns (view: LocalView, inComponent: seq<bool>)
    requires WellFormed(f) && InFormula(f, indices) && |inComponent0| == f.numVars
    ensures view.formula == ExtractComponent(f, indices).0 && view.localToOuter == ComponentVars(f, indices)
    ensures view.show.Some? <==> show.Some?
    ensures view.show.Some? ==> forall v: VarId :: v in view.show.value <==>
              Idx(v) < |view.localToOuter| && IsShow(show.value, view.localToOuter[Idx(v)])
    ensures |inComponent| == f.numVars
    ensures forall v: VarId :: v <= f.numVars ==>
              (inComponent[Idx(v)] <==> inComponent0[Idx(v)] || v in view.localToOuter)
  {
    hide SubFormula, ComponentVars, Pick, LocalIds;
    ComponentFits(f, indices);
    OuterInRange(f, indices);
    var (sub, outer) := ExtractComponent(f, indices);
    var restricted: Option<ShowSet> := None;
    if show.Some? {
      var s := Restrict(show.value, outer);
      restricted := Some(s);
    }
    view := LocalView(sub, restricted, outer);
    inComponent := MarkVars(inComponent0, outer);
  }

  method MarkVars(marked0: seq<bool>, vars: seq<VarId>) returns (marked: seq<bool>)
    requires forall v :: v in vars ==> Idx(v) < |marked0|
    ensures |marked| == |marked0|
    ensures forall v: VarId :: Idx(v) < |marked| ==> (marked[Idx(v)] <==> marked0[Idx(v)] || v in vars)
  {
    marked := marked0;
    for k := 0 to |vars|
      invariant |marked| == |marked0|
      invariant forall v: VarId :: Idx(v) < |marked| ==> (marked[Idx(v)] <==> marked0[Idx(v)] || v in vars[..k])
    {
      assert vars[k] in vars && vars[..k + 1] == vars[..k] + [vars[k]];
      marked := marked[Idx(vars[k]) := true];
    }
    assert vars[..|vars|] == vars;
  }

  lemma OuterInRange(f: Formula, indices: seq<nat>)
    requires WellFormed(f) && InFormula(f, indices)
    ensures forall v :: v in ComponentVars(f, indices) ==> v <= f.numVars
  {
    ComponentVarsMeaning(f, indices);
    forall v | v in ComponentVars(f, indices) ensures v <= f.numVars {
      var c, l :| c in Pick(f, indices) && l in c && l.v == v;
      var k :| 0 <= k < |indices| && Pick(f, indices)[k] == c;
      assert InRange(f.clauses[indices[k]], f.numVars);
    }
  }

  /** The variables no component has, ascending. */
  method FreeVarsOf(inComponent: seq<bool>, numVars: nat) returns (vars: seq<VarId>)
    requires |inComponent| == numVars <= MAX_VAR
    ensures Increasing(vars) && forall v: VarId :: v in vars <==> v <= numVars && !inComponent[Idx(v)]
  {
    vars := [];
    for i := 0 to numVars
      invariant Increasing(vars) && forall v: VarId :: v in vars <==> v <= i && !inComponent[Idx(v)]
    {
      assert forall k :: 0 <= k < |vars| ==> vars[k] in vars;
      if !inComponent[i] { vars := vars + [FromIdx(i)]; }
    }
  }

  // ---- what the loop has built ----

  ghost predicate BuiltFrom(f: Formula, c: ComponentVtree, indices: seq<nat>) {
    && InFormula(f, indices) && c.clauseIndices == indices && c.localToOuter == ComponentVars(f, indices) && Spans(c)
  }

  ghost predicate AllBuilt(f: Formula, built: seq<ComponentVtree>, comps: seq<seq<nat>>) {
    |built| == |comps| && forall i :: 0 <= i < |built| ==> BuiltFrom(f, built[i], comps[i])
  }

  ghost predicate AllInFormula(f: Formula, comps: seq<seq<nat>>) {
    forall i :: 0 <= i < |comps| ==> InFormula(f, comps[i])
  }

  ghost predicate Groups(f: Formula, comps: seq<seq<nat>>) {
    && AllInFormula(f, comps)
    && forall i, j :: 0 <= i < j < |comps| ==> ToSet(ComponentVars(f, comps[i])) !! ToSet(ComponentVars(f, comps[j]))
  }

  /** The variables of the groups so far. */
  ghost function VarsOfGroups(f: Formula, comps: seq<seq<nat>>): set<VarId>
    requires AllInFormula(f, comps)
  {
    if comps == [] then {}
    else VarsOfGroups(f, comps[..|comps| - 1]) + ToSet(ComponentVars(f, comps[|comps| - 1]))
  }

  lemma SplitIsGroups(f: Formula, comps: seq<seq<nat>>)
    requires WellFormed(f) && IsSplit(f.clauses, comps)
    ensures Groups(f, comps)
  {
    forall i | 0 <= i < |comps| ensures InFormula(f, comps[i]) { assert comps[i] in comps; }
    forall i, j | 0 <= i < j < |comps|
      ensures ToSet(ComponentVars(f, comps[i])) !! ToSet(ComponentVars(f, comps[j]))
    {
      assert comps[i] in comps && comps[j] in comps;
      assert GroupKey(f.clauses, comps[i]) < GroupKey(f.clauses, comps[j]);
      forall v | v in ComponentVars(f, comps[i]) ensures v !in ComponentVars(f, comps[j]) {
        if v in ComponentVars(f, comps[j]) {
          GroupsShareNothing(f, comps[i], comps[j], v);
          assert false;
        }
      }
    }
  }

  ghost predicate InSomeGroup(f: Formula, comps: seq<seq<nat>>, v: VarId)
    requires AllInFormula(f, comps)
  {
    exists i :: 0 <= i < |comps| && v in ComponentVars(f, comps[i])
  }

  lemma {:induction false} VarsOfGroupsMembers(f: Formula, comps: seq<seq<nat>>, v: VarId)
    requires AllInFormula(f, comps)
    ensures v in VarsOfGroups(f, comps) <==> InSomeGroup(f, comps, v)
  {
    hide ComponentVars;
    if comps != [] {
      var front := comps[..|comps| - 1];
      VarsOfGroupsMembers(f, front, v);
      if InSomeGroup(f, front, v) {
        var i :| 0 <= i < |front| && v in ComponentVars(f, front[i]);
        assert comps[i] == front[i];
      }
      if InSomeGroup(f, comps, v) && v !in ComponentVars(f, comps[|comps| - 1]) {
        var i :| 0 <= i < |comps| && v in ComponentVars(f, comps[i]);
        assert front[i] == comps[i];
      }
    }
  }

  /** Disjoint groups: their trees carry each of their variables once. */
  lemma {:induction false} OuterBagIsSet(f: Formula, built: seq<ComponentVtree>, comps: seq<seq<nat>>)
    requires Groups(f, comps) && AllBuilt(f, built, comps)
    ensures OuterBag(built) == multiset(VarsOfGroups(f, comps))
  {
    if built != [] {
      var n := |built| - 1;
      forall i | 0 <= i < n ensures BuiltFrom(f, built[..n][i], comps[..n][i]) {
        assert BuiltFrom(f, built[i], comps[i]);
      }
      GroupsPrefix(f, comps, n);
      OuterBagIsSet(f, built[..n], comps[..n]);
      assert BuiltFrom(f, built[n], comps[n]);
      LastGroupApart(f, comps);
      var last := ComponentVars(f, comps[n]);
      ComponentVarsMeaning(f, comps[n]);
      DistinctBag(last);
      DisjointBags(VarsOfGroups(f, comps[..n]), ToSet(last));
    }
  }

  lemma GroupsPrefix(f: Formula, comps: seq<seq<nat>>, n: nat)
    requires Groups(f, comps) && n <= |comps|
    ensures Groups(f, comps[..n])
  {
    hide ComponentVars;
  }

  lemma LastGroupApart(f: Formula, comps: seq<seq<nat>>)
    requires Groups(f, comps) && comps != []
    ensures AllInFormula(f, comps[..|comps| - 1])
    ensures VarsOfGroups(f, comps[..|comps| - 1]) !! ToSet(ComponentVars(f, comps[|comps| - 1]))
  {
    hide ComponentVars;
    var n := |comps| - 1;
    GroupsPrefix(f, comps, n);
    forall v | v in VarsOfGroups(f, comps[..n]) ensures v !in ComponentVars(f, comps[n]) {
      VarsOfGroupsMembers(f, comps[..n], v);
      var i :| 0 <= i < n && v in ComponentVars(f, comps[..n][i]);
      assert ToSet(ComponentVars(f, comps[i])) !! ToSet(ComponentVars(f, comps[n]));
      assert v in ToSet(ComponentVars(f, comps[i]));
    }
  }

  lemma DisjointBags(a: set<VarId>, b: set<VarId>)
    requires a !! b
    ensures multiset(a + b) == multiset(a) + multiset(b)
  {
  }

  // ---- where each component's tree is from ----

  ghost function SubOf(f: Formula, indices: seq<nat>): (sub: Formula)
    requires WellFormed(f) && InFormula(f, indices)
    ensures WellFormed(sub) && sub.numVars == |ComponentVars(f, indices)|
  {
    ExtractFits(f, indices);
    ExtractComponent(f, indices).0
  }

  /** The outer show flags under local names, and none for a tiny component. */
  ghost predicate ShowsAs(f: Formula, indices: seq<nat>, show: Option<ShowMask>, local: Option<ShowMask>)
    requires InFormula(f, indices)
  {
    var outer := ComponentVars(f, indices);
    && (local.Some? <==> show.Some? && !IsTinyComponent(|outer|))
    && (local.Some? ==> |local.value| == |outer|
                        && forall i :: 0 <= i < |outer| ==> (local.value[i] <==> IsShow(show.value, outer[i])))
  }

  /** One component's tree over its own variables, and the key the component was looked up under. */
  datatype Made = Made(key: ComponentKey, origin: Origin)

  ghost function MadeOf(sub: Formula, local: Option<ShowMask>, t: Tree): Made
    requires WellFormed(sub)
  {
    Made(KeyUsed(sub, local), Origin(sub, local, OrderUsed(sub, local), t))
  }

  ghost predicate MadeFor(f: Formula, indices: seq<nat>, show: Option<ShowMask>, c: ComponentVtree, m: Made)
    requires WellFormed(f) && InFormula(f, indices)
  {
    && c.vtree.Valid() && ShowsAs(f, indices, show, m.origin.show)
    && m == MadeOf(SubOf(f, indices), m.origin.show, c.vtree.Shape())
  }

  ghost predicate AllMadeFor(f: Formula, comps: seq<seq<nat>>, show: Option<ShowMask>, built: seq<ComponentVtree>,
                             made: seq<Made>)
    requires WellFormed(f) && AllInFormula(f, comps)
  {
    |made| == |built| <= |comps| && forall i :: 0 <= i < |made| ==> MadeFor(f, comps[i], show, built[i], made[i])
  }

  /** No earlier component has the key of this one. */
  ghost predicate First(made: seq<Made>, i: nat)
    requires i < |made|
  {
    forall j: nat :: j < i ==> made[j].key != made[i].key
  }

  /** A builder answered with this tree for this component. */
  ghost predicate Answered(o: Origin, builders: Builders) {
    0 < o.f.numVars <= MAX_VAR && exists k :: builders.Answer(k, o.f, o.show) == Ok(o.tree)
  }

  ghost predicate CopyOf(first: Origin, o: Origin) {
    exists name :: ReusedFrom(first, o.f, o.show, o.tree, name)
  }

  /** The first component of a key has the tree a builder answered with; every other has that of the first one,
      renamed by an isomorphism between the two. */
  ghost predicate Sourced(made: seq<Made>, builders: Builders, i: nat)
    requires i < |made|
  {
    if First(made, i) then Answered(made[i].origin, builders)
    else exists j: nat :: j < i && First(made, j) && made[j].key == made[i].key
                          && CopyOf(made[j].origin, made[i].origin)
  }

  ghost predicate AllSourced(made: seq<Made>, builders: Builders) {
    forall i: nat :: i < |made| ==> Sourced(made, builders, i)
  }

  /** The cache has the first component of each key. */
  ghost predicate Cached(made: seq<Made>, keys: set<ComponentKey>, origins: map<ComponentKey, Origin>) {
    && (forall i: nat :: i < |made| ==> made[i].key in keys)
    && forall key :: key in keys ==> key in origins && FirstIs(made, key, origins[key])
  }

  ghost predicate FirstIs(made: seq<Made>, key: ComponentKey, o: Origin) {
    exists i: nat :: i < |made| && First(made, i) && made[i] == Made(key, o)
  }

  lemma FirstStays(made: seq<Made>, m: Made, i: nat)
    requires i < |made|
    ensures First(made + [m], i) <==> First(made, i)
  {
    assert forall j: nat :: j <= i ==> (made + [m])[j] == made[j];
  }

  lemma FirstIsStays(made: seq<Made>, m: Made, key: ComponentKey, o: Origin)
    requires FirstIs(made, key, o)
    ensures FirstIs(made + [m], key, o)
  {
    var i: nat :| i < |made| && First(made, i) && made[i] == Made(key, o);
    FirstStays(made, m, i);
    assert (made + [m])[i] == Made(key, o);
  }

  lemma SourcedStays(made: seq<Made>, m: Made, builders: Builders)
    requires AllSourced(made, builders)
    ensures forall i: nat :: i < |made| ==> Sourced(made + [m], builders, i)
  {
    hide First, Answered, CopyOf;
    var more := made + [m];
    forall i: nat | i < |made| ensures Sourced(more, builders, i) {
      assert Sourced(made, builders, i) && more[i] == made[i];
      FirstStays(made, m, i);
      if !First(made, i) {
        var j: nat :| j < i && First(made, j) && made[j].key == made[i].key && CopyOf(made[j].origin, made[i].origin);
        FirstStays(made, m, j);
        assert more[j] == made[j];
      }
    }
  }

  lemma NewIsFirst(made: seq<Made>, m: Made)
    requires forall i: nat :: i < |made| ==> made[i].key != m.key
    ensures First(made + [m], |made|) && FirstIs(made + [m], m.key, m.origin)
  {
    assert (made + [m])[|made|] == Made(m.key, m.origin);
  }

  /** A component whose key is new is built, and the cache has it then. */
  lemma BuiltNext(made: seq<Made>, m: Made, builders: Builders, keys: set<ComponentKey>,
                  origins: map<ComponentKey, Origin>)
    requires AllSourced(made, builders) && Cached(made, keys, origins)
    requires m.key !in keys && Answered(m.origin, builders)
    ensures AllSourced(made + [m], builders)
    ensures Cached(made + [m], keys + {m.key}, origins[m.key := m.origin])
  {
    hide Answered, CopyOf, FirstIs;
    var more, n := made + [m], |made|;
    SourcedStays(made, m, builders);
    NewIsFirst(made, m);
    assert Sourced(more, builders, n);
    forall key | key in keys ensures FirstIs(more, key, origins[key]) { FirstIsStays(made, m, key, origins[key]); }
  }

  /** A component whose key the cache has is renamed from the first of that key. */
  lemma ReusedNext(made: seq<Made>, m: Made, builders: Builders, keys: set<ComponentKey>,
                   origins: map<ComponentKey, Origin>)
    requires AllSourced(made, builders) && Cached(made, keys, origins)
    requires m.key in keys && CopyOf(origins[m.key], m.origin)
    ensures AllSourced(made + [m], builders) && Cached(made + [m], keys, origins)
  {
    hide Answered, CopyOf, FirstIs;
    var more, n := made + [m], |made|;
    SourcedStays(made, m, builders);
    assert Sourced(more, builders, n) by { CopiedLast(made, m, builders, origins[m.key]); }
    forall key | key in keys ensures FirstIs(more, key, origins[key]) { FirstIsStays(made, m, key, origins[key]); }
  }

  lemma CopiedLast(made: seq<Made>, m: Made, builders: Builders, first: Origin)
    requires FirstIs(made, m.key, first) && CopyOf(first, m.origin)
    ensures Sourced(made + [m], builders, |made|)
  {
    hide Answered, CopyOf;
    var j: nat :| j < |made| && First(made, j) && made[j] == Made(m.key, first);
    FirstStays(made, m, j);
    assert (made + [m])[j] == made[j] && (made + [m])[|made|] == m;
  }

  // ---- the build ----

  /** The variables in no group, ascending. */
  ghost predicate IsFree(f: Formula, comps: seq<seq<nat>>, free: seq<VarId>)
    requires AllInFormula(f, comps)
  {
    Increasing(free) && forall v: VarId :: v in free <==> v <= f.numVars && v !in VarsOfGroups(f, comps)
  }

  /** The whole tree: the components' trees and then the free variables, on a chain. */
  ghost predicate IsWhole(f: Formula, comps: seq<seq<nat>>, built: seq<ComponentVtree>, whole: Tree)
    requires AllInFormula(f, comps) && AllSpan(built)
  {
    exists free :: IsFree(f, comps, free) && (built != [] || free != []) && whole == Grafted(built, free)
  }

  lemma BuiltSpan(f: Formula, built: seq<ComponentVtree>, comps: seq<seq<nat>>)
    requires AllBuilt(f, built, comps)
    ensures AllSpan(built)
  {
    forall i | 0 <= i < |built| ensures Spans(built[i]) { assert BuiltFrom(f, built[i], comps[i]); }
  }

  method GraftWithFreeVars(f: Formula, built: seq<ComponentVtree>, comps: seq<seq<nat>>, inComponent: seq<bool>)
    returns (t: Vtree)
    requires WellFormed(f) && 0 < f.numVars == |inComponent| && Groups(f, comps) && AllBuilt(f, built, comps)
    requires forall v: VarId :: v <= f.numVars ==> (inComponent[Idx(v)] <==> v in VarsOfGroups(f, comps))
    requires VarsOfGroups(f, comps) <= AllVars(f.numVars)
    ensures t.Valid() && LeafSpace(t.Shape(), f.numVars)
    ensures AllSpan(built) && IsWhole(f, comps, built, t.Shape())
  {
    var free := FreeVarsOf(inComponent, f.numVars);
    OuterBagIsSet(f, built, comps);
    BuiltSpan(f, built, comps);
    DistinctBag(free);
    assert VarsOfGroups(f, comps) + ToSet(free) == AllVars(f.numVars);
    DisjointBags(VarsOfGroups(f, comps), ToSet(free));
    SomethingToGraft(f, built, comps, free);
    t := GraftComponentVtrees(built, free, f.numVars);
    assert IsFree(f, comps, free);
  }

  lemma SomethingToGraft(f: Formula, built: seq<ComponentVtree>, comps: seq<seq<nat>>, free: seq<VarId>)
    requires 0 < f.numVars <= MAX_VAR && Groups(f, comps) && |built| == |comps|
    requires VarsOfGroups(f, comps) + ToSet(free) == AllVars(f.numVars)
    ensures built != [] || free != []
  {
    var one: VarId := 1;
    assert one in AllVars(f.numVars);
  }

  lemma ComponentHasVars(f: Formula, indices: seq<nat>)
    requires WellFormed(f) && InFormula(f, indices) && indices != [] && forall c :: c in f.clauses ==> c != []
    ensures ComponentVars(f, indices) != []
  {
    ComponentVarsMeaning(f, indices);
    assert indices[0] in indices;
    var c := Pick(f, indices)[0];
    assert c in f.clauses && c in Pick(f, indices) && c[0] in c;
    assert c[0].v in ComponentVars(f, indices);
  }

  /** Every component built or reused over its own variables, and all of them grafted back: a finished
      build has one leaf per variable and is one the exporter accepts. */
  method BuildPerComponent(f: Formula, comps: seq<seq<nat>>, show: Option<ShowMask>, builders: Builders)
    returns (r: Result<VtreeBuild, BuildError>, cachedComponents: nat, ghost made: seq<Made>)
    requires WellFormed(f) && f.numVars > 0 && (forall c :: c in f.clauses ==> c != [])
    requires IsSplit(f.clauses, comps) && builders.Sound()
    modifies builders
    ensures r.Ok? ==> AllValid(r.value) && Belongs(r.value, f)
    ensures r.Ok? ==> r.value.components.Some? && AllBuilt(f, r.value.components.value, comps)
    ensures cachedComponents <= |comps|
    ensures Groups(f, comps)
    ensures r.Ok? ==> AllSpan(r.value.components.value)
                      && IsWhole(f, comps, r.value.components.value, r.value.vtree.Shape())
    ensures r.Ok? ==> AllMadeFor(f, comps, show, r.value.components.value, made) && AllSourced(made, builders)
    ensures r.Ok? ==> builders.calls - old(builders.calls) + cachedComponents == |comps|
  {
    hide Belongs, ComponentVars, EntrySound, IsSplit, AllSourced, Cached, MadeFor, IsWhole, AllMadeFor, BuiltFrom;
    SplitIsGroups(f, comps);
    cachedComponents := 0;
    made := [];
    var built: seq<ComponentVtree> := [];
    var inComponent := seq(f.numVars, _ => false);
    var cache: map<ComponentKey, Vtree> := map[];
    ghost var origins: map<ComponentKey, Origin> := map[];
    NothingMade(f, comps, show, builders);
    assert cache.Keys == {};
    for i := 0 to |comps|
      invariant |inComponent| == f.numVars && cachedComponents <= i && CacheSound(cache, origins)
      invariant Groups(f, comps[..i]) && AllBuilt(f, built, comps[..i])
      invariant MarksGroups(f, comps[..i], inComponent)
      invariant |made| == i && AllMadeFor(f, comps, show, built, made) && AllSourced(made, builders)
      invariant Cached(made, cache.Keys, origins)
      invariant builders.calls - old(builders.calls) + cachedComponents == i
    {
      GroupsPrefix(f, comps, i + 1);
      NonEmptyGroup(f, comps, i);
      var c, marked, cache', origins', hit, made' :=
        BuildComponent(f, comps[i], show, builders, inComponent, cache, origins, made);
      if hit { cachedComponents := cachedComponents + 1; }
      if c.Err? { return Err(c.error), cachedComponents, made; }
      cache, origins := cache', origins';
      MarksNext(f, comps, i, inComponent, marked);
      inComponent := marked;
      NextMade(f, comps, show, built, made, c.value, made'[i]);
      assert made' == made + [made'[i]];
      AllBuiltNext(f, built, comps, i, c.value);
      built := built + [c.value];
      made := made';
    }
    assert comps[..|comps|] == comps;
    var whole := GraftWithFreeVars(f, built, comps, inComponent);
    r := Ok(VtreeBuild(whole, Some(built)));
    BuiltBelongs(f, whole, built, comps);
  }

  /** One round of the loop: the component's view, its tree, and what the cache has then. */
  method BuildComponent(f: Formula, indices: seq<nat>, show: Option<ShowMask>, builders: Builders,
                        inComponent: seq<bool>, cache: map<ComponentKey, Vtree>,
                        ghost origins: map<ComponentKey, Origin>, ghost made: seq<Made>)
    returns (c: Result<ComponentVtree, BuildError>, marked: seq<bool>, cache': map<ComponentKey, Vtree>,
             ghost origins': map<ComponentKey, Origin>, hit: bool, ghost made': seq<Made>)
    requires WellFormed(f) && InFormula(f, indices) && ComponentVars(f, indices) != [] && |inComponent| == f.numVars
    requires builders.Sound() && CacheSound(cache, origins)
    requires AllSourced(made, builders) && Cached(made, cache.Keys, origins)
    modifies builders
    ensures |marked| == f.numVars
    ensures forall v: VarId :: v <= f.numVars ==>
              (marked[Idx(v)] <==> inComponent[Idx(v)] || v in ComponentVars(f, indices))
    ensures builders.calls == old(builders.calls) + if hit then 0 else 1
    ensures c.Ok? ==> BuiltFrom(f, c.value, indices) && |made'| == |made| + 1 && made == made'[..|made|]
                      && MadeFor(f, indices, show, c.value, made'[|made|])
    ensures c.Ok? ==> CacheSound(cache', origins')
    ensures c.Ok? ==> AllSourced(made', builders) && Cached(made', cache'.Keys, origins')
  {
    hide ComponentVars, EntrySound, AllSourced, Cached, ShowsAs, ReusedFrom, Answered, CopyOf, LeafSpace,
         ShowUsed, KeyUsed, OrderUsed, Builders.Answer, Builders.Sound, Vtree.Shape;
    var view;
    view, marked := PrepareComponentView(f, indices, show, inComponent);
    ExtractFits(f, indices);
    ghost var call, keys := builders.calls, cache.Keys;
    var t;
    ghost var local;
    t, cache', origins', hit, local := BuildOrReuse(view.formula, view.show, builders, cache, origins);
    if t.Err? { return Err(t.error), marked, cache', origins', hit, made; }
    ShowsLocally(f, indices, show, view, local);
    ghost var m := MadeOf(view.formula, local, t.value.Shape());
    made' := made + [m];
    NextSourced(made, view.formula, local, t.value.Shape(), builders, call, keys, origins, hit);
    var built := ComponentVtree(t.value, indices, view.localToOuter);
    SpansItsVars(f, indices, built);
    IsMadeFor(f, indices, show, built, local);
    c := Ok(built);
  }

  lemma IsMadeFor(f: Formula, indices: seq<nat>, show: Option<ShowMask>, c: ComponentVtree, local: Option<ShowMask>)
    requires WellFormed(f) && InFormula(f, indices) && c.vtree.Valid() && ShowsAs(f, indices, show, local)
    ensures MadeFor(f, indices, show, c, MadeOf(SubOf(f, indices), local, c.vtree.Shape()))
  {
    hide ShowsAs, SubOf, KeyUsed, OrderUsed, Vtree.Valid, Vtree.Shape;
  }

  lemma SpansItsVars(f: Formula, indices: seq<nat>, c: ComponentVtree)
    requires WellFormed(f) && InFormula(f, indices) && c.clauseIndices == indices && c.vtree.Valid()
    requires c.localToOuter == ComponentVars(f, indices) && |c.localToOuter| <= MAX_VAR
    requires LeafSpace(c.vtree.Shape(), |c.localToOuter|)
    ensures BuiltFrom(f, c, indices)
  {
  }

  lemma NothingMade(f: Formula, comps: seq<seq<nat>>, show: Option<ShowMask>, builders: Builders)
    requires WellFormed(f) && AllInFormula(f, comps)
    ensures AllMadeFor(f, comps, show, [], []) && AllSourced([], builders) && Cached([], {}, map[])
  {
  }

  lemma NextMade(f: Formula, comps: seq<seq<nat>>, show: Option<ShowMask>, built: seq<ComponentVtree>, made: seq<Made>,
                 c: ComponentVtree, m: Made)
    requires WellFormed(f) && AllInFormula(f, comps) && AllMadeFor(f, comps, show, built, made) && |made| < |comps|
    requires MadeFor(f, comps[|made|], show, c, m)
    ensures AllMadeFor(f, comps, show, built + [c], made + [m])
  {
    hide MadeFor;
  }

  lemma ShowsLocally(f: Formula, indices: seq<nat>, show: Option<ShowMask>, view: LocalView, local: Option<ShowMask>)
    requires InFormula(f, indices) && view.localToOuter == ComponentVars(f, indices)
    requires view.formula.numVars == |view.localToOuter| <= MAX_VAR
    requires view.show.Some? <==> show.Some?
    requires view.show.Some? ==> forall v: VarId :: v in view.show.value <==>
              Idx(v) < |view.localToOuter| && IsShow(show.value, view.localToOuter[Idx(v)])
    requires ShowUsed(view.formula, view.show, local)
    ensures ShowsAs(f, indices, show, local)
  {
    hide ComponentVars;
    if local.Some? {
      forall i | 0 <= i < |view.localToOuter|
        ensures local.value[i] <==> IsShow(show.value, view.localToOuter[i])
      {
        assert IsShow(local.value, FromIdx(i)) == local.value[i];
      }
    }
  }

  /** One more component, built or reused. */
  lemma NextSourced(made: seq<Made>, sub: Formula, local: Option<ShowMask>, t: Tree, builders: Builders, call: nat,
                    keys: set<ComponentKey>, origins: map<ComponentKey, Origin>, hit: bool)
    requires AllSourced(made, builders) && Cached(made, keys, origins) && WellFormed(sub) && sub.numVars > 0
    requires hit <==> KeyUsed(sub, local) in keys
    requires hit ==> KeyUsed(sub, local) in origins
                     && exists name :: ReusedFrom(origins[KeyUsed(sub, local)], sub, local, t, name)
    requires !hit ==> builders.Answer(call, sub, local) == Ok(t)
    ensures var m := MadeOf(sub, local, t);
            && AllSourced(made + [m], builders)
            && (hit ==> Cached(made + [m], keys, origins))
            && (!hit ==> Cached(made + [m], keys + {m.key}, origins[m.key := m.origin]))
  {
    hide AllSourced, Cached, ReusedFrom, KeyUsed, OrderUsed, Builders.Answer;
    var m := MadeOf(sub, local, t);
    if hit {
      var name :| ReusedFrom(origins[m.key], sub, local, t, name);
      assert CopyOf(origins[m.key], m.origin);
      ReusedNext(made, m, builders, keys, origins);
    } else {
      BuiltNext(made, m, builders, keys, origins);
    }
  }

  lemma NonEmptyGroup(f: Formula, comps: seq<seq<nat>>, i: nat)
    requires WellFormed(f) && IsSplit(f.clauses, comps) && i < |comps| && forall c :: c in f.clauses ==> c != []
    ensures InFormula(f, comps[i]) && ComponentVars(f, comps[i]) != []
  {
    assert comps[i] in comps;
    ComponentHasVars(f, comps[i]);
  }

  lemma ExtractFits(f: Formula, indices: seq<nat>)
    requires WellFormed(f) && InFormula(f, indices)
    ensures WellFormed(ExtractComponent(f, indices).0)
    ensures ExtractComponent(f, indices).0.numVars == |ComponentVars(f, indices)|
  {
    ExtractKeepsCount(f, indices);
  }

  ghost predicate MarksGroups(f: Formula, comps: seq<seq<nat>>, marked: seq<bool>)
    requires |marked| == f.numVars && AllInFormula(f, comps)
  {
    && f.numVars <= MAX_VAR
    && (forall v: VarId :: v <= f.numVars ==> (marked[Idx(v)] <==> v in VarsOfGroups(f, comps)))
    && VarsOfGroups(f, comps) <= AllVars(f.numVars)
  }

  lemma MarksNext(f: Formula, comps: seq<seq<nat>>, i: nat, marked: seq<bool>, marked': seq<bool>)
    requires WellFormed(f) && i < |comps| && |marked| == |marked'| == f.numVars
    requires Groups(f, comps[..i]) && Groups(f, comps[..i + 1]) && InFormula(f, comps[i])
    requires MarksGroups(f, comps[..i], marked)
    requires forall v: VarId :: v <= f.numVars ==>
              (marked'[Idx(v)] <==> marked[Idx(v)] || v in ComponentVars(f, comps[i]))
    ensures MarksGroups(f, comps[..i + 1], marked')
  {
    hide ComponentVars;
    assert comps[..i + 1][..i] == comps[..i];
    OuterInRange(f, comps[i]);
  }

  lemma AllBuiltNext(f: Formula, built: seq<ComponentVtree>, comps: seq<seq<nat>>, i: nat, c: ComponentVtree)
    requires i < |comps| && AllBuilt(f, built, comps[..i]) && BuiltFrom(f, c, comps[i])
    ensures AllBuilt(f, built + [c], comps[..i + 1])
  {
    hide BuiltFrom;
    forall k | 0 <= k < i + 1 ensures BuiltFrom(f, (built + [c])[k], comps[..i + 1][k]) {
      if k < i { assert BuiltFrom(f, built[k], comps[..i][k]); }
    }
  }

  /** The variables a built component claims are the ones its map names. */
  lemma ClaimsAreOuter(f: Formula, c: ComponentVtree, indices: seq<nat>)
    requires BuiltFrom(f, c, indices)
    ensures ClaimedVars(f, c) == ToSet(ComponentVars(f, indices))
  {
    ExistIsInFormula(f, indices);
    ClausesVarsMembers(f, indices);
    ComponentVarsMeaning(f, indices);
    forall v ensures ClauseMentions(f, indices, v) <==> exists d, l :: d in Pick(f, indices) && l in d && l.v == v {
      MentionedByPicked(f, indices, v);
    }
  }

  lemma MentionedByPicked(f: Formula, indices: seq<nat>, v: VarId)
    requires InFormula(f, indices)
    ensures ClauseMentions(f, indices, v) <==> exists d, l :: d in Pick(f, indices) && l in d && l.v == v
  {
    if ClauseMentions(f, indices, v) {
      var k, l :| 0 <= k < |indices| && indices[k] < |f.clauses| && l in f.clauses[indices[k]] && l.v == v;
      assert Pick(f, indices)[k] in Pick(f, indices);
    }
    if exists d, l :: d in Pick(f, indices) && l in d && l.v == v {
      var d, l :| d in Pick(f, indices) && l in d && l.v == v;
      var k :| 0 <= k < |indices| && Pick(f, indices)[k] == d;
      assert l in f.clauses[indices[k]];
    }
  }

  lemma BuiltBelongs(f: Formula, whole: Vtree, built: seq<ComponentVtree>, comps: seq<seq<nat>>)
    requires WellFormed(f) && Groups(f, comps) && AllBuilt(f, built, comps)
    requires whole.Valid() && LeafSpace(whole.Shape(), f.numVars)
    ensures AllValid(VtreeBuild(whole, Some(built))) && Belongs(VtreeBuild(whole, Some(built)), f)
  {
    hide LeafSpace, ComponentVars, ClaimedVars;
    forall i | 0 <= i < |built| ensures built[i].vtree.Valid() { assert BuiltFrom(f, built[i], comps[i]); }
    forall i | 0 <= i < |built| ensures ComponentBelongs(f, built[i]) { assert BuiltFrom(f, built[i], comps[i]); }
    forall i | 0 <= i < |built| ensures ApartFromEarlier(f, built, i) {
      forall j | 0 <= j < i ensures ClaimedVars(f, built[j]) !! ClaimedVars(f, built[i]) {
        ClaimsAreOuter(f, built[i], comps[i]);
        ClaimsAreOuter(f, built[j], comps[j]);
      }
    }
  }
}
