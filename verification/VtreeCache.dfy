/** Building each component's tree once per canonical form, and reusing it for every component that is
    the same up to renaming. */
module VtreeCache {
  import opened Wrappers
  import opened Cnf
  import opened Sequences
  import opened Ordering
  import opened Counting
  import opened ShowSets
  import opened Refinement
  import opened Canonical
  import opened Vtrees
  import opened Reindex
  import opened Grafting
  import opened Bisect

  const TINY_COMPONENT_MAX_VARS: nat := 30

  predicate IsTinyComponent(numVars: nat) { numVars <= TINY_COMPONENT_MAX_VARS }

  /** The constructions, each answering anything it is allowed to by the number of the call. */
  class Builders {
    const minfill: (nat, Formula) -> Option<Tree>
    const portfolio: (nat, Formula, Option<ShowMask>) -> Result<Tree, BuildError>
    var calls: nat

    constructor (minfill: (nat, Formula) -> Option<Tree>,
                 portfolio: (nat, Formula, Option<ShowMask>) -> Result<Tree, BuildError>)
      ensures this.minfill == minfill && this.portfolio == portfolio
    {
      this.minfill, this.portfolio, calls := minfill, portfolio, 0;
    }

    /** Any tree a builder returns spans exactly the local variables. */
    ghost predicate Sound() {
      && (forall k, f: Formula :: f.numVars <= MAX_VAR && minfill(k, f).Some? ==>
          LeafSpace(minfill(k, f).value, f.numVars))
      && (forall k, f: Formula, show :: f.numVars <= MAX_VAR && portfolio(k, f, show).Ok? ==>
            LeafSpace(portfolio(k, f, show).value, f.numVars))
    }

    /** The tree a call builds: on a tiny component min-fill's, a balanced one should it have none; on any other the
        portfolio's, or its error. */
    ghost function Answer(call: nat, f: Formula, show: Option<ShowMask>): Result<Tree, BuildError>
      requires 0 < f.numVars <= MAX_VAR
    {
      if IsTinyComponent(f.numVars) then Ok(minfill(call, f).UnwrapOr(Balanced(FirstVars(f.numVars))))
      else portfolio(call, f, show)
    }

    /** Min-fill on a tiny component, a balanced tree should it fail; the portfolio on any other. */
    method BuildUncached(f: Formula, show: Option<ShowMask>) returns (r: Result<Vtree, BuildError>)
      requires Sound() && 0 < f.numVars <= MAX_VAR
      modifies this
      ensures r.Ok? ==> r.value.Valid() && LeafSpace(r.value.Shape(), f.numVars) && |r.value.varToLeaf| == f.numVars
      ensures IsTinyComponent(f.numVars) ==> r.Ok?
      ensures calls == old(calls) + 1
      ensures Answer(old(calls), f, show) == if r.Ok? then Ok(r.value.Shape()) else Err(r.error)
    {
      var arena := new VtreeArena();
      var call := calls;
      calls := calls + 1;
      var root: nat;
      ghost var t: Tree;
      if IsTinyComponent(f.numVars) {
        var found := minfill(call, f);
        if found.Some? {
          root := arena.AddTree(found.value);
          t := found.value;
        } else {
          root, t := arena.BalancedLeaves(FirstVars(f.numVars));
          FirstVarsBag(f.numVars);
        }
      } else {
        var found := portfolio(call, f, show);
        if found.Err? { return Err(found.error); }
        root := arena.AddTree(found.value);
        t := found.value;
      }
      LeafSpaceFits(t, f.numVars);
      var finished := FromNodes(arena.nodes, root, f.numVars);
      r := Ok(finished);
    }
  }

  // ---- what a cache entry stands for ----

  /** Which component an entry was built for, under which order, and the tree over its own variables. */
  datatype Origin = Origin(f: Formula, show: Option<ShowMask>, order: seq<nat>, tree: Tree)

  ghost predicate OriginSound(key: ComponentKey, o: Origin) {
    && WellFormed(o.f) && IsPermutation(o.order, o.f.numVars)
    && FormUnder(o.f, o.show, o.order).key == key
    && LeafSpace(o.tree, o.f.numVars)
  }

  /** Variables named by their positions in a permutation. */
  function Named(p: seq<nat>): (r: seq<VarId>)
    requires forall i :: 0 <= i < |p| ==> p[i] < MAX_VAR
    ensures |r| == |p| && forall i :: 0 <= i < |r| ==> r[i] == FromIdx(p[i])
  {
    seq(|p|, i requires 0 <= i < |p| => FromIdx(p[i]))
  }

  ghost predicate EntrySound(key: ComponentKey, v: Vtree, o: Origin) {
    && OriginSound(key, o) && v.Valid() && |v.varToLeaf| == key.numVars
    && IsPermutation(FormUnder(o.f, o.show, o.order).toCanonical, key.numVars) && key.numVars <= MAX_VAR
    && v.Shape() == RenameTree(o.tree, LocalName(Named(FormUnder(o.f, o.show, o.order).toCanonical)))
  }

  ghost predicate CacheSound(cache: map<ComponentKey, Vtree>, origins: map<ComponentKey, Origin>) {
    forall key :: key in cache ==> key in origins && EntrySound(key, cache[key], origins[key])
  }

  lemma PermutedSpace(p: seq<nat>, n: nat)
    requires IsPermutation(p, n) && n <= MAX_VAR
    ensures multiset(Named(p)) == multiset(AllVars(n))
  {
    var names := Named(p);
    DistinctBag(names);
    PermutationBag(p, n);
    forall v: VarId | v <= n ensures v in names {
      assert Idx(v) in p;
      var i: nat :| i < n && p[i] == Idx(v);
      assert names[i] == v;
    }
    assert ToSet(names) == AllVars(n);
  }

  /** Renaming a tree's variables by a permutation keeps one leaf for each. */
  lemma RelabeledSpace(t: Tree, p: seq<nat>, n: nat)
    requires IsPermutation(p, n) && n <= MAX_VAR && LeafSpace(t, n)
    ensures LeafSpace(RenameTree(t, LocalName(Named(p))), n)
    ensures forall v :: v in Leaves(t) ==> Idx(v) < n && Idx(LocalName(Named(p))(v)) < n
  {
    hide Leaves, RenameTree, AllVars;
    RenamedLeafSpace(t, Named(p));
    PermutedSpace(p, n);
    LeafSpaceFits(t, n);
  }

  /** One component's tree is another's, renamed by an isomorphism between the two. */
  ghost predicate ReusedFrom(o: Origin, f: Formula, show: Option<ShowMask>, t: Tree, name: seq<nat>) {
    && Isomorphism(o.f, o.show, f, show, name) && f.numVars <= MAX_VAR
    && t == RenameTree(o.tree, LocalName(Named(name)))
  }

  /** What relabelling a cached tree into a second component's numbering gives. */
  lemma RelabelledIntoIsomorph(key: ComponentKey, v: Vtree, o: Origin, f: Formula, show: Option<ShowMask>,
                               order: seq<nat>)
    requires EntrySound(key, v, o) && WellFormed(f) && IsPermutation(order, f.numVars)
    requires FormUnder(f, show, order).key == key
    ensures var name := Compose(FormUnder(o.f, o.show, o.order).toCanonical, order);
            && IsPermutation(name, f.numVars)
            && ReusedFrom(o, f, show, RenameTree(v.Shape(), LocalName(Named(order))), name)
            && LeafSpace(RenameTree(v.Shape(), LocalName(Named(order))), f.numVars)
            && forall w :: w in Leaves(v.Shape()) ==> Idx(LocalName(Named(order))(w)) < f.numVars
  {
    hide FormUnder, KeyClauses, Isomorphism, LeafSpace, Leaves, RenameTree, Inverse;
    var n := f.numVars;
    KeyCountsVars(f, show, order);
    KeyCountsVars(o.f, o.show, o.order);
    var tc := FormUnder(o.f, o.show, o.order).toCanonical;
    EqualKeysAreIsomorphic(o.f, o.show, o.order, f, show, order);
    var name := Compose(tc, order);
    ComposePermutes(tc, order, n);
    RelabeledSpace(o.tree, tc, n);
    RelabeledSpace(v.Shape(), order, n);
    LeafSpaceFits(o.tree, n);
    forall v | v in Leaves(o.tree)
      ensures LocalName(Named(order))(LocalName(Named(tc))(v)) == LocalName(Named(name))(v)
    {
      NamesCompose(tc, order, n, v);
    }
    RenamedTwice(o.tree, LocalName(Named(tc)), LocalName(Named(order)), LocalName(Named(name)));
  }

  lemma NamesCompose(first: seq<nat>, second: seq<nat>, n: nat, v: VarId)
    requires IsPermutation(first, n) && IsPermutation(second, n) && n <= MAX_VAR && Idx(v) < n
    requires forall i :: 0 <= i < n ==> Compose(first, second)[i] < MAX_VAR
    ensures LocalName(Named(second))(LocalName(Named(first))(v)) == LocalName(Named(Compose(first, second)))(v)
  {
  }

  lemma KeyCountsVars(f: Formula, show: Option<ShowMask>, order: seq<nat>)
    requires IsPermutation(order, f.numVars)
    ensures FormUnder(f, show, order).key.numVars == f.numVars
    ensures FormUnder(f, show, order).toCanonical == Inverse(order, f.numVars)
    ensures IsPermutation(FormUnder(f, show, order).toCanonical, f.numVars)
  {
    InverseBothWays(order, f.numVars);
  }

  /** The key a component is looked up under. */
  ghost function KeyUsed(f: Formula, show: Option<ShowMask>): ComponentKey
    requires WellFormed(f)
  {
    FormUnder(f, show, OrderUsed(f, show)).key
  }

  ghost function OrderUsed(f: Formula, show: Option<ShowMask>): (order: seq<nat>)
    requires WellFormed(f)
    ensures IsPermutation(order, f.numVars)
  {
    RefinedOrderOf(f.numVars, FormulaPairs(f), show, MAX_REFINEMENT_VISITS)
  }

  /** The show flags a component is built under: none for a tiny one. */
  ghost predicate ShowUsed(f: Formula, compShow: Option<ShowSet>, show: Option<ShowMask>) {
    && (show.Some? <==> compShow.Some? && !IsTinyComponent(f.numVars))
    && (show.Some? ==> |show.value| == f.numVars
                       && forall v: VarId :: IsShow(show.value, v) <==> v in compShow.value && v <= f.numVars)
  }

  /** A component's tree, built or taken from the cache: either way one leaf per local variable, and a
      reused tree is the first one renamed by an exact isomorphism. */
  method BuildOrReuse(f: Formula, compShow: Option<ShowSet>, builders: Builders,
                      cache: map<ComponentKey, Vtree>, ghost origins: map<ComponentKey, Origin>)
    returns (r: Result<Vtree, BuildError>, cache': map<ComponentKey, Vtree>, ghost origins': map<ComponentKey, Origin>,
             hit: bool, ghost localShow: Option<ShowMask>)
    requires WellFormed(f) && f.numVars > 0 && builders.Sound() && CacheSound(cache, origins)
    modifies builders
    ensures CacheSound(cache', origins')
    ensures ShowUsed(f, compShow, localShow)
    ensures r.Ok? ==> r.value.Valid() && LeafSpace(r.value.Shape(), f.numVars)
    ensures IsTinyComponent(f.numVars) ==> r.Ok?
    ensures hit <==> KeyUsed(f, localShow) in cache
    ensures hit ==> r.Ok? && cache' == cache && origins' == origins && builders.calls == old(builders.calls)
                    && exists name :: ReusedFrom(origins[KeyUsed(f, localShow)], f, localShow, r.value.Shape(), name)
    ensures !hit ==> builders.calls == old(builders.calls) + 1
                     && builders.Answer(old(builders.calls), f, localShow)
                        == if r.Ok? then Ok(r.value.Shape()) else Err(r.error)
    ensures !hit && r.Ok? ==>
              && cache'.Keys == cache.Keys + {KeyUsed(f, localShow)}
              && origins' == origins[KeyUsed(f, localShow)
                                     := Origin(f, localShow, OrderUsed(f, localShow), r.value.Shape())]
  {
    hide FormUnder, EntrySound, CacheSound, ReusedFrom, LeafSpace, RefinedOrderOf, FormulaPairs, OrderUsed, KeyUsed,
         Builders.Sound, Builders.Answer, Vtree.Valid, Vtree.Shape, IsPermutation;
    var tiny := IsTinyComponent(f.numVars);
    var show: Option<ShowMask> := None;
    if !tiny && compShow.Some? {
      var mask := Mask(compShow.value, f.numVars);
      show := Some(mask);
    }
    localShow := show;
    var form := CanonicalFormWithLimit(f, show, MAX_REFINEMENT_VISITS);
    UsedIs(f, show, form);
    if form.key in cache {
      EntryHeld(cache, origins, form.key);
      var t := Reuse(f, show, form, OrderUsed(f, show), cache[form.key], origins[form.key]);
      return Ok(t), cache, origins, true, show;
    }
    r, cache', origins' := BuildAndStore(f, show, form, builders, cache, origins);
    hit := false;
  }

  lemma UsedIs(f: Formula, show: Option<ShowMask>, form: CanonicalForm)
    requires WellFormed(f)
    requires form == FormUnder(f, show, RefinedOrderOf(f.numVars, FormulaPairs(f), show, MAX_REFINEMENT_VISITS))
    ensures form == FormUnder(f, show, OrderUsed(f, show)) && KeyUsed(f, show) == form.key
  {
    hide FormUnder, RefinedOrderOf, FormulaPairs;
  }

  lemma EntryHeld(cache: map<ComponentKey, Vtree>, origins: map<ComponentKey, Origin>, key: ComponentKey)
    requires CacheSound(cache, origins) && key in cache
    ensures key in origins && EntrySound(key, cache[key], origins[key])
  {
    hide EntrySound;
  }

  /** A component whose key is not in the cache is built, and put there in canonical numbering. */
  method BuildAndStore(f: Formula, show: Option<ShowMask>, form: CanonicalForm, builders: Builders,
                       cache: map<ComponentKey, Vtree>, ghost origins: map<ComponentKey, Origin>)
    returns (r: Result<Vtree, BuildError>, cache': map<ComponentKey, Vtree>, ghost origins': map<ComponentKey, Origin>)
    requires WellFormed(f) && f.numVars > 0 && builders.Sound() && CacheSound(cache, origins)
    requires form == FormUnder(f, show, OrderUsed(f, show))
    modifies builders
    ensures CacheSound(cache', origins')
    ensures r.Ok? ==> r.value.Valid() && LeafSpace(r.value.Shape(), f.numVars)
    ensures IsTinyComponent(f.numVars) ==> r.Ok?
    ensures builders.calls == old(builders.calls) + 1
    ensures builders.Answer(old(builders.calls), f, show)
         == if r.Ok? then Ok(r.value.Shape()) else Err(r.error)
    ensures r.Ok? ==>
              && cache'.Keys == cache.Keys + {form.key}
              && origins' == origins[form.key := Origin(f, show, OrderUsed(f, show), r.value.Shape())]
  {
    hide FormUnder, EntrySound, CacheSound, LeafSpace, OrderUsed, Builders.Sound, Builders.Answer;
    var built := builders.BuildUncached(f, show);
    if built.Err? { return Err(built.error), cache, origins; }
    var canonical, origin := Store(f, show, form, OrderUsed(f, show), built.value);
    CacheExtended(cache, origins, form.key, canonical, origin);
    return built, cache[form.key := canonical], origins[form.key := origin];
  }

  lemma CacheExtended(cache: map<ComponentKey, Vtree>, origins: map<ComponentKey, Origin>, key: ComponentKey, v: Vtree,
                      o: Origin)
    requires CacheSound(cache, origins) && EntrySound(key, v, o)
    ensures CacheSound(cache[key := v], origins[key := o])
  {
    hide EntrySound;
  }

  method Reuse(f: Formula, show: Option<ShowMask>, form: CanonicalForm, ghost order: seq<nat>, cached: Vtree,
               ghost o: Origin)
    returns (t: Vtree)
    requires WellFormed(f) && IsPermutation(order, f.numVars) && form == FormUnder(f, show, order)
    requires EntrySound(form.key, cached, o)
    ensures t.Valid() && LeafSpace(t.Shape(), f.numVars)
    ensures exists name :: ReusedFrom(o, f, show, t.Shape(), name)
  {
    hide FormUnder, KeyClauses;
    KeyCountsVars(f, show, order);
    var local := CanonicalToLocal(form);
    InverseOfInverse(order, f.numVars, local);
    RelabelledIntoIsomorph(form.key, cached, o, f, show, order);
    t := Relabeled(cached, LocalName(Named(local)));
    assert ReusedFrom(o, f, show, t.Shape(), Compose(FormUnder(o.f, o.show, o.order).toCanonical, order));
  }

  lemma InverseOfInverse(order: seq<nat>, n: nat, local: seq<nat>)
    requires IsPermutation(order, n) && |local| == n
    requires forall v :: 0 <= v < n ==> local[Inverse(order, n)[v]] == v
    ensures local == order
  {
    InverseBothWays(order, n);
    forall k | 0 <= k < n ensures local[k] == order[k] {
      assert Inverse(order, n)[order[k]] == k;
    }
  }

  /** The tree put into canonical numbering for the cache. */
  method Store(f: Formula, show: Option<ShowMask>, form: CanonicalForm, ghost order: seq<nat>, built: Vtree)
    returns (canonical: Vtree, ghost o: Origin)
    requires WellFormed(f) && IsPermutation(order, f.numVars) && form == FormUnder(f, show, order)
    requires built.Valid() && LeafSpace(built.Shape(), f.numVars) && |built.varToLeaf| == f.numVars
    ensures EntrySound(form.key, canonical, o) && o == Origin(f, show, order, built.Shape())
  {
    hide FormUnder, KeyClauses;
    KeyCountsVars(f, show, order);
    RelabeledSpace(built.Shape(), form.toCanonical, f.numVars);
    canonical := Relabeled(built, LocalName(Named(form.toCanonical)));
    o := Origin(f, show, order, built.Shape());
  }
}
