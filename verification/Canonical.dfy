/** Keys for components, and the renaming that two components with one key are related by. */
module Canonical {
  import opened Wrappers
  import opened Ordering
  import opened Cnf
  import opened ShowSets
  import opened Refinement
  import opened Individualise

  // ---- the incidence graph ----

  function PairOf(l: Literal): Link { (Idx(l.v), l.positive) }

  function ClausePairs(c: Clause): seq<Link> { Map(PairOf, c) }

  function FormulaPairs(f: Formula): Adjacency { Map(ClausePairs, f.clauses) }

  lemma FormulaPairsBelow(f: Formula)
    requires WellFormed(f)
    ensures LinksBelow(FormulaPairs(f), f.numVars)
  {
    var cls := FormulaPairs(f);
    forall i, l: Link | 0 <= i < |cls| && l in cls[i] ensures l.0 < f.numVars {
      var k :| 0 <= k < |cls[i]| && cls[i][k] == l;
      assert f.clauses[i] in f.clauses && f.clauses[i][k] in f.clauses[i];
    }
  }

  /** The links from variable `v` into one clause, one per literal over it. */
  function LinksInto(c: seq<Link>, v: nat, ci: nat): seq<Link> {
    if c == [] then []
    else LinksInto(c[..|c| - 1], v, ci) + (if c[|c| - 1].0 == v then [(ci, c[|c| - 1].1)] else [])
  }

  /** All links of variable `v`, in clause order. */
  function LinksOf(cls: Adjacency, v: nat): seq<Link> {
    if cls == [] then [] else LinksOf(cls[..|cls| - 1], v) + LinksInto(cls[|cls| - 1], v, |cls| - 1)
  }

  function Occurrences(n: nat, cls: Adjacency): (occ: Adjacency)
    ensures |occ| == n
  {
    seq(n, v requires 0 <= v < n => LinksOf(cls, v))
  }

  method BuildOccurrences(n: nat, cls: Adjacency) returns (occ: Adjacency)
    requires LinksBelow(cls, n)
    ensures occ == Occurrences(n, cls)
  {
    occ := seq(n, _ => []);
    for ci := 0 to |cls|
      invariant |occ| == n && forall v: nat :: v < n ==> occ[v] == LinksOf(cls[..ci], v)
    {
      var c := cls[ci];
      ghost var before := occ;
      for k := 0 to |c|
        invariant |occ| == n && forall v: nat :: v < n ==> occ[v] == before[v] + LinksInto(c[..k], v, ci)
      {
        assert c[k] in cls[ci] && c[..k + 1][..k] == c[..k];
        occ := occ[c[k].0 := occ[c[k].0] + [(ci, c[k].1)]];
      }
      assert c[..|c|] == c && cls[..ci + 1][..ci] == cls[..ci];
    }
    assert cls[..|cls|] == cls;
  }

  lemma {:induction false} LinksIntoMembers(c: seq<Link>, v: nat, ci: nat)
    ensures forall l :: l in LinksInto(c, v, ci) <==> l.0 == ci && (v, l.1) in c
  {
    if c != [] {
      LinksIntoMembers(c[..|c| - 1], v, ci);
      assert c == c[..|c| - 1] + [c[|c| - 1]];
    }
  }

  lemma {:induction false} LinksOfMembers(cls: Adjacency, v: nat)
    ensures forall l :: l in LinksOf(cls, v) <==> l.0 < |cls| && (v, l.1) in cls[l.0]
  {
    if cls != [] {
      LinksOfMembers(cls[..|cls| - 1], v);
      LinksIntoMembers(cls[|cls| - 1], v, |cls| - 1);
    }
  }

  // ---- the order ----

  predicate ShownAt(show: Option<ShowMask>, v: nat) {
    show.Some? && v < |show.value| && show.value[v]
  }

  function InitialColours(n: nat, cls: Adjacency, show: Option<ShowMask>): Colouring {
    Colouring(seq(n, v requires 0 <= v < n => if ShownAt(show, v) then 1 else 0), Map(Length, cls))
  }

  /** The colours one refinement gives. */
  ghost function FirstRefinement(n: nat, cls: Adjacency, show: Option<ShowMask>, work: nat): (r: Refined)
    ensures |r.colours.vars| == n
  {
    RefineColouring(Occurrences(n, cls), cls, InitialColours(n, cls, show), work)
  }

  /** The colours the order is read from. */
  ghost function FinalColours(n: nat, cls: Adjacency, show: Option<ShowMask>, work: nat): (c: Colouring)
    ensures |c.vars| == n
  {
    var r := FirstRefinement(n, cls, show, work);
    if r.complete && n + |cls| <= MAX_INDIVIDUALISED_SIZE
    then IndividualiseFrom(Occurrences(n, cls), cls, r.colours, r.workLeft)
    else r.colours
  }

  function ByColour(cols: seq<nat>): (nat, nat) -> bool {
    (u: nat, v: nat) => PairLess((ColourAt(cols, u), u), (ColourAt(cols, v), v))
  }

  lemma ByColourOrder(cols: seq<nat>)
    ensures StrictTotal(ByColour(cols))
  {
  }

  ghost function RefinedOrderOf(n: nat, cls: Adjacency, show: Option<ShowMask>, work: nat): (order: seq<nat>)
    ensures IsPermutation(order, n)
  {
    if n + |cls| > MAX_REFINED_SIZE then
      PermutationBagOfRange(n);
      Range(n)
    else
      var order := Sort(Range(n), ByColour(FinalColours(n, cls, show, work).vars));
      BagOfRangePermutes(order, n);
      order
  }

  lemma PermutationBagOfRange(n: nat)
    ensures IsPermutation(Range(n), n)
  {
  }

  method RefinedOrder(n: nat, cls: Adjacency, show: Option<ShowMask>, workLimit: nat) returns (order: seq<nat>)
    requires LinksBelow(cls, n)
    ensures order == RefinedOrderOf(n, cls, show, workLimit)
  {
    if n + |cls| > MAX_REFINED_SIZE { return Range(n); }
    var occ := BuildOccurrences(n, cls);
    var initial := InitialColours(n, cls, show);
    var varCol := new nat[n];
    var clauseCol := new nat[|cls|];
    CopyFromSlice(varCol, initial.vars);
    CopyFromSlice(clauseCol, initial.clauses);
    var complete, workLeft := Refine(occ, cls, varCol, clauseCol, workLimit);
    if complete && n + |cls| <= MAX_INDIVIDUALISED_SIZE {
      CompleteColoursAreRanks(occ, cls, initial, workLimit);
      IndividualiseAll(occ, cls, varCol, clauseCol, workLeft);
    }
    order := Sort(Range(n), ByColour(varCol[..]));
  }

  // ---- the key ----

  predicate LinkLess(a: Link, b: Link) {
    a.0 < b.0 || (a.0 == b.0 && !a.1 && b.1)
  }

  lemma LinkOrder()
    ensures StrictTotal(LinkLess) && StrictTotal(Lex(LinkLess))
  {
    LexIsStrictTotal(LinkLess);
  }

  function Relabel(name: seq<nat>): Link -> Link {
    (l: Link) => (ColourAt(name, l.0), l.1)
  }

  function CanonicalClause(name: seq<nat>): seq<Link> -> seq<Link> {
    (c: seq<Link>) => Sort(Map(Relabel(name), c), LinkLess)
  }

  function KeyClauses(name: seq<nat>, cls: Adjacency): seq<seq<Link>> {
    Sort(Map(CanonicalClause(name), cls), Lex(LinkLess))
  }

  /** The inverse of a permutation: where each number stands in it. */
  function Inverse(p: seq<nat>, n: nat): (q: seq<nat>)
    requires IsPermutation(p, n)
    ensures |q| == n && forall k :: 0 <= k < n ==> q[k] < n && p[q[k]] == k
  {
    PermutationBag(p, n);
    seq(n, k requires 0 <= k < n => IndexOf(p, k))
  }

  /** A permutation and its inverse undo each other both ways. */
  lemma InverseBothWays(p: seq<nat>, n: nat)
    requires IsPermutation(p, n)
    ensures IsPermutation(Inverse(p, n), n)
    ensures forall i :: 0 <= i < n ==> Inverse(p, n)[p[i]] == i
  {
    var q := Inverse(p, n);
    forall i | 0 <= i < n ensures q[p[i]] == i {
      assert p[q[p[i]]] == p[i];
    }
  }

  /** Any list that undoes a permutation is its inverse. */
  lemma InverseIs(p: seq<nat>, q: seq<nat>, n: nat)
    requires IsPermutation(p, n) && |q| == n && forall i :: 0 <= i < n ==> q[p[i]] == i
    ensures q == Inverse(p, n)
  {
    var inv := Inverse(p, n);
    forall k | 0 <= k < n ensures q[k] == inv[k] {
      assert p[inv[k]] == k;
    }
  }

  datatype ComponentKey = ComponentKey(numVars: nat, clauses: seq<seq<Link>>, show: Option<seq<bool>>)

  datatype CanonicalForm = CanonicalForm(key: ComponentKey, toCanonical: seq<nat>)

  function ShowUnder(show: Option<ShowMask>, order: seq<nat>): Option<seq<bool>> {
    if show.None? then None else Some(seq(|order|, k requires 0 <= k < |order| => ShownAt(show, order[k])))
  }

  /** The form a formula has under one order of its variables. */
  function FormUnder(f: Formula, show: Option<ShowMask>, order: seq<nat>): CanonicalForm
    requires IsPermutation(order, f.numVars)
  {
    var name := Inverse(order, f.numVars);
    CanonicalForm(ComponentKey(f.numVars, KeyClauses(name, FormulaPairs(f)), ShowUnder(show, order)), name)
  }

  method InvertPermutation(p: seq<nat>, n: nat) returns (q: seq<nat>)
    requires IsPermutation(p, n)
    ensures q == Inverse(p, n)
  {
    q := seq(n, _ => 0);
    for i := 0 to n
      invariant |q| == n && forall j :: 0 <= j < i ==> q[p[j]] == j
    {
      q := q[p[i] := i];
    }
    InverseIs(p, q, n);
  }

  /** The show flags by canonical id. */
  method ShowByCanonical(show: Option<ShowMask>, order: seq<nat>, toCanonical: seq<nat>)
    returns (flags: Option<seq<bool>>)
    requires IsPermutation(order, |order|) && toCanonical == Inverse(order, |order|)
    ensures flags == ShowUnder(show, order)
  {
    var n := |order|;
    if show.None? { return None; }
    InverseBothWays(order, n);
    var list := seq(n, _ => false);
    for local := 0 to n
      invariant |list| == n && forall v :: 0 <= v < local ==> list[toCanonical[v]] == ShownAt(show, v)
    {
      list := list[toCanonical[local] := ShownAt(show, local)];
    }
    forall k | 0 <= k < n ensures list[k] == ShownAt(show, order[k]) {
      assert toCanonical[order[k]] == k;
    }
    assert list == ShowUnder(show, order).value;
    flags := Some(list);
  }

  method CanonicalFormWithLimit(f: Formula, show: Option<ShowMask>, workLimit: nat) returns (form: CanonicalForm)
    requires WellFormed(f)
    ensures form == FormUnder(f, show, RefinedOrderOf(f.numVars, FormulaPairs(f), show, workLimit))
  {
    hide RefinedOrderOf, FormulaPairs, KeyClauses, ShowUnder, Inverse;
    var n, cls := f.numVars, FormulaPairs(f);
    FormulaPairsBelow(f);
    var order := RefinedOrder(n, cls, show, workLimit);
    var toCanonical := InvertPermutation(order, n);
    var relabelled := KeyClauses(toCanonical, cls);
    var flags := ShowByCanonical(show, order, toCanonical);
    form := CanonicalForm(ComponentKey(n, relabelled, flags), toCanonical);
  }

  /** For each canonical id the local variable it stands for. */
  method CanonicalToLocal(form: CanonicalForm) returns (local: seq<nat>)
    requires IsPermutation(form.toCanonical, |form.toCanonical|)
    ensures |local| == |form.toCanonical| && IsPermutation(local, |local|)
    ensures forall v :: 0 <= v < |local| ==> local[form.toCanonical[v]] == v
    ensures forall k :: 0 <= k < |local| ==> form.toCanonical[local[k]] == k
  {
    local := InvertPermutation(form.toCanonical, |form.toCanonical|);
    InverseBothWays(form.toCanonical, |form.toCanonical|);
  }

  // ---- equal keys are an isomorphism ----

  /** One renaming after another. */
  function Compose(first: seq<nat>, second: seq<nat>): (r: seq<nat>)
    ensures |r| == |first| && forall v :: 0 <= v < |r| ==> r[v] == ColourAt(second, first[v])
  {
    seq(|first|, v requires 0 <= v < |first| => ColourAt(second, first[v]))
  }

  function ClauseBag(name: seq<nat>): seq<Link> -> multiset<Link> {
    (c: seq<Link>) => multiset(Map(Relabel(name), c))
  }

  /** `name` renames the clauses of `f` into those of `g` exactly: every clause as often, with every
      literal as often; and it carries one show mask onto the other. */
  ghost predicate Isomorphism(f: Formula, show: Option<ShowMask>, g: Formula, show': Option<ShowMask>, name: seq<nat>) {
    && f.numVars == g.numVars && IsPermutation(name, f.numVars)
    && multiset(Map(ClauseBag(name), FormulaPairs(f))) == multiset(Map(ClauseBag(Range(g.numVars)), FormulaPairs(g)))
    && (show.Some? <==> show'.Some?)
    && forall v :: 0 <= v < f.numVars ==> ShownAt(show, v) == ShownAt(show', name[v])
  }

  /** Renaming a sorted relabelled clause further is renaming the clause by both. */
  lemma ClauseThrough(c: seq<Link>, first: seq<nat>, second: seq<nat>)
    requires forall l :: l in c ==> l.0 < |first|
    ensures ClauseBag(second)(CanonicalClause(first)(c)) == ClauseBag(Compose(first, second))(c)
  {
    var m := Map(Relabel(first), c);
    MapBag(Relabel(second), Sort(m, LinkLess), m);
    forall i | 0 <= i < |c| ensures Relabel(second)(m[i]) == Relabel(Compose(first, second))(c[i]) {
      assert c[i] in c;
    }
    assert Map(Relabel(second), m) == Map(Relabel(Compose(first, second)), c);
  }

  lemma ClausesThrough(cls: Adjacency, first: seq<nat>, second: seq<nat>)
    requires LinksBelow(cls, |first|)
    ensures multiset(Map(ClauseBag(second), KeyClauses(first, cls)))
         == multiset(Map(ClauseBag(Compose(first, second)), cls))
  {
    var m := Map(CanonicalClause(first), cls);
    MapBag(ClauseBag(second), KeyClauses(first, cls), m);
    forall i | 0 <= i < |cls| ensures ClauseBag(second)(m[i]) == ClauseBag(Compose(first, second))(cls[i]) {
      ClauseThrough(cls[i], first, second);
    }
    assert Map(ClauseBag(second), m) == Map(ClauseBag(Compose(first, second)), cls);
  }

  lemma ComposePermutes(p: seq<nat>, q: seq<nat>, n: nat)
    requires IsPermutation(p, n) && IsPermutation(q, n)
    ensures IsPermutation(Compose(p, q), n)
  {
    var r := Compose(p, q);
    forall i, j | 0 <= i < j < n ensures r[i] != r[j] {
      assert p[i] != p[j];
      assert q[p[i]] != q[p[j]] by {
        if p[i] < p[j] { assert q[p[i]] != q[p[j]]; } else { assert q[p[j]] != q[p[i]]; }
      }
    }
  }

  lemma SameClausesUnderKey(cls: Adjacency, order: seq<nat>, cls': Adjacency, order': seq<nat>, n: nat)
    requires IsPermutation(order, n) && IsPermutation(order', n) && LinksBelow(cls, n) && LinksBelow(cls', n)
    requires KeyClauses(Inverse(order, n), cls) == KeyClauses(Inverse(order', n), cls')
    ensures multiset(Map(ClauseBag(Compose(Inverse(order, n), order')), cls))
         == multiset(Map(ClauseBag(Range(n)), cls'))
  {
    hide KeyClauses, ClauseBag, Map;
    var name, name' := Inverse(order, n), Inverse(order', n);
    ClausesThrough(cls, name, order');
    ClausesThrough(cls', name', order');
    assert Compose(name', order') == Range(n);
  }

  lemma SameShowUnderKey(show: Option<ShowMask>, order: seq<nat>, show': Option<ShowMask>, order': seq<nat>, n: nat)
    requires IsPermutation(order, n) && IsPermutation(order', n)
    requires ShowUnder(show, order) == ShowUnder(show', order')
    ensures show.Some? <==> show'.Some?
    ensures forall v :: 0 <= v < n ==> ShownAt(show, v) == ShownAt(show', Compose(Inverse(order, n), order')[v])
  {
    InverseBothWays(order, n);
    var name := Inverse(order, n);
    forall v | 0 <= v < n ensures ShownAt(show, v) == ShownAt(show', Compose(name, order')[v]) {
      var k := name[v];
      assert order[k] == v by { assert name[order[k]] == k; }
      if show.Some? { assert ShowUnder(show, order).value[k] == ShowUnder(show', order').value[k]; }
    }
  }

  /** Equal keys give an exact isomorphism, whatever orders the two forms were taken under. */
  lemma EqualKeysAreIsomorphic(f: Formula, show: Option<ShowMask>, order: seq<nat>,
                               g: Formula, show': Option<ShowMask>, order': seq<nat>)
    requires WellFormed(f) && WellFormed(g) && IsPermutation(order, f.numVars) && IsPermutation(order', g.numVars)
    requires FormUnder(f, show, order).key == FormUnder(g, show', order').key
    ensures Isomorphism(f, show, g, show', Compose(FormUnder(f, show, order).toCanonical, order'))
  {
    hide FormulaPairs, KeyClauses, ShowUnder, Inverse, Map;
    var n := f.numVars;
    FormulaPairsBelow(f);
    FormulaPairsBelow(g);
    InverseBothWays(order, n);
    ComposePermutes(Inverse(order, n), order', n);
    SameClausesUnderKey(FormulaPairs(f), order, FormulaPairs(g), order', n);
    SameShowUnderKey(show, order, show', order', n);
  }

  // ---- what an isomorphism means for models ----

  /** The assignment over the renamed variables. */
  ghost function RenameBy(name: seq<nat>, a: Assignment): Assignment
    requires forall i :: 0 <= i < |name| ==> name[i] < MAX_VAR
  {
    set v | v in a && Idx(v) < |name| :: FromIdx(name[Idx(v)])
  }

  ghost predicate PairTrue(a: Assignment, l: Link) {
    l.0 < MAX_VAR && ((FromIdx(l.0) in a) == l.1)
  }

  /** A bag of pairs holds as a clause does: when one of them does. */
  ghost predicate BagTrue(a: Assignment, bag: multiset<Link>) {
    exists l :: l in bag && PairTrue(a, l)
  }

  lemma PairRenamed(a: Assignment, name: seq<nat>, n: nat, l: Literal)
    requires IsPermutation(name, n) && n <= MAX_VAR && Idx(l.v) < n
    ensures PairTrue(RenameBy(name, a), Relabel(name)(PairOf(l))) == LitTrue(a, l)
  {
    var w := FromIdx(name[Idx(l.v)]);
    if w in RenameBy(name, a) {
      var v :| v in a && Idx(v) < |name| && FromIdx(name[Idx(v)]) == w;
      assert v == l.v;
    }
  }

  lemma ClauseBagTrue(a: Assignment, name: seq<nat>, n: nat, c: Clause)
    requires IsPermutation(name, n) && n <= MAX_VAR && InRange(c, n)
    ensures BagTrue(RenameBy(name, a), ClauseBag(name)(ClausePairs(c))) == ClauseTrue(a, c)
  {
    var b := RenameBy(name, a);
    var m := Map(Relabel(name), ClausePairs(c));
    forall i | 0 <= i < |c| ensures PairTrue(b, m[i]) == LitTrue(a, c[i]) {
      assert c[i] in c;
      PairRenamed(a, name, n, c[i]);
    }
    if ClauseTrue(a, c) {
      var l :| l in c && LitTrue(a, l);
      var i :| 0 <= i < |c| && c[i] == l;
      assert m[i] in multiset(m);
    }
    if BagTrue(b, multiset(m)) {
      var l :| l in multiset(m) && PairTrue(b, l);
      var i :| 0 <= i < |m| && m[i] == l;
      assert c[i] in c;
    }
  }

  lemma RenameByRange(a: Assignment, n: nat)
    requires n <= MAX_VAR && forall v :: v in a ==> v <= n
    ensures RenameBy(Range(n), a) == a
  {
    forall v | v in a ensures v in RenameBy(Range(n), a) {
      assert FromIdx(Range(n)[Idx(v)]) == v;
    }
  }

  /** Every clause bag of one formula is a clause bag of the other. */
  lemma BagComesFrom(f: Formula, name: seq<nat>, bag: multiset<Link>) returns (c: Clause)
    requires bag in multiset(Map(ClauseBag(name), FormulaPairs(f)))
    ensures c in f.clauses && bag == ClauseBag(name)(ClausePairs(c))
  {
    var m := Map(ClauseBag(name), FormulaPairs(f));
    assert bag in m;
    var i :| 0 <= i < |m| && m[i] == bag;
    c := f.clauses[i];
  }

  lemma BagOfClause(f: Formula, name: seq<nat>, c: Clause)
    requires c in f.clauses
    ensures ClauseBag(name)(ClausePairs(c)) in multiset(Map(ClauseBag(name), FormulaPairs(f)))
  {
    var i :| 0 <= i < |f.clauses| && f.clauses[i] == c;
    var m := Map(ClauseBag(name), FormulaPairs(f));
    assert m[i] == ClauseBag(name)(ClausePairs(c));
    assert m[i] in m;
  }

  /** An isomorphism carries the models of one formula onto those of the other. */
  lemma IsomorphismKeepsModels(f: Formula, show: Option<ShowMask>, g: Formula, show': Option<ShowMask>, name: seq<nat>,
                               a: Assignment)
    requires WellFormed(f) && WellFormed(g) && Isomorphism(f, show, g, show', name)
    requires forall v :: v in a ==> v <= f.numVars
    ensures Satisfies(RenameBy(name, a), g.clauses) == Satisfies(a, f.clauses)
  {
    var n, b := f.numVars, RenameBy(name, a);
    RenameByRange(b, n);
    if Satisfies(a, f.clauses) {
      forall d | d in g.clauses ensures ClauseTrue(b, d) {
        BagOfClause(g, Range(n), d);
        var c := BagComesFrom(f, name, ClauseBag(Range(n))(ClausePairs(d)));
        ClauseBagTrue(a, name, n, c);
        ClauseBagTrue(b, Range(n), n, d);
      }
    }
    if Satisfies(b, g.clauses) {
      forall c | c in f.clauses ensures ClauseTrue(a, c) {
        BagOfClause(f, name, c);
        var d := BagComesFrom(g, Range(n), ClauseBag(name)(ClausePairs(c)));
        ClauseBagTrue(a, name, n, c);
        ClauseBagTrue(b, Range(n), n, d);
      }
    }
  }
}
