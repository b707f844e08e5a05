/** Colours of variables and clauses, split round by round until neighbours tell no more of them apart. */
module Refinement {
  import opened Sequences
  import opened Ordering

  const MAX_INDIVIDUALISED_SIZE: nat := 2048
  const MAX_REFINED_SIZE: nat := 20_000
  const MAX_REFINEMENT_VISITS: nat := 1_000_000

  /** A neighbour and the polarity it is met under. */
  type Link = (nat, bool)
  type Adjacency = seq<seq<Link>>

  /** What a node sees of one neighbour: the polarity and the neighbour's colour. */
  type Entry = (bool, nat)

  /** A node's colour and the sorted entries around it. */
  datatype Signature = Signature(own: nat, around: seq<Entry>)

  predicate EntryLess(a: Entry, b: Entry) {
    (!a.0 && b.0) || (a.0 == b.0 && a.1 < b.1)
  }

  predicate SignatureLess(a: Signature, b: Signature) {
    a.own < b.own || (a.own == b.own && LexLess(EntryLess, a.around, b.around))
  }

  predicate NatLess(a: nat, b: nat) { a < b }

  lemma EntryOrder()
    ensures StrictTotal(EntryLess)
  {
  }

  lemma SignatureOrder()
    ensures StrictTotal(SignatureLess)
  {
    EntryOrder();
    LexIsStrictTotal(EntryLess);
    var lex := Lex(EntryLess);
    forall x: Signature, y: Signature
      ensures LexLess(EntryLess, x.around, y.around) == lex(x.around, y.around)
    {
    }
    forall x: Signature, y: Signature, z: Signature | SignatureLess(x, y) && SignatureLess(y, z)
      ensures SignatureLess(x, z)
    {
      assert lex(x.around, y.around) && lex(y.around, z.around) ==> lex(x.around, z.around);
    }
    forall x: Signature, y: Signature ensures SignatureLess(x, y) || x == y || SignatureLess(y, x) {
      assert lex(x.around, y.around) || x.around == y.around || lex(y.around, x.around);
    }
    forall x: Signature ensures !SignatureLess(x, x) {
      assert !lex(x.around, x.around);
    }
  }

  // ---- one round ----

  function ColourAt(cols: seq<nat>, x: nat): nat {
    if x < |cols| then cols[x] else 0
  }

  function EntryOf(other: seq<nat>): Link -> Entry {
    (l: Link) => (l.1, ColourAt(other, l.0))
  }

  function SignatureOf(neighbours: seq<Link>, own: nat, other: seq<nat>): Signature {
    Signature(own, Sort(Map(EntryOf(other), neighbours), EntryLess))
  }

  function BuildSignatures(adj: Adjacency, own: seq<nat>, other: seq<nat>): (r: seq<Signature>)
    requires |own| == |adj|
    ensures |r| == |adj|
  {
    seq(|adj|, i requires 0 <= i < |adj| => SignatureOf(adj[i], own[i], other))
  }

  /** The signatures below `s`. */
  ghost function SmallerThan(sigs: set<Signature>, s: Signature): set<Signature> {
    set t | t in sigs && SignatureLess(t, s)
  }

  /** Each signature's rank among the distinct signatures: how many lie below it. */
  ghost function Ranks(sigs: seq<Signature>): (r: seq<nat>)
    ensures |r| == |sigs|
  {
    seq(|sigs|, i requires 0 <= i < |sigs| => |SmallerThan(ToSet(sigs), sigs[i])|)
  }

  /** Ranks by sorting, deduplicating and looking each signature up. */
  function RankSignatures(sigs: seq<Signature>): (r: seq<nat>)
    ensures |r| == |sigs|
  {
    seq(|sigs|, i requires 0 <= i < |sigs| => PlaceOf(sigs, sigs[i]))
  }

  function PlaceOf(sigs: seq<Signature>, s: Signature): nat
    requires s in sigs
  {
    SignatureOrder();
    RankedMeaning(sigs, SignatureLess);
    IndexOf(Ranked(sigs, SignatureLess), s)
  }

  lemma RankSignaturesRanks(sigs: seq<Signature>)
    ensures RankSignatures(sigs) == Ranks(sigs)
  {
    SignatureOrder();
    RankedMeaning(sigs, SignatureLess);
    var d := Ranked(sigs, SignatureLess);
    forall i | 0 <= i < |sigs| ensures PlaceOf(sigs, sigs[i]) == |SmallerThan(ToSet(sigs), sigs[i])| {
      var k := IndexOf(d, sigs[i]);
      BelowPlace(d, k);
      assert ToSet(d[..k]) == SmallerThan(ToSet(sigs), sigs[i]);
    }
  }

  /** In a strictly sorted listing the elements below the one at `k` are the first `k`. */
  lemma BelowPlace(d: seq<Signature>, k: nat)
    requires StrictTotal(SignatureLess) && StrictlySorted(d, SignatureLess) && k < |d|
    ensures forall t :: t in d[..k] <==> t in d && SignatureLess(t, d[k])
    ensures |ToSet(d[..k])| == k
  {
    forall t | t in d && SignatureLess(t, d[k]) ensures t in d[..k] {
      var j :| 0 <= j < |d| && d[j] == t;
      assert j < k;
      assert d[..k][j] == t;
    }
    forall t | t in d[..k] ensures t in d && SignatureLess(t, d[k]) {
      var j :| 0 <= j < k && d[..k][j] == t;
      assert SignatureLess(d[j], d[k]);
    }
    DistinctCardinality(d[..k]);
  }

  function ClassCount(cols: seq<nat>): nat {
    |Ranked(cols, NatLess)|
  }

  lemma ClassCountIsSize(cols: seq<nat>)
    ensures ClassCount(cols) == |ToSet(cols)|
  {
    RankedMeaning(cols, NatLess);
    var d := Ranked(cols, NatLess);
    DistinctCardinality(d);
    assert ToSet(d) == ToSet(cols);
  }

  /** Both colourings. */
  datatype Colouring = Colouring(vars: seq<nat>, clauses: seq<nat>)

  predicate Shaped(occ: Adjacency, cls: Adjacency, c: Colouring) {
    |c.vars| == |occ| && |c.clauses| == |cls|
  }

  ghost function NextColouring(occ: Adjacency, cls: Adjacency, c: Colouring): (r: Colouring)
    requires Shaped(occ, cls, c)
    ensures Shaped(occ, cls, r)
  {
    Colouring(Ranks(BuildSignatures(occ, c.vars, c.clauses)), Ranks(BuildSignatures(cls, c.clauses, c.vars)))
  }

  /** The number of colours in use. */
  ghost function Colours(cols: seq<nat>): nat {
    |ToSet(cols)|
  }

  ghost function Classes(c: Colouring): nat {
    Colours(c.vars) + Colours(c.clauses)
  }

  lemma ClassesAtMost(c: Colouring)
    ensures Classes(c) <= |c.vars| + |c.clauses|
  {
    ToSetAtMost(c.vars);
    ToSetAtMost(c.clauses);
  }

  function Length(links: seq<Link>): nat { |links| }

  function RoundCost(c: Colouring, cls: Adjacency): nat {
    |c.vars| + |c.clauses| + 2 * Sum(Map(Length, cls))
  }

  // ---- rounds until the classes stop growing ----

  datatype Refined = Refined(colours: Colouring, workLeft: nat, complete: bool)

  ghost function RefineFrom(occ: Adjacency, cls: Adjacency, c: Colouring, cost: nat, work: nat,
                            classes: nat): (r: Refined)
    requires Shaped(occ, cls, c)
    ensures Shaped(occ, cls, r.colours)
    decreases |occ| + |cls| - classes
  {
    if work < cost then Refined(c, work, false)
    else
      var next := NextColouring(occ, cls, c);
      if Classes(next) <= classes then Refined(next, work - cost, true)
      else
        ClassesAtMost(next);
        RefineFrom(occ, cls, next, cost, work - cost, Classes(next))
  }

  ghost function RefineColouring(occ: Adjacency, cls: Adjacency, c: Colouring, work: nat): (r: Refined)
    requires Shaped(occ, cls, c)
    ensures Shaped(occ, cls, r.colours)
  {
    RefineFrom(occ, cls, c, RoundCost(c, cls), work, Classes(c))
  }

  method CopyFromSlice(a: array<nat>, s: seq<nat>)
    requires a.Length == |s|
    modifies a
    ensures a[..] == s
  {
    for i := 0 to a.Length
      invariant a[..i] == s[..i]
    {
      a[i] := s[i];
    }
  }

  /** One round, into the same arrays. */
  method RefineRound(occ: Adjacency, cls: Adjacency, varCol: array<nat>, clauseCol: array<nat>)
    returns (newClasses: nat)
    requires varCol != clauseCol && varCol.Length == |occ| && clauseCol.Length == |cls|
    modifies varCol, clauseCol
    ensures Colouring(varCol[..], clauseCol[..])
         == NextColouring(occ, cls, Colouring(old(varCol[..]), old(clauseCol[..])))
    ensures newClasses == Classes(Colouring(varCol[..], clauseCol[..])) <= |occ| + |cls|
  {
    var newVar := RankSignatures(BuildSignatures(occ, varCol[..], clauseCol[..]));
    var newClause := RankSignatures(BuildSignatures(cls, clauseCol[..], varCol[..]));
    RankSignaturesRanks(BuildSignatures(occ, varCol[..], clauseCol[..]));
    RankSignaturesRanks(BuildSignatures(cls, clauseCol[..], varCol[..]));
    newClasses := ClassCount(newVar) + ClassCount(newClause);
    CopyFromSlice(varCol, newVar);
    CopyFromSlice(clauseCol, newClause);
    ClassCountIsSize(newVar);
    ClassCountIsSize(newClause);
    ClassesAtMost(Colouring(newVar, newClause));
  }

  method Refine(occ: Adjacency, cls: Adjacency, varCol: array<nat>, clauseCol: array<nat>, work: nat)
    returns (complete: bool, workLeft: nat)
    requires varCol != clauseCol && varCol.Length == |occ| && clauseCol.Length == |cls|
    modifies varCol, clauseCol
    ensures Refined(Colouring(varCol[..], clauseCol[..]), workLeft, complete)
         == RefineColouring(occ, cls, Colouring(old(varCol[..]), old(clauseCol[..])), work)
  {
    hide NextColouring, Ranks, Sort;
    workLeft := work;
    var roundCost := RoundCost(Colouring(varCol[..], clauseCol[..]), cls);
    var classes := ClassCount(varCol[..]) + ClassCount(clauseCol[..]);
    ClassCountIsSize(varCol[..]);
    ClassCountIsSize(clauseCol[..]);
    ghost var target := RefineColouring(occ, cls, Colouring(varCol[..], clauseCol[..]), work);
    while true
      invariant target == RefineFrom(occ, cls, Colouring(varCol[..], clauseCol[..]), roundCost, workLeft, classes)
      decreases |occ| + |cls| - classes
    {
      if workLeft < roundCost { return false, workLeft; }
      workLeft := workLeft - roundCost;
      var newClasses := RefineRound(occ, cls, varCol, clauseCol);
      if newClasses <= classes { return true, workLeft; }
      classes := newClasses;
    }
  }

  // ---- classes split and keep their order, they never merge ----

  ghost predicate OrderRefines(old_: seq<nat>, new_: seq<nat>) {
    && |old_| == |new_|
    && forall u, v :: 0 <= u < |old_| && 0 <= v < |old_| && old_[u] < old_[v] ==> new_[u] < new_[v]
  }

  ghost predicate SamePartition(old_: seq<nat>, new_: seq<nat>) {
    && |old_| == |new_|
    && forall u, v :: 0 <= u < |old_| && 0 <= v < |old_| ==> (old_[u] == old_[v] <==> new_[u] == new_[v])
  }

  /** Ranks order nodes as their signatures do. */
  lemma RanksFollowSignatures(sigs: seq<Signature>, u: nat, v: nat)
    requires u < |sigs| && v < |sigs|
    ensures SignatureLess(sigs[u], sigs[v]) ==> Ranks(sigs)[u] < Ranks(sigs)[v]
    ensures sigs[u] == sigs[v] <==> Ranks(sigs)[u] == Ranks(sigs)[v]
  {
    SignatureOrder();
    SmallerHasFewerBelow(sigs, sigs[u], sigs[v]);
    SmallerHasFewerBelow(sigs, sigs[v], sigs[u]);
  }

  lemma SmallerHasFewerBelow(sigs: seq<Signature>, s: Signature, t: Signature)
    requires StrictTotal(SignatureLess) && s in sigs
    ensures SignatureLess(s, t) ==> |SmallerThan(ToSet(sigs), s)| < |SmallerThan(ToSet(sigs), t)|
  {
    if SignatureLess(s, t) {
      var a, b := SmallerThan(ToSet(sigs), s), SmallerThan(ToSet(sigs), t);
      assert a <= b && s in b && s !in a;
      SubsetIsNoLarger(a + {s}, b);
    }
  }

  lemma RoundRefines(adj: Adjacency, own: seq<nat>, other: seq<nat>)
    requires |own| == |adj|
    ensures OrderRefines(own, Ranks(BuildSignatures(adj, own, other)))
  {
    var sigs := BuildSignatures(adj, own, other);
    forall u, v | 0 <= u < |own| && 0 <= v < |own| && own[u] < own[v]
      ensures Ranks(sigs)[u] < Ranks(sigs)[v]
    {
      RanksFollowSignatures(sigs, u, v);
    }
  }

  /** Refining splits colour classes and keeps their order: it never merges two. */
  lemma {:induction false} RefineNeverMerges(occ: Adjacency, cls: Adjacency, c: Colouring, cost: nat, work: nat,
                                             classes: nat)
    requires Shaped(occ, cls, c)
    ensures SplitInOrder(c, RefineFrom(occ, cls, c, cost, work, classes).colours)
    decreases |occ| + |cls| - classes
  {
    hide NextColouring, Classes, SplitInOrder;
    var next := NextColouring(occ, cls, c);
    SplitsReflexive(c);
    RoundNeverMerges(occ, cls, c);
    if work >= cost && Classes(next) > classes {
      var work' := work - cost;
      RefineNeverMerges(occ, cls, next, cost, work', Classes(next));
      SplitsTransitive(c, next, RefineFrom(occ, cls, next, cost, work', Classes(next)).colours);
    }
  }

  lemma SplitsReflexive(c: Colouring)
    ensures SplitInOrder(c, c)
  {
  }

  ghost predicate SplitInOrder(old_: Colouring, new_: Colouring) {
    OrderRefines(old_.vars, new_.vars) && OrderRefines(old_.clauses, new_.clauses)
  }

  lemma SplitsTransitive(a: Colouring, b: Colouring, c: Colouring)
    requires SplitInOrder(a, b) && SplitInOrder(b, c)
    ensures SplitInOrder(a, c)
  {
    OrderRefinesTransitive(a.vars, b.vars, c.vars);
    OrderRefinesTransitive(a.clauses, b.clauses, c.clauses);
  }

  lemma RoundNeverMerges(occ: Adjacency, cls: Adjacency, c: Colouring)
    requires Shaped(occ, cls, c)
    ensures SplitInOrder(c, NextColouring(occ, cls, c))
    ensures Classes(NextColouring(occ, cls, c)) <= |occ| + |cls|
  {
    var next := NextColouring(occ, cls, c);
    RoundRefines(occ, c.vars, c.clauses);
    RoundRefines(cls, c.clauses, c.vars);
    ClassesAtMost(next);
  }

  lemma OrderRefinesTransitive(a: seq<nat>, b: seq<nat>, c: seq<nat>)
    requires OrderRefines(a, b) && OrderRefines(b, c)
    ensures OrderRefines(a, c)
  {
  }

  /** The old colour behind a new one. */
  ghost function OldOf(old_: seq<nat>, new_: seq<nat>): nat -> nat {
    (c: nat) => if c in new_ then PickOld(old_, new_, c) else 0
  }

  ghost function PickOld(old_: seq<nat>, new_: seq<nat>, c: nat): nat
    requires c in new_
  {
    var u: nat :| u < |new_| && new_[u] == c;
    ColourAt(old_, u)
  }

  lemma OldColourBehind(old_: seq<nat>, new_: seq<nat>, u: nat)
    requires OrderRefines(old_, new_) && u < |new_|
    ensures OldOf(old_, new_)(new_[u]) == old_[u]
  {
  }

  /** Splitting classes cannot lower their number, and not raising it means none was split. */
  lemma SplitsCount(old_: seq<nat>, new_: seq<nat>)
    requires OrderRefines(old_, new_)
    ensures Colours(old_) <= Colours(new_)
    ensures Colours(new_) == Colours(old_) ==> SamePartition(old_, new_)
  {
    var f := OldOf(old_, new_);
    var s, t := ToSet(new_), ToSet(old_);
    forall b | b in t ensures exists a :: a in s && f(a) == b {
      var u: nat :| u < |old_| && old_[u] == b;
      OldColourBehind(old_, new_, u);
      assert new_[u] in s;
    }
    OntoIsNoLarger(s, t, f);
    if Colours(new_) == Colours(old_) {
      forall u: nat, v: nat | u < |old_| && v < |old_| && old_[u] == old_[v] ensures new_[u] == new_[v] {
        OldColourBehind(old_, new_, u);
        OldColourBehind(old_, new_, v);
        OntoSameSizeIsInjective(s, t, f, new_[u], new_[v]);
      }
    }
  }

  // ---- stopping means stable ----

  /** Nodes of one colour see the same entries. */
  ghost predicate Stable(adj: Adjacency, own: seq<nat>, other: seq<nat>) {
    && |own| == |adj|
    && forall u, v :: 0 <= u < |adj| && 0 <= v < |adj| && own[u] == own[v] ==>
        SignatureOf(adj[u], own[u], other) == SignatureOf(adj[v], own[v], other)
  }

  function Recolour(old_: seq<nat>, new_: seq<nat>): Entry -> Entry {
    (e: Entry) => if e.1 in old_ then (e.0, ColourAt(new_, IndexOf(old_, e.1))) else (e.0, 0)
  }

  /** Entries under a colouring with the same classes are the old entries recoloured. */
  lemma RecolouredEntries(links: seq<Link>, old_: seq<nat>, new_: seq<nat>)
    requires SamePartition(old_, new_) && forall l :: l in links ==> l.0 < |old_|
    ensures Map(Recolour(old_, new_), Map(EntryOf(old_), links)) == Map(EntryOf(new_), links)
  {
    forall i | 0 <= i < |links| ensures Recolour(old_, new_)(EntryOf(old_)(links[i])) == EntryOf(new_)(links[i]) {
      assert links[i] in links;
    }
  }

  lemma SameEntriesRecoloured(a: seq<Link>, b: seq<Link>, old_: seq<nat>, new_: seq<nat>)
    requires SamePartition(old_, new_)
    requires (forall l :: l in a ==> l.0 < |old_|) && (forall l :: l in b ==> l.0 < |old_|)
    requires Sort(Map(EntryOf(old_), a), EntryLess) == Sort(Map(EntryOf(old_), b), EntryLess)
    ensures Sort(Map(EntryOf(new_), a), EntryLess) == Sort(Map(EntryOf(new_), b), EntryLess)
  {
    var ea, eb := Map(EntryOf(old_), a), Map(EntryOf(old_), b);
    assert multiset(ea) == multiset(Sort(ea, EntryLess)) == multiset(eb);
    MapBag(Recolour(old_, new_), ea, eb);
    RecolouredEntries(a, old_, new_);
    RecolouredEntries(b, old_, new_);
    EntryOrder();
    SortDependsOnBag(Map(EntryOf(new_), a), Map(EntryOf(new_), b), EntryLess);
  }

  ghost predicate LinksBelow(adj: Adjacency, n: nat) {
    forall i, l :: 0 <= i < |adj| && l in adj[i] ==> l.0 < n
  }

  /** A round that splits nothing leaves a stable colouring. */
  lemma UnsplitRoundIsStable(adj: Adjacency, own: seq<nat>, other: seq<nat>, other': seq<nat>)
    requires |own| == |adj| && LinksBelow(adj, |other|) && SamePartition(other, other')
    requires SamePartition(own, Ranks(BuildSignatures(adj, own, other)))
    ensures Stable(adj, Ranks(BuildSignatures(adj, own, other)), other')
  {
    var sigs := BuildSignatures(adj, own, other);
    var own' := Ranks(sigs);
    forall u: nat, v: nat | u < |adj| && v < |adj| && own'[u] == own'[v]
      ensures SignatureOf(adj[u], own'[u], other') == SignatureOf(adj[v], own'[v], other')
    {
      RanksFollowSignatures(sigs, u, v);
      SameEntriesRecoloured(adj[u], adj[v], other, other');
    }
  }

  ghost predicate BothStable(occ: Adjacency, cls: Adjacency, c: Colouring) {
    Stable(occ, c.vars, c.clauses) && Stable(cls, c.clauses, c.vars)
  }

  lemma LastRoundIsStable(occ: Adjacency, cls: Adjacency, c: Colouring)
    requires Shaped(occ, cls, c) && LinksBelow(occ, |cls|) && LinksBelow(cls, |occ|)
    requires Classes(NextColouring(occ, cls, c)) <= Classes(c)
    ensures BothStable(occ, cls, NextColouring(occ, cls, c))
  {
    var next := NextColouring(occ, cls, c);
    RoundRefines(occ, c.vars, c.clauses);
    RoundRefines(cls, c.clauses, c.vars);
    SplitsCount(c.vars, next.vars);
    SplitsCount(c.clauses, next.clauses);
    UnsplitRoundIsStable(occ, c.vars, c.clauses, next.clauses);
    UnsplitRoundIsStable(cls, c.clauses, c.vars, next.vars);
  }

  ghost predicate EndsWith(occ: Adjacency, cls: Adjacency, end: Colouring, last: Colouring) {
    Shaped(occ, cls, last) && end == NextColouring(occ, cls, last) && Classes(end) <= Classes(last)
  }

  /** A completed refinement ends with a round that splits nothing. */
  lemma {:induction false} LastRound(occ: Adjacency, cls: Adjacency, c: Colouring, cost: nat, work: nat)
    returns (last: Colouring)
    requires Shaped(occ, cls, c)
    ensures Shaped(occ, cls, last)
    ensures RefineFrom(occ, cls, c, cost, work, Classes(c)).complete ==>
              EndsWith(occ, cls, RefineFrom(occ, cls, c, cost, work, Classes(c)).colours, last)
    decreases |occ| + |cls| - Classes(c)
  {
    hide NextColouring, Classes;
    var next := NextColouring(occ, cls, c);
    ClassesAtMost(next);
    last := c;
    if work >= cost && Classes(next) > Classes(c) {
      last := LastRound(occ, cls, next, cost, work - cost);
    }
  }

  /** Refinement reports completion only on a stable colouring. */
  lemma CompleteIsStable(occ: Adjacency, cls: Adjacency, c: Colouring, work: nat)
    requires Shaped(occ, cls, c) && LinksBelow(occ, |cls|) && LinksBelow(cls, |occ|)
    requires RefineColouring(occ, cls, c, work).complete
    ensures BothStable(occ, cls, RefineColouring(occ, cls, c, work).colours)
  {
    var last := LastRound(occ, cls, c, RoundCost(c, cls), work);
    LastRoundIsStable(occ, cls, last);
  }
}
