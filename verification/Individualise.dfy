/** Individualising tied variables until refinement tells every two apart, and the order it gives. */
module Individualise {
  import opened Wrappers
  import opened Sequences
  import opened Ordering
  import opened Refinement

  const U32_MAX: nat := 0xFFFF_FFFF

  // ---- the first tie ----

  predicate PairLess(a: (nat, nat), b: (nat, nat)) {
    a.0 < b.0 || (a.0 == b.0 && a.1 < b.1)
  }

  function Coloured(cols: seq<nat>): nat -> (nat, nat) {
    (v: nat) => (ColourAt(cols, v), v)
  }

  function FirstTie(pairs: seq<(nat, nat)>): Option<nat> {
    if |pairs| < 2 then None
    else if pairs[0].0 == pairs[1].0 then Some(pairs[0].1)
    else FirstTie(pairs[1..])
  }

  /** Which variable individualisation picks: sorted by colour and then index, the first with a
      neighbour of its colour. */
  function FirstTiedVariable(cols: seq<nat>): Option<nat> {
    FirstTie(Sort(Map(Coloured(cols), Range(|cols|)), PairLess))
  }

  ghost predicate TieAt(pairs: seq<(nat, nat)>, i: nat) {
    i + 1 < |pairs| && pairs[i].0 == pairs[i + 1].0
  }

  lemma {:induction false} FirstTieMeaning(pairs: seq<(nat, nat)>)
    ensures FirstTie(pairs).None? ==> forall i: nat :: !TieAt(pairs, i)
    ensures FirstTie(pairs).Some? ==>
              exists i: nat ::
                TieAt(pairs, i) && pairs[i].1 == FirstTie(pairs).value && forall k: nat :: k < i ==> !TieAt(pairs, k)
  {
    if |pairs| >= 2 {
      if pairs[0].0 == pairs[1].0 {
        assert TieAt(pairs, 0);
      } else {
        FirstTieMeaning(pairs[1..]);
        forall i: nat | i > 0 ensures TieAt(pairs, i) <==> TieAt(pairs[1..], i - 1) { TieShift(pairs, i); }
        if FirstTie(pairs).Some? {
          var i: nat :| TieAt(pairs[1..], i) && pairs[1..][i].1 == FirstTie(pairs).value
                        && forall k: nat :: k < i ==> !TieAt(pairs[1..], k);
          var next := i + 1;
          assert TieAt(pairs, next);
          forall k: nat | k < next ensures !TieAt(pairs, k) { TieShift(pairs, k); }
        }
      }
    }
  }

  lemma TieShift(pairs: seq<(nat, nat)>, k: nat)
    requires pairs != []
    ensures k > 0 ==> (TieAt(pairs, k) <==> TieAt(pairs[1..], k - 1))
  {
  }

  ghost predicate Tied(cols: seq<nat>, a: nat, b: nat) {
    a < |cols| && b < |cols| && a != b && cols[a] == cols[b]
  }

  ghost function Sorting(cols: seq<nat>): seq<(nat, nat)> {
    Sort(Map(Coloured(cols), Range(|cols|)), PairLess)
  }

  lemma SortingMeaning(cols: seq<nat>)
    ensures Sorted(Sorting(cols), PairLess) && |Sorting(cols)| == |cols|
    ensures forall p: (nat, nat) :: p in Sorting(cols) <==> p.1 < |cols| && p.0 == cols[p.1]
    ensures Distinct(Sorting(cols))
  {
    var m := Map(Coloured(cols), Range(|cols|));
    SortSorts(m, PairLess);
    forall p: (nat, nat) ensures p in m <==> p.1 < |cols| && p.0 == cols[p.1] {
      if p.1 < |cols| && p.0 == cols[p.1] { assert m[p.1] == p; }
    }
    assert Distinct(m);
    BagDistinct(m, Sort(m, PairLess));
  }

  /** Two tied variables have a neighbouring tie at or before the first of them. */
  lemma TieBetween(cols: seq<nat>, a: nat, b: nat) returns (k: nat)
    requires Tied(cols, a, b)
    ensures TieAt(Sorting(cols), k) && k < |cols| && Sorting(cols)[k].0 == cols[a] && Sorting(cols)[k].1 <= a
  {
    hide Sort;
    SortingMeaning(cols);
    var p := Sorting(cols);
    assert (cols[a], a) in p && (cols[b], b) in p;
    var i: nat :| i < |p| && p[i] == (cols[a], a);
    var j: nat :| j < |p| && p[j] == (cols[b], b);
    if i < j {
      k := i;
      assert !PairLess(p[i + 1], p[i]);
      if i + 1 < j { assert !PairLess(p[j], p[i + 1]); }
    } else {
      k := i - 1;
      assert !PairLess(p[i], p[k]);
      if j < k { assert !PairLess(p[k], p[j]); }
    }
  }

  lemma FirstTiedMeaning(cols: seq<nat>)
    ensures FirstTiedVariable(cols).None? <==> Distinct(cols)
    ensures FirstTiedVariable(cols).Some? ==>
              var v := FirstTiedVariable(cols).value;
              && (exists w: nat :: Tied(cols, v, w))
              && (forall a: nat, b: nat :: Tied(cols, a, b) ==> cols[v] < cols[a] || (cols[v] == cols[a] && v <= a))
  {
    SortingMeaning(cols);
    var p := Sorting(cols);
    FirstTieMeaning(p);
    if FirstTiedVariable(cols).None? {
      forall a: nat, b: nat | a < b < |cols| ensures cols[a] != cols[b] {
        if cols[a] == cols[b] { var k := TieBetween(cols, a, b); }
      }
    } else {
      var i: nat :| TieAt(p, i) && p[i].1 == FirstTiedVariable(cols).value && forall k: nat :: k < i ==> !TieAt(p, k);
      var v, w := p[i].1, p[i + 1].1;
      assert p[i] in p && p[i + 1] in p;
      assert Tied(cols, v, w);
      forall a: nat, b: nat | Tied(cols, a, b) ensures cols[v] < cols[a] || (cols[v] == cols[a] && v <= a) {
        var k := TieBetween(cols, a, b);
        if i < k { assert !PairLess(p[k], p[i]); }
      }
    }
  }

  // ---- one individualisation ----

  /** Twice every colour, and one more for all but the pick, so that it alone moves to the front of its class. */
  ghost function PickFirst(cols: seq<nat>, pick: nat): seq<nat> {
    seq(|cols|, v requires 0 <= v < |cols| => cols[v] * 2 + (if v != pick then 1 else 0))
  }

  ghost function Doubled(cols: seq<nat>): seq<nat> {
    seq(|cols|, v requires 0 <= v < |cols| => cols[v] * 2)
  }

  ghost function Bump(c: Colouring, pick: nat): Colouring {
    Colouring(PickFirst(c.vars, pick), Doubled(c.clauses))
  }

  /** A completed round of individualisation has more variable classes than before. */
  lemma IndividualisationSplits(occ: Adjacency, cls: Adjacency, c: Colouring, pick: nat, work: nat)
    requires Shaped(occ, cls, c) && FirstTiedVariable(c.vars) == Some(pick)
    ensures SplitInOrder(c, RefineColouring(occ, cls, Bump(c, pick), work).colours)
    ensures Colours(c.vars) < Colours(RefineColouring(occ, cls, Bump(c, pick), work).colours.vars) <= |occ|
  {
    var b := Bump(c, pick);
    var end := RefineColouring(occ, cls, b, work).colours;
    FirstTiedMeaning(c.vars);
    var other: nat :| Tied(c.vars, pick, other);
    assert SplitInOrder(c, b);
    RefineNeverMerges(occ, cls, b, RoundCost(b, cls), work, Classes(b));
    SplitsTransitive(c, b, end);
    SplitsCount(c.vars, b.vars);
    SplitsCount(b.vars, end.vars);
    assert b.vars[pick] != b.vars[other];
    assert !SamePartition(c.vars, b.vars);
    ToSetAtMost(end.vars);
  }

  /** Individualise and refine until nothing is tied or the work runs out. */
  ghost function IndividualiseFrom(occ: Adjacency, cls: Adjacency, c: Colouring, work: nat): (r: Colouring)
    requires Shaped(occ, cls, c)
    ensures Shaped(occ, cls, r)
    decreases |occ| - Colours(c.vars)
  {
    match FirstTiedVariable(c.vars)
    case None => c
    case Some(pick) =>
      var r := RefineColouring(occ, cls, Bump(c, pick), work);
      IndividualisationSplits(occ, cls, c, pick, work);
      if r.complete then IndividualiseFrom(occ, cls, r.colours, r.workLeft) else r.colours
  }

  lemma {:induction false} IndividualiseNeverMerges(occ: Adjacency, cls: Adjacency, c: Colouring, work: nat)
    requires Shaped(occ, cls, c)
    ensures SplitInOrder(c, IndividualiseFrom(occ, cls, c, work))
    ensures Distinct(c.vars) ==> IndividualiseFrom(occ, cls, c, work) == c
    decreases |occ| - Colours(c.vars)
  {
    FirstTiedMeaning(c.vars);
    SplitsReflexive(c);
    match FirstTiedVariable(c.vars)
    case None =>
    case Some(pick) =>
      var r := RefineColouring(occ, cls, Bump(c, pick), work);
      IndividualisationSplits(occ, cls, c, pick, work);
      if r.complete {
        IndividualiseNeverMerges(occ, cls, r.colours, r.workLeft);
        SplitsTransitive(c, r.colours, IndividualiseFrom(occ, cls, r.colours, r.workLeft));
      }
  }

  // ---- the colours as the source stores them ----

  ghost predicate Below(cols: seq<nat>, n: nat) {
    forall v :: 0 <= v < |cols| ==> cols[v] < n
  }

  lemma RanksBelow(sigs: seq<Signature>)
    ensures Below(Ranks(sigs), |sigs|)
  {
    ToSetAtMost(sigs);
    SignatureOrder();
    forall i | 0 <= i < |sigs| ensures Ranks(sigs)[i] < |sigs| {
      assert SmallerThan(ToSet(sigs), sigs[i]) <= ToSet(sigs) - {sigs[i]};
      SubsetIsNoLarger(SmallerThan(ToSet(sigs), sigs[i]), ToSet(sigs) - {sigs[i]});
    }
  }

  ghost predicate AreRanks(c: Colouring) {
    Below(c.vars, |c.vars|) && Below(c.clauses, |c.clauses|)
  }

  lemma NextIsRanks(occ: Adjacency, cls: Adjacency, c: Colouring)
    requires Shaped(occ, cls, c)
    ensures AreRanks(NextColouring(occ, cls, c))
  {
    RanksBelow(BuildSignatures(occ, c.vars, c.clauses));
    RanksBelow(BuildSignatures(cls, c.clauses, c.vars));
  }

  /** After a completed refinement the colours are ranks, so doubling them stays within 32 bits. */
  lemma CompleteColoursAreRanks(occ: Adjacency, cls: Adjacency, c: Colouring, work: nat)
    requires Shaped(occ, cls, c) && RefineColouring(occ, cls, c, work).complete
    ensures AreRanks(RefineColouring(occ, cls, c, work).colours)
  {
    var last := LastRound(occ, cls, c, RoundCost(c, cls), work);
    NextIsRanks(occ, cls, last);
  }

  method BumpColours(varCol: array<nat>, clauseCol: array<nat>, pick: nat)
    requires varCol != clauseCol
    requires Below(varCol[..], MAX_INDIVIDUALISED_SIZE) && Below(clauseCol[..], MAX_INDIVIDUALISED_SIZE)
    modifies varCol, clauseCol
    ensures Colouring(varCol[..], clauseCol[..]) == Bump(Colouring(old(varCol[..]), old(clauseCol[..])), pick)
    ensures Below(varCol[..], U32_MAX) && Below(clauseCol[..], U32_MAX)
  {
    for v := 0 to varCol.Length
      invariant forall u :: 0 <= u < v ==> varCol[u] == old(varCol[u]) * 2 + (if u != pick then 1 else 0)
      invariant forall u :: v <= u < varCol.Length ==> varCol[u] == old(varCol[u])
      invariant clauseCol[..] == old(clauseCol[..])
    {
      varCol[v] := varCol[v] * 2 + (if v != pick then 1 else 0);
    }
    ghost var bumped := varCol[..];
    for i := 0 to clauseCol.Length
      invariant forall j :: 0 <= j < i ==> clauseCol[j] == old(clauseCol[j]) * 2
      invariant forall j :: i <= j < clauseCol.Length ==> clauseCol[j] == old(clauseCol[j])
      invariant varCol[..] == bumped
    {
      clauseCol[i] := clauseCol[i] * 2;
    }
    forall u | 0 <= u < varCol.Length ensures varCol[u] == old(varCol[..])[u] * 2 + (if u != pick then 1 else 0) {
      assert bumped[u] == varCol[u];
    }
    assert varCol[..] == PickFirst(old(varCol[..]), pick);
    assert clauseCol[..] == Doubled(old(clauseCol[..]));
  }

  method IndividualiseAll(occ: Adjacency, cls: Adjacency, varCol: array<nat>, clauseCol: array<nat>, work: nat)
    requires varCol != clauseCol && varCol.Length == |occ| && clauseCol.Length == |cls|
    requires |occ| + |cls| <= MAX_INDIVIDUALISED_SIZE && Below(varCol[..], |occ|) && Below(clauseCol[..], |cls|)
    modifies varCol, clauseCol
    ensures Colouring(varCol[..], clauseCol[..])
         == IndividualiseFrom(occ, cls, Colouring(old(varCol[..]), old(clauseCol[..])), work)
  {
    var workLeft := work;
    ghost var target := IndividualiseFrom(occ, cls, Colouring(varCol[..], clauseCol[..]), work);
    while true
      invariant Below(varCol[..], |occ|) && Below(clauseCol[..], |cls|)
      invariant target == IndividualiseFrom(occ, cls, Colouring(varCol[..], clauseCol[..]), workLeft)
      decreases |occ| - Colours(varCol[..])
    {
      ghost var c := Colouring(varCol[..], clauseCol[..]);
      var tie := FirstTiedVariable(varCol[..]);
      if tie.None? { return; }
      ghost var before := workLeft;
      BumpColours(varCol, clauseCol, tie.value);
      var complete, left := Refine(occ, cls, varCol, clauseCol, workLeft);
      workLeft := left;
      IndividualisationSplits(occ, cls, c, tie.value, before);
      if !complete { return; }
      CompleteColoursAreRanks(occ, cls, Bump(c, tie.value), before);
    }
  }
}
