/** How much work is always enough, and copies whose tied variables can be swapped: they meet under every limit. */
module Interchangeable {
  import opened Wrappers
  import opened Sequences
  import opened Ordering
  import opened Cnf
  import opened ShowSets
  import opened Refinement
  import opened Individualise
  import opened Canonical
  import opened CanonicalSymmetry

  // ---- how much work is enough ----

  /** What one refinement costs at most: every round but the last splits a class. */
  function RefinementCost(n: nat, cls: Adjacency): nat {
    (n + |cls| + 2 * Sum(Map(Length, cls))) * (n + |cls| + 1)
  }

  lemma {:induction false} RoundsSuffice(occ: Adjacency, cls: Adjacency, c: Colouring, cost: nat, work: nat,
                                         classes: nat)
    requires Shaped(occ, cls, c) && classes <= |occ| + |cls| && work >= cost * (|occ| + |cls| - classes + 1)
    ensures RefineFrom(occ, cls, c, cost, work, classes).complete
    ensures RefineFrom(occ, cls, c, cost, work, classes).workLeft + cost * (|occ| + |cls| - classes + 1) >= work
    decreases |occ| + |cls| - classes
  {
    hide NextColouring, Classes;
    var next, room := NextColouring(occ, cls, c), |occ| + |cls| - classes;
    assert cost * (room + 1) == cost * room + cost && cost * room >= 0;
    if Classes(next) > classes {
      ClassesAtMost(next);
      var room' := |occ| + |cls| - Classes(next);
      MoreRooms(cost, room' + 1, room);
      RoundsSuffice(occ, cls, next, cost, work - cost, Classes(next));
    }
  }

  lemma MoreRooms(cost: nat, a: nat, b: nat)
    requires a <= b
    ensures cost * a <= cost * b
  {
    assert cost * b == cost * a + cost * (b - a);
  }

  lemma RefinementSuffices(occ: Adjacency, cls: Adjacency, c: Colouring, work: nat)
    requires Shaped(occ, cls, c) && work >= RefinementCost(|occ|, cls)
    ensures RefineColouring(occ, cls, c, work).complete
    ensures RefineColouring(occ, cls, c, work).workLeft + RefinementCost(|occ|, cls) >= work
  {
    hide RefineFrom, Classes;
    ClassesAtMost(c);
    MoreRooms(RoundCost(c, cls), |occ| + |cls| - Classes(c) + 1, |occ| + |cls| + 1);
    RoundsSuffice(occ, cls, c, RoundCost(c, cls), work, Classes(c));
  }

  /** With one refinement's cost for each colour still to come, no tie is left. */
  lemma {:induction false} IndividualisingSuffices(occ: Adjacency, cls: Adjacency, c: Colouring, work: nat, rounds: nat)
    requires Shaped(occ, cls, c) && |occ| <= Colours(c.vars) + rounds && work >= RefinementCost(|occ|, cls) * rounds
    ensures Distinct(IndividualiseFrom(occ, cls, c, work).vars)
    decreases rounds
  {
    hide RefineColouring, FirstTiedVariable, RefinementCost, Bump;
    FirstTiedMeaning(c.vars);
    match FirstTiedVariable(c.vars)
    case None =>
    case Some(pick) =>
      var cost := RefinementCost(|occ|, cls);
      BumpShaped(occ, cls, c, pick);
      IndividualisationSplits(occ, cls, c, pick, work);
      assert rounds > 0 && cost * rounds == cost * (rounds - 1) + cost && cost * (rounds - 1) >= 0;
      RefinementSuffices(occ, cls, Bump(c, pick), work);
      var r := RefineColouring(occ, cls, Bump(c, pick), work);
      IndividualisingSuffices(occ, cls, r.colours, r.workLeft, rounds - 1);
  }

  /** A limit that pays for one refinement per variable and the first one tells every variable apart. */
  lemma WorkSuffices(n: nat, cls: Adjacency, show: Option<ShowMask>, work: nat)
    requires n + |cls| <= MAX_INDIVIDUALISED_SIZE && work >= RefinementCost(n, cls) * (n + 1)
    ensures TellsApart(n, cls, show, work)
  {
    hide RefineColouring, RefinementCost, IndividualiseFrom;
    var occ, cost := Occurrences(n, cls), RefinementCost(n, cls);
    assert cost * (n + 1) == cost * n + cost && cost * n >= 0;
    RefinementSuffices(occ, cls, InitialColours(n, cls, show), work);
    var r := FirstRefinement(n, cls, show, work);
    IndividualisingSuffices(occ, cls, r.colours, r.workLeft, n);
  }

  // ---- variables that can be swapped ----

  /** The permutation that swaps two variables. */
  ghost function Swap(n: nat, u: nat, v: nat): (p: seq<nat>)
    requires u < n && v < n
    ensures |p| == n && forall i :: 0 <= i < n ==> p[i] == if i == u then v else if i == v then u else i
  {
    seq(n, i requires 0 <= i < n => if i == u then v else if i == v then u else i)
  }

  /** Swapping the two variables, with some reordering of the clauses, changes neither clauses nor show mask. */
  ghost predicate Swappable(n: nat, cls: Adjacency, show: Option<ShowMask>, u: nat, v: nat)
    requires u < n && v < n
  {
    ShownAlike(show, show, n, Swap(n, u, v)) && exists b :: RenamedCopy(cls, cls, n, Swap(n, u, v), b)
  }

  ghost predicate SwapKeeps(occ: Adjacency, cls: Adjacency, c: Colouring, u: nat, v: nat) {
    u < |occ| && v < |occ| && exists b :: Automorphism(occ, cls, c, Swap(|occ|, u, v), b)
  }

  ghost predicate TiesSwap(occ: Adjacency, cls: Adjacency, c: Colouring) {
    forall u: nat, v: nat :: Tied(c.vars, u, v) ==> SwapKeeps(occ, cls, c, u, v)
  }

  /** Variables tied after an individualisation were tied before it, and neither is the picked one. */
  lemma TiedSince(occ: Adjacency, cls: Adjacency, c: Colouring, pick: nat, work: nat, u: nat, v: nat)
    requires Shaped(occ, cls, c) && pick < |occ| && Shaped(occ, cls, Bump(c, pick))
    requires Tied(RefineColouring(occ, cls, Bump(c, pick), work).colours.vars, u, v)
    ensures Tied(c.vars, u, v) && u != pick && v != pick
  {
    hide RefineFrom, Classes, RoundCost;
    var b := Bump(c, pick);
    RefineNeverMerges(occ, cls, b, RoundCost(b, cls), work, Classes(b));
    assert b.vars[u] == b.vars[v];
  }

  /** A swap that fixes the picked variable survives the individualisation. */
  lemma SwapSurvives(occ: Adjacency, cls: Adjacency, c: Colouring, pick: nat, work: nat, u: nat, v: nat)
    requires Shaped(occ, cls, c) && SwapKeeps(occ, cls, c, u, v) && pick < |occ| && pick != u && pick != v
    ensures Shaped(occ, cls, Bump(c, pick))
              && SwapKeeps(occ, cls, RefineColouring(occ, cls, Bump(c, pick), work).colours, u, v)
  {
    hide Matched, BothCarried, Bump, RefineColouring;
    var swap := Swap(|occ|, u, v);
    var b :| Automorphism(occ, cls, c, swap, b);
    BumpShaped(occ, cls, c, pick);
    BumpCarried(c, c, swap, b, pick);
    RefiningCarried(occ, cls, occ, cls, Bump(c, pick), Bump(c, pick), swap, b, work);
    assert Automorphism(occ, cls, RefineColouring(occ, cls, Bump(c, pick), work).colours, swap, b);
  }

  /** If every two tied variables can be swapped, every tie individualisation meets is symmetric. */
  lemma {:induction false} SwapsAreSymmetric(occ: Adjacency, cls: Adjacency, c: Colouring, work: nat)
    requires Shaped(occ, cls, c) && TiesSwap(occ, cls, c)
    ensures TiesSymmetric(occ, cls, c, work)
    decreases |occ| - Colours(c.vars)
  {
    hide RefineColouring, FirstTiedVariable, Bump, SwapKeeps, Alike;
    FirstTiedMeaning(c.vars);
    match FirstTiedVariable(c.vars)
    case None =>
    case Some(pick) =>
      BumpShaped(occ, cls, c, pick);
      var r := RefineColouring(occ, cls, Bump(c, pick), work);
      IndividualisationSplits(occ, cls, c, pick, work);
      forall v: nat | Tied(c.vars, pick, v) ensures Alike(occ, cls, c, pick, v) {
        SwapMakesAlike(occ, cls, c, pick, v);
      }
      if r.complete {
        forall u: nat, v: nat | Tied(r.colours.vars, u, v) ensures SwapKeeps(occ, cls, r.colours, u, v) {
          TiedSince(occ, cls, c, pick, work, u, v);
          SwapSurvives(occ, cls, c, pick, work, u, v);
        }
        SwapsAreSymmetric(occ, cls, r.colours, r.workLeft);
      }
  }

  lemma SwapMakesAlike(occ: Adjacency, cls: Adjacency, c: Colouring, u: nat, v: nat)
    requires SwapKeeps(occ, cls, c, u, v)
    ensures Alike(occ, cls, c, u, v)
  {
    hide Automorphism;
    var b :| Automorphism(occ, cls, c, Swap(|occ|, u, v), b);
    assert Swap(|occ|, u, v)[u] == v;
  }

  /** Swaps of the formula keep the colours of the first refinement. */
  lemma SwappableKeeps(n: nat, cls: Adjacency, show: Option<ShowMask>, work: nat, u: nat, v: nat)
    requires u < n && v < n && Swappable(n, cls, show, u, v)
    ensures SwapKeeps(Occurrences(n, cls), cls, FirstRefinement(n, cls, show, work).colours, u, v)
  {
    hide FirstRefinement, Copies, BothCarried, Occurrences;
    var swap := Swap(n, u, v);
    var b :| RenamedCopy(cls, cls, n, swap, b);
    OccurrencesCopy(cls, cls, n, swap, b);
    FirstRefinementCarried(n, cls, cls, show, show, swap, b, work);
    assert Automorphism(Occurrences(n, cls), cls, FirstRefinement(n, cls, show, work).colours, swap, b);
  }

  // ---- ties left to the local numbering ----

  /** What is left tied when the order is read: in a component too large to refine, everything. */
  ghost function LeftColours(n: nat, cls: Adjacency, show: Option<ShowMask>, work: nat): (cols: seq<nat>)
    ensures |cols| == n
  {
    if n + |cls| > MAX_REFINED_SIZE then seq(n, _ => 0) else FinalColours(n, cls, show, work).vars
  }

  function Less(): (nat, nat) -> bool { (x: nat, y: nat) => x < y }

  /** Orders by corresponding colours list the same colours. */
  lemma SameColours(cols: seq<nat>, cols': seq<nat>, p: seq<nat>)
    requires Carried(cols, cols', p)
    ensures Map(At(cols, 0), Sort(Range(|cols|), ByColour(cols)))
         == Map(At(cols', 0), Sort(Range(|cols|), ByColour(cols')))
  {
    ListsColours(cols);
    ListsColours(cols');
    PermutedBag(cols, cols', p);
    SortedIsUnique(Map(At(cols, 0), Sort(Range(|cols|), ByColour(cols))),
                   Map(At(cols', 0), Sort(Range(|cols|), ByColour(cols'))), Less());
  }

  lemma ListsColours(cols: seq<nat>)
    ensures Sorted(Map(At(cols, 0), Sort(Range(|cols|), ByColour(cols))), Less())
    ensures multiset(Map(At(cols, 0), Sort(Range(|cols|), ByColour(cols)))) == multiset(cols)
  {
    var order := Sort(Range(|cols|), ByColour(cols));
    ByColourOrder(cols);
    SortSorts(Range(|cols|), ByColour(cols));
    MapBag(At(cols, 0), order, Range(|cols|));
    assert Map(At(cols, 0), Range(|cols|)) == cols;
    BagOfRangePermutes(order, |cols|);
    forall i, j | 0 <= i < j < |order| ensures cols[order[i]] <= cols[order[j]] {
      assert !ByColour(cols)(order[j], order[i]);
    }
  }

  /** A renaming that may still be changed by swaps of tied variables. */
  ghost predicate Renames(cls: Adjacency, cls': Adjacency, show: Option<ShowMask>, show': Option<ShowMask>,
                          cols: seq<nat>, cols': seq<nat>, vars: seq<nat>, clauses: seq<nat>) {
    && Carried(cols, cols', vars) && RenamedCopy(cls, cls', |cols|, vars, clauses)
    && ShownAlike(show, show', |cols|, vars)
  }

  ghost predicate AllSwap(cls: Adjacency, show: Option<ShowMask>, cols: seq<nat>) {
    forall u: nat, v: nat :: Tied(cols, u, v) ==> Swappable(|cols|, cls, show, u, v)
  }

  /** A swap before the renaming is one more renaming. */
  lemma SwapFirst(cls: Adjacency, cls': Adjacency, show: Option<ShowMask>, show': Option<ShowMask>,
                  cols: seq<nat>, cols': seq<nat>, vars: seq<nat>, clauses: seq<nat>, u: nat, v: nat)
    returns (clauses2: seq<nat>)
    requires Renames(cls, cls', show, show', cols, cols', vars, clauses)
    requires Tied(cols, u, v) && Swappable(|cols|, cls, show, u, v)
    ensures Renames(cls, cls', show, show', cols, cols', Compose(Swap(|cols|, u, v), vars), clauses2)
  {
    assert |vars| == |cols|;
    hide Carried, RenamedCopy, ShownAlike;
    var swap := Swap(|cols|, u, v);
    var b :| RenamedCopy(cls, cls, |cols|, swap, b);
    clauses2 := Compose(b, clauses);
    assert Carried(cols, cols, swap) by { SwapPermutes(cols, u, v); }
    CarriedCompose(cols, cols, cols', swap, vars);
    RenamedTwice(cls, cls, cls', |cols|, swap, b, vars, clauses);
    ShownTwice(show, show, show', |cols|, swap, vars);
  }

  lemma SwapPermutes(cols: seq<nat>, u: nat, v: nat)
    requires Tied(cols, u, v)
    ensures Carried(cols, cols, Swap(|cols|, u, v))
  {
  }

  lemma RenamedTwice(cls: Adjacency, mid: Adjacency, cls': Adjacency, n: nat, p: seq<nat>, b: seq<nat>,
                     vars: seq<nat>, clauses: seq<nat>)
    requires RenamedCopy(cls, mid, n, p, b) && RenamedCopy(mid, cls', n, vars, clauses)
    ensures RenamedCopy(cls, cls', n, Compose(p, vars), Compose(b, clauses))
  {
    hide Copies;
    CopiesCompose(cls, mid, cls', b, p, clauses, vars);
    ComposePermutes(p, vars, n);
  }

  lemma ShownTwice(show: Option<ShowMask>, mid: Option<ShowMask>, show': Option<ShowMask>, n: nat, p: seq<nat>,
                   q: seq<nat>)
    requires |p| == |q| == n && (forall i :: 0 <= i < n ==> p[i] < n)
    requires ShownAlike(show, mid, n, p) && ShownAlike(mid, show', n, q)
    ensures ShownAlike(show, show', n, Compose(p, q))
  {
    hide ShownAt;
  }

  /** Swaps of tied variables line the renaming up with two orders that list the same colours. */
  lemma {:induction false} LineUp(cls: Adjacency, cls': Adjacency, show: Option<ShowMask>, show': Option<ShowMask>,
                                  cols: seq<nat>, cols': seq<nat>, vars: seq<nat>, clauses: seq<nat>,
                                  order: seq<nat>, order': seq<nat>, k: nat)
    returns (vars2: seq<nat>, clauses2: seq<nat>)
    requires Renames(cls, cls', show, show', cols, cols', vars, clauses) && AllSwap(cls, show, cols)
    requires IsPermutation(order, |cols|) && IsPermutation(order', |cols|) && k <= |cols|
    requires Map(At(cols, 0), order) == Map(At(cols', 0), order')
    ensures Renames(cls, cls', show, show', cols, cols', vars2, clauses2)
    ensures forall i :: 0 <= i < k ==> vars2[order[i]] == order'[i]
    decreases k
  {
    hide Swappable, RenamedCopy, ShownAlike;
    vars2, clauses2 := vars, clauses;
    if k > 0 {
      var vars1, clauses1 := LineUp(cls, cls', show, show', cols, cols', vars, clauses, order, order', k - 1);
      vars2, clauses2 := vars1, clauses1;
      var v, w := order[k - 1], order'[k - 1];
      if vars1[v] != w {
        PermutationBag(vars1, |cols|);
        assert w in vars1;
        var u :| 0 <= u < |cols| && vars1[u] == w;
        assert At(cols, 0)(v) == Map(At(cols, 0), order)[k - 1] == Map(At(cols', 0), order')[k - 1] == At(cols', 0)(w);
        assert Tied(cols, u, v);
        clauses2 := SwapFirst(cls, cls', show, show', cols, cols', vars1, clauses1, u, v);
        vars2 := Compose(Swap(|cols|, u, v), vars1);
        forall i | 0 <= i < k ensures vars2[order[i]] == order'[i] {
          if i < k - 1 { assert order[i] != v && order'[i] != w; }
        }
      }
    }
  }

  lemma LeftColoursCarried(n: nat, cls: Adjacency, cls': Adjacency, show: Option<ShowMask>, show': Option<ShowMask>,
                           vars: seq<nat>, clauses: seq<nat>, work: nat) returns (vars2: seq<nat>, clauses2: seq<nat>)
    requires RenamedCopy(cls, cls', n, vars, clauses) && ShownAlike(show, show', n, vars)
    requires BreaksSymmetricTies(n, cls, show, work)
    ensures Renames(cls, cls', show, show', LeftColours(n, cls, show, work), LeftColours(n, cls', show', work),
                    vars2, clauses2)
    ensures Map(At(LeftColours(n, cls, show, work), 0), RefinedOrderOf(n, cls, show, work))
         == Map(At(LeftColours(n, cls', show', work), 0), RefinedOrderOf(n, cls', show', work))
  {
    hide FinalColours, Copies, ByColour, BreaksSymmetricTies, ShownAlike;
    CopySizes(cls, cls', clauses, vars);
    if n + |cls| > MAX_REFINED_SIZE {
      vars2, clauses2 := vars, clauses;
    } else {
      vars2, clauses2 := FinalColoursCarried(n, cls, cls', show, show', vars, clauses, work);
      SameColours(FinalColours(n, cls, show, work).vars, FinalColours(n, cls', show', work).vars, vars2);
    }
  }

  /** Ties that are left, because the work ran out or the component is too large, do no harm when the variables
      left tied can be swapped: the local numbering then picks among equals. */
  lemma LeftoverTiesMeet(f: Formula, show: Option<ShowMask>, g: Formula, show': Option<ShowMask>,
                         vars: seq<nat>, clauses: seq<nat>, work: nat)
    requires WellFormed(f) && WellFormed(g) && f.numVars == g.numVars
    requires RenamedCopy(FormulaPairs(f), FormulaPairs(g), f.numVars, vars, clauses)
    requires ShownAlike(show, show', f.numVars, vars) && BreaksSymmetricTies(f.numVars, FormulaPairs(f), show, work)
    requires AllSwap(FormulaPairs(f), show, LeftColours(f.numVars, FormulaPairs(f), show, work))
    ensures FormUnder(f, show, RefinedOrderOf(f.numVars, FormulaPairs(f), show, work)).key
         == FormUnder(g, show', RefinedOrderOf(g.numVars, FormulaPairs(g), show', work)).key
  {
    hide RefinedOrderOf, LeftColours, FormulaPairs, BreaksSymmetricTies, AllSwap, FormUnder, RenamedCopy, ShownAlike;
    var n, cls, cls' := f.numVars, FormulaPairs(f), FormulaPairs(g);
    var order, order' := RefinedOrderOf(n, cls, show, work), RefinedOrderOf(n, cls', show', work);
    var cols, cols' := LeftColours(n, cls, show, work), LeftColours(n, cls', show', work);
    var vars1, clauses1 := LeftColoursCarried(n, cls, cls', show, show', vars, clauses, work);
    var vars2, clauses2 := LineUp(cls, cls', show, show', cols, cols', vars1, clauses1, order, order', n);
    assert order' == Compose(order, vars2);
    SameKey(f, show, g, show', vars2, clauses2, order);
  }

  /** Tied by the first refinement, or in a component too large to refine. */
  ghost predicate TiedAtFirst(n: nat, cls: Adjacency, show: Option<ShowMask>, work: nat, u: nat, v: nat) {
    if n + |cls| > MAX_REFINED_SIZE then u < n && v < n && u != v
    else Tied(FirstRefinement(n, cls, show, work).colours.vars, u, v)
  }

  /** Ties only get fewer. */
  lemma TiedFromFirst(n: nat, cls: Adjacency, show: Option<ShowMask>, work: nat, u: nat, v: nat)
    requires Tied(LeftColours(n, cls, show, work), u, v)
    ensures TiedAtFirst(n, cls, show, work, u, v)
  {
    hide FirstRefinement, IndividualiseFrom;
    var r := FirstRefinement(n, cls, show, work);
    if n + |cls| <= MAX_REFINED_SIZE && r.complete && n + |cls| <= MAX_INDIVIDUALISED_SIZE {
      FirstShaped(n, cls, show, work);
      IndividualiseNeverMerges(Occurrences(n, cls), cls, r.colours, r.workLeft);
    }
  }

  /** Copies of a formula whose tied variables can be swapped meet, whatever the work limit and the size. */
  lemma SwappableCopiesMeet(f: Formula, show: Option<ShowMask>, g: Formula, show': Option<ShowMask>,
                            vars: seq<nat>, clauses: seq<nat>, work: nat)
    requires WellFormed(f) && WellFormed(g) && f.numVars == g.numVars
    requires RenamedCopy(FormulaPairs(f), FormulaPairs(g), f.numVars, vars, clauses)
    requires ShownAlike(show, show', f.numVars, vars)
    requires forall u: nat, v: nat :: TiedAtFirst(f.numVars, FormulaPairs(f), show, work, u, v)
               ==> Swappable(f.numVars, FormulaPairs(f), show, u, v)
    ensures FormUnder(f, show, RefinedOrderOf(f.numVars, FormulaPairs(f), show, work)).key
         == FormUnder(g, show', RefinedOrderOf(g.numVars, FormulaPairs(g), show', work)).key
  {
    hide RefinedOrderOf, FirstRefinement, LeftColours, FormulaPairs, TiesSymmetric, Swappable, SwapKeeps, FormUnder;
    var n, cls := f.numVars, FormulaPairs(f);
    var r := FirstRefinement(n, cls, show, work);
    forall u: nat, v: nat | Tied(LeftColours(n, cls, show, work), u, v) ensures Swappable(n, cls, show, u, v) {
      TiedFromFirst(n, cls, show, work, u, v);
    }
    if n + |cls| <= MAX_INDIVIDUALISED_SIZE {
      forall u: nat, v: nat | Tied(r.colours.vars, u, v) ensures SwapKeeps(Occurrences(n, cls), cls, r.colours, u, v) {
        assert TiedAtFirst(n, cls, show, work, u, v);
        SwappableKeeps(n, cls, show, work, u, v);
      }
      FirstShaped(n, cls, show, work);
      SwapsAreSymmetric(Occurrences(n, cls), cls, r.colours, r.workLeft);
    }
    LeftoverTiesMeet(f, show, g, show', vars, clauses, work);
  }
}
