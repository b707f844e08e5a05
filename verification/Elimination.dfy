/** The logic of eliminating a variable by resolution, on plain clause lists. */
module Elimination {
  import opened Cnf

  // ---- one elimination ----

  /** Every non-tautological resolvent of `cs` on `v`. */
  ghost function ResolventSet(cs: seq<Clause>, v: VarId): set<Clause> {
    set p, q | p in cs && q in cs && Literal(v, true) in p && Literal(v, false) in q && Resolve(p, q, v).Some?
      :: Resolve(p, q, v).value
  }

  /** The clauses that do not mention `v`, in order. */
  ghost function Keep(cs: seq<Clause>, v: VarId): (r: seq<Clause>)
    ensures forall c :: c in r <==> c in cs && !Mentions(c, v)
  {
    if cs == [] then []
    else Keep(cs[..|cs| - 1], v) + (if Mentions(cs[|cs| - 1], v) then [] else [cs[|cs| - 1]])
  }

  /** Some literal on another variable is true. */
  ghost predicate RestTrue(a: Assignment, c: Clause, v: VarId) {
    exists l :: l in c && l.v != v && LitTrue(a, l)
  }

  ghost predicate AllInRange(cs: seq<Clause>, n: nat) {
    forall c :: c in cs ==> InRange(c, n)
  }

  ghost predicate AllCanonical(cs: seq<Clause>) {
    forall c :: c in cs ==> Canonical(c)
  }

  /** A clause under a value of `v`: satisfied by its literal on `v`, or by the rest. */
  lemma ClauseUnderSet(a: Assignment, c: Clause, v: VarId, value: bool)
    ensures ClauseTrue(Set(a, v, value), c) <==> Literal(v, value) in c || RestTrue(a, c, v)
  {
    var b := Set(a, v, value);
    if ClauseTrue(b, c) {
      var l :| l in c && LitTrue(b, l);
      if l.v != v { assert LitTrue(a, l); }
    }
    if Literal(v, value) in c { assert LitTrue(b, Literal(v, value)); }
    if RestTrue(a, c, v) {
      var l :| l in c && l.v != v && LitTrue(a, l);
      assert LitTrue(b, l);
    }
  }

  /** The resolvent says exactly that one of the two rests is true; a tautology always is. */
  lemma ResolventMeaning(a: Assignment, p: Clause, q: Clause, v: VarId)
    ensures (Resolve(p, q, v).Some? ==> ClauseTrue(a, Resolve(p, q, v).value))
       <==> RestTrue(a, p, v) || RestTrue(a, q, v)
  {
    var both := Without(p, v) + Without(q, v);
    NormalizeKeepsModels(a, both);
    if ClauseTrue(a, both) {
      var l :| l in both && LitTrue(a, l);
      assert l in Without(p, v) || l in Without(q, v);
    }
    if RestTrue(a, p, v) {
      var l :| l in p && l.v != v && LitTrue(a, l);
      assert l in both;
    }
    if RestTrue(a, q, v) {
      var l :| l in q && l.v != v && LitTrue(a, l);
      assert l in both;
    }
  }

  /** `r` holds the clauses of `cs` without `v` and all its resolvents on `v`, and nothing else. */
  ghost predicate Eliminates(cs: seq<Clause>, r: seq<Clause>, v: VarId) {
    forall c :: c in r <==> (c in cs && !Mentions(c, v)) || c in ResolventSet(cs, v)
  }

  lemma SatisfiedByValue(a: Assignment, cs: seq<Clause>, r: seq<Clause>, v: VarId, value: bool)
    requires AllCanonical(cs) && Eliminates(cs, r, v) && Satisfies(Set(a, v, value), cs)
    ensures Satisfies(a, r)
  {
    forall c | c in r ensures ClauseTrue(a, c) {
      if c in cs && !Mentions(c, v) {
        ClauseUnderSet(a, c, v, value);
        var l :| l in c && l.v != v && LitTrue(a, l);
      } else {
        var p, q :| p in cs && q in cs && Literal(v, true) in p && Literal(v, false) in q
          && Resolve(p, q, v).Some? && Resolve(p, q, v).value == c;
        ResolventMeaning(a, p, q, v);
        ClauseUnderSet(a, p, v, value);
        ClauseUnderSet(a, q, v, value);
        CanonicalNotComplementary(p);
        CanonicalNotComplementary(q);
        assert Literal(v, true).Negated() == Literal(v, false) && Literal(v, false).Negated() == Literal(v, true);
      }
    }
  }

  lemma ValueFromElimination(a: Assignment, cs: seq<Clause>, r: seq<Clause>, v: VarId) returns (value: bool)
    requires Eliminates(cs, r, v) && Satisfies(a, r)
    ensures Satisfies(Set(a, v, value), cs)
  {
    value := exists p :: p in cs && Literal(v, true) in p && !RestTrue(a, p, v);
    forall c | c in cs ensures ClauseTrue(Set(a, v, value), c) {
      ClauseUnderSet(a, c, v, value);
      if !Mentions(c, v) {
        assert c in r;
        var l :| l in c && LitTrue(a, l);
        assert l.v != v by { assert l == Literal(l.v, l.positive); }
      } else if value && Literal(v, true) !in c {
        var p :| p in cs && Literal(v, true) in p && !RestTrue(a, p, v);
        ResolventMeaning(a, p, c, v);
        if Resolve(p, c, v).Some? {
          assert Resolve(p, c, v).value in ResolventSet(cs, v);
        }
      }
    }
  }

  /** Resolving `v` away is exactly existential quantification of `v`. */
  lemma EliminationExact(a: Assignment, cs: seq<Clause>, r: seq<Clause>, v: VarId)
    requires AllCanonical(cs) && Eliminates(cs, r, v)
    ensures Satisfies(a, r) <==> Satisfies(Set(a, v, true), cs) || Satisfies(Set(a, v, false), cs)
  {
    if Satisfies(a, r) {
      var value := ValueFromElimination(a, cs, r, v);
    }
    if Satisfies(Set(a, v, true), cs) { SatisfiedByValue(a, cs, r, v, true); }
    if Satisfies(Set(a, v, false), cs) { SatisfiedByValue(a, cs, r, v, false); }
  }

  // ---- a run of eliminations ----

  /** `g` is `f` with the variables of `gone` existentially quantified away. */
  ghost predicate IsProjection(f: seq<Clause>, g: seq<Clause>, gone: set<VarId>) {
    forall a: Assignment ::
      Satisfies(a, g) <==> exists b: Assignment :: AgreeOff(a, b, gone) && Satisfies(b, f)
  }

  lemma ProjectionOfNothing(f: seq<Clause>, g: seq<Clause>)
    requires forall a: Assignment :: Satisfies(a, g) == Satisfies(a, f)
    ensures IsProjection(f, g, {})
  {
    forall a: Assignment
      ensures Satisfies(a, g) <==> exists b: Assignment :: AgreeOff(a, b, {}) && Satisfies(b, f)
    {
      if Satisfies(a, g) { assert AgreeOff(a, a, {}) && Satisfies(a, f); }
      if exists b: Assignment :: AgreeOff(a, b, {}) && Satisfies(b, f) {
        var b: Assignment :| AgreeOff(a, b, {}) && Satisfies(b, f);
        assert a - {} == a && b - {} == b;
      }
    }
  }

  lemma ProjectionStep(f: seq<Clause>, g: seq<Clause>, r: seq<Clause>, gone: set<VarId>, v: VarId)
    requires IsProjection(f, g, gone)
    requires AllCanonical(g) && Eliminates(g, r, v)
    ensures IsProjection(f, r, gone + {v})
  {
    forall a: Assignment
      ensures Satisfies(a, r) <==> exists b: Assignment :: AgreeOff(a, b, gone + {v}) && Satisfies(b, f)
    {
      EliminationExact(a, g, r, v);
      if Satisfies(a, r) {
        var value := ValueFromElimination(a, g, r, v);
        var b: Assignment :| AgreeOff(Set(a, v, value), b, gone) && Satisfies(b, f);
        AgreeOffSet(a, b, gone, v, value);
      }
      if exists b: Assignment :: AgreeOff(a, b, gone + {v}) && Satisfies(b, f) {
        var b: Assignment :| AgreeOff(a, b, gone + {v}) && Satisfies(b, f);
        SetAgreesOff(a, b, gone, v);
        assert Satisfies(Set(a, v, v in b), g);
      }
    }
  }

  lemma AgreeOffSet(a: Assignment, b: Assignment, gone: set<VarId>, v: VarId, value: bool)
    requires AgreeOff(Set(a, v, value), b, gone)
    ensures AgreeOff(a, b, gone + {v})
  {
    forall u ensures u in a - (gone + {v}) <==> u in b - (gone + {v}) {
      assert u in Set(a, v, value) - gone <==> u in b - gone;
    }
  }

  lemma SetAgreesOff(a: Assignment, b: Assignment, gone: set<VarId>, v: VarId)
    requires AgreeOff(a, b, gone + {v})
    ensures AgreeOff(Set(a, v, v in b), b, gone)
  {
    forall u ensures u in Set(a, v, v in b) - gone <==> u in b - gone {
      assert u in a - (gone + {v}) <==> u in b - (gone + {v});
    }
  }

  /** Some model of `f` takes exactly the values `shown` on the show variables. */
  ghost predicate Extends(f: seq<Clause>, show: set<VarId>, shown: set<VarId>) {
    exists a: Assignment :: a * show == shown && Satisfies(a, f)
  }

  /** Quantifying away unshown variables only keeps the projected models. */
  lemma ProjectionKeepsShown(f: seq<Clause>, g: seq<Clause>, gone: set<VarId>, show: set<VarId>, shown: set<VarId>)
    requires IsProjection(f, g, gone) && gone !! show
    ensures Extends(g, show, shown) <==> Extends(f, show, shown)
  {
    if Extends(g, show, shown) {
      var a: Assignment :| a * show == shown && Satisfies(a, g);
      var b: Assignment :| AgreeOff(a, b, gone) && Satisfies(b, f);
      SameShown(a, b, gone, show);
    }
    if Extends(f, show, shown) {
      var b: Assignment :| b * show == shown && Satisfies(b, f);
      assert AgreeOff(b, b, gone);
      assert Satisfies(b, g);
    }
  }

  lemma SameShown(a: Assignment, b: Assignment, gone: set<VarId>, show: set<VarId>)
    requires AgreeOff(a, b, gone) && gone !! show
    ensures a * show == b * show
  {
    forall u ensures u in a * show <==> u in b * show {
      assert u in a - gone <==> u in b - gone;
    }
  }

  // ---- the bound, and the fixpoint ----

  /** How many clauses of the list hold the literal. */
  ghost function CountWith(cs: seq<Clause>, l: Literal): nat {
    if cs == [] then 0 else CountWith(cs[..|cs| - 1], l) + (if l in cs[|cs| - 1] then 1 else 0)
  }

  ghost predicate Occurs(cs: seq<Clause>, v: VarId) {
    exists c :: c in cs && Mentions(c, v)
  }

  /** The clauses `v` occurs in. */
  ghost function Degree(cs: seq<Clause>, v: VarId): nat {
    CountWith(cs, Literal(v, true)) + CountWith(cs, Literal(v, false))
  }

  /** `v` cannot go without growth: both polarities occur, and there are strictly more distinct
      non-tautological resolvents than clauses `v` occurs in. */
  ghost predicate Blocked(cs: seq<Clause>, v: VarId) {
    && CountWith(cs, Literal(v, true)) > 0
    && CountWith(cs, Literal(v, false)) > 0
    && |ResolventSet(cs, v)| > Degree(cs, v)
  }

  lemma {:induction false} CountWithPositive(cs: seq<Clause>, l: Literal)
    ensures CountWith(cs, l) > 0 <==> exists c :: c in cs && l in c
  {
    if cs != [] {
      CountWithPositive(cs[..|cs| - 1], l);
      assert cs == cs[..|cs| - 1] + [cs[|cs| - 1]];
    }
  }

  lemma OccursByDegree(cs: seq<Clause>, v: VarId)
    ensures Occurs(cs, v) <==> Degree(cs, v) > 0
  {
    CountWithPositive(cs, Literal(v, true));
    CountWithPositive(cs, Literal(v, false));
    if Occurs(cs, v) { var c :| c in cs && Mentions(c, v); }
    if Degree(cs, v) > 0 {
      var s: bool :| CountWith(cs, Literal(v, s)) > 0;
      var c :| c in cs && Literal(v, s) in c;
      assert Mentions(c, v);
    }
  }

  lemma {:induction false} CountWithConcat(a: seq<Clause>, b: seq<Clause>, l: Literal)
    ensures CountWith(a + b, l) == CountWith(a, l) + CountWith(b, l)
  {
    if b == [] {
      assert a + b == a;
    } else {
      CountWithConcat(a, b[..|b| - 1], l);
      assert (a + b)[..|a + b| - 1] == a + b[..|b| - 1];
    }
  }

  /** Dropping the clauses of `v` leaves the counts of a literal that shares no clause with `v`. */
  lemma {:induction false} CountWithKeep(cs: seq<Clause>, v: VarId, l: Literal)
    requires forall c :: c in cs && Mentions(c, v) ==> l !in c
    ensures CountWith(Keep(cs, v), l) == CountWith(cs, l)
  {
    if cs != [] {
      var front, last := cs[..|cs| - 1], cs[|cs| - 1];
      CountWithKeep(front, v, l);
      var tail: seq<Clause> := if Mentions(last, v) then [] else [last];
      CountWithConcat(Keep(front, v), tail, l);
      assert Keep(cs, v) == Keep(front, v) + tail;
      assert tail != [] ==> tail[..0] == [];
    }
  }

  /** Dropping the clauses of `v` removes as many clauses as `v` occurs in. */
  lemma {:induction false} KeepLength(cs: seq<Clause>, v: VarId)
    requires AllCanonical(cs)
    ensures |Keep(cs, v)| + Degree(cs, v) == |cs|
  {
    if cs != [] {
      var front, last := cs[..|cs| - 1], cs[|cs| - 1];
      KeepLength(front, v);
      CanonicalNotComplementary(last);
      assert Literal(v, true).Negated() == Literal(v, false);
    }
  }

  /** A variable in no clause that changed is blocked exactly when it was. */
  lemma BlockedUnchanged(cs: seq<Clause>, v: VarId, resolvents: seq<Clause>, w: VarId)
    requires forall c :: c in cs && Mentions(c, v) ==> !Mentions(c, w)
    requires forall c :: c in resolvents ==> !Mentions(c, w)
    ensures Blocked(Keep(cs, v) + resolvents, w) == Blocked(cs, w)
    ensures Occurs(Keep(cs, v) + resolvents, w) == Occurs(cs, w)
  {
    var r := Keep(cs, v) + resolvents;
    forall s: bool ensures CountWith(r, Literal(w, s)) == CountWith(cs, Literal(w, s)) {
      CountWithConcat(Keep(cs, v), resolvents, Literal(w, s));
      CountWithKeep(cs, v, Literal(w, s));
      CountWithPositive(resolvents, Literal(w, s));
    }
    assert forall c :: Mentions(c, w) ==> (c in r <==> c in cs);
    assert ResolventSet(r, w) == ResolventSet(cs, w);
    if Occurs(r, w) { var c :| c in r && Mentions(c, w); assert c in cs; }
    if Occurs(cs, w) { var c :| c in cs && Mentions(c, w); assert c in r; }
  }

  lemma ResolventInRange(cs: seq<Clause>, v: VarId, r: Clause, n: nat)
    requires r in ResolventSet(cs, v) && AllInRange(cs, n)
    ensures InRange(r, n)
  {
    forall l | l in r ensures l.v <= n {
      assert l == Literal(l.v, l.positive);
      assert Mentions(r, l.v);
      ResolventVars(cs, v, r);
      var c :| c in cs && Mentions(c, l.v);
    }
  }

  /** No resolvent on `v` mentions `v`, and each of its variables occurred before. */
  lemma ResolventVars(cs: seq<Clause>, v: VarId, r: Clause)
    requires r in ResolventSet(cs, v)
    ensures !Mentions(r, v) && Canonical(r)
    ensures forall w :: Mentions(r, w) ==> Occurs(cs, w)
  {
    var p, q :| p in cs && q in cs && Literal(v, true) in p && Literal(v, false) in q
      && Resolve(p, q, v).Some? && Resolve(p, q, v).value == r;
    NormalizeMeaning(Without(p, v) + Without(q, v));
    forall l | l in r ensures (l in p || l in q) && l.v != v {
      assert l in Without(p, v) + Without(q, v);
    }
    forall w | Mentions(r, w) ensures Occurs(cs, w) {
      var s: bool :| Literal(w, s) in r;
      assert Mentions(p, w) || Mentions(q, w);
    }
  }
}
