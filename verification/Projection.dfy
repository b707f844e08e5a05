/** What may be done to a formula without changing its shown part: hidden variables eliminated, or tested for
    being determined by the shown ones. */
module Projection {
  import opened Wrappers
  import opened Cnf
  import opened Sequences
  import opened Ordering
  import opened Counting
  import opened ShowSets
  import opened Elimination
  import opened DualCnf
  import Bve

  const U32_MAX: nat := 0xFFFF_FFFF

  datatype ProjectionError =
    | BadConflictLimit
    | ZeroTimeBudget
    | ShowOutOfRange(v: VarId)
    | HiddenOutOfRange(v: VarId)
    | ShownAndHidden(v: VarId)

  method RequireShowWithin(f: Formula, show: ShowSet) returns (r: Result<(), ProjectionError>)
    ensures r.Ok? <==> forall v :: v in show ==> v <= f.numVars
    ensures r.Err? ==> r.error.ShowOutOfRange? && r.error.v in show && r.error.v > f.numVars
  {
    for k := 0 to |show|
      invariant forall v :: v in show[..k] ==> v <= f.numVars
    {
      assert show[k] in show && show[..k + 1] == show[..k] + [show[k]];
      if show[k] > f.numVars { return Err(ShowOutOfRange(show[k])); }
    }
    assert show[..|show|] == show;
    return Ok(());
  }

  /** Refused exactly when the set reaches past the formula; otherwise an assignment of the shown
      variables extends to a model of the result exactly when it extends to one of the formula. */
  method EliminateHidden(f: Formula, show: ShowSet) returns (r: Result<Formula, ProjectionError>)
    requires WellFormed(f)
    ensures r.Ok? <==> forall v :: v in show ==> v <= f.numVars
    ensures r.Ok? ==> WellFormed(r.value) && r.value.numVars == f.numVars && |r.value.clauses| <= |f.clauses|
    ensures r.Ok? ==> forall shown ::
              Extends(r.value.clauses, ToSet(show), shown) <==> Extends(f.clauses, ToSet(show), shown)
    ensures r.Ok? ==> forall v: VarId :: v !in show && Occurs(r.value.clauses, v) ==> Blocked(r.value.clauses, v)
  {
    var within := RequireShowWithin(f, show);
    if within.Err? { return Err(within.error); }
    var mask := Mask(show, f.numVars);
    var clock := new Bve.Clock(_ => false);
    var g, gone := Bve.BveProjectUntil(f, mask, clock);
    forall shown ensures Extends(g.clauses, ToSet(show), shown) <==> Extends(f.clauses, ToSet(show), shown) {
      ProjectionKeepsShown(f.clauses, g.clauses, gone, ToSet(show), shown);
    }
    forall v: VarId | v !in show && Occurs(g.clauses, v) ensures Blocked(g.clauses, v) {
      assert v <= g.numVars by { var c :| c in g.clauses && Mentions(c, v); assert InRange(c, g.numVars); }
      assert !IsShow(mask, v);
    }
    return Ok(g);
  }

  // ---- definability ----

  ghost predicate AgreeOn(a: Assignment, b: Assignment, show: seq<VarId>) {
    forall v :: v in show ==> Agree(a, b, v)
  }

  /** Two models that agree on every shown variable and differ on `x`. */
  ghost predicate Counterexample(cs: seq<Clause>, show: seq<VarId>, x: VarId, a: Assignment, b: Assignment) {
    Satisfies(a, cs) && Satisfies(b, cs) && AgreeOn(a, b, show) && !Agree(a, b, x)
  }

  /** The shown variables determine `x`. */
  ghost predicate DefinedBy(cs: seq<Clause>, show: seq<VarId>, x: VarId) {
    forall a, b :: !Counterexample(cs, show, x, a, b)
  }

  /** The variables the clauses mention, as the dual formula's candidates. */
  ghost predicate AppearingVars(cs: seq<Clause>, cands: seq<nat>) {
    Increasing(cands) && forall v: VarId :: Idx(v) in cands <==> Occurs(cs, v)
  }

  /** The assumptions of one probe: `x` true in one half, false in the other, the listed shown variables tied. */
  function Query(layout: DualLayout, cands: seq<nat>, shown: seq<nat>, x: nat): seq<Literal>
    requires Candidates(layout, cands) && x in cands && forall i :: 0 <= i < |shown| ==> shown[i] in cands
  {
    [Literal(FromIdx(x), true), Literal(layout.Primed(IndexOf(cands, x)), false)] + Indicators(layout, cands, shown)
  }

  function Indicators(layout: DualLayout, cands: seq<nat>, shown: seq<nat>): (r: seq<Literal>)
    requires Candidates(layout, cands) && forall i :: 0 <= i < |shown| ==> shown[i] in cands
    ensures |r| == |shown| && forall i :: 0 <= i < |r| ==>
              r[i] == Literal(layout.Indicator(IndexOf(cands, shown[i])), true)
  {
    seq(|shown|, i requires 0 <= i < |shown| => Literal(layout.Indicator(IndexOf(cands, shown[i])), true))
  }

  ghost predicate AllTrue(d: Assignment, lits: seq<Literal>) {
    forall i :: 0 <= i < |lits| ==> LitTrue(d, lits[i])
  }

  ghost predicate Answerable(cs: seq<Clause>, lits: seq<Literal>) {
    exists d :: Satisfies(d, cs) && AllTrue(d, lits)
  }

  /** The shown variables that appear, as candidates. */
  ghost predicate AppearingShow(cs: seq<Clause>, show: seq<VarId>, shown: seq<nat>) {
    && (forall i :: 0 <= i < |shown| ==>
        shown[i] < MAX_VAR && FromIdx(shown[i]) in show && Occurs(cs, FromIdx(shown[i])))
    && (forall v :: v in show && Occurs(cs, v) ==> Idx(v) in shown)
  }

  ghost predicate ProbeSetup(f: Formula, show: seq<VarId>, layout: DualLayout, cands: seq<nat>, shown: seq<nat>) {
    && WellFormed(f) && layout.numVars == f.numVars && Candidates(layout, cands)
    && AppearingVars(f.clauses, cands) && AppearingShow(f.clauses, show, shown)
    && (forall i :: 0 <= i < |shown| ==> shown[i] in cands)
    && forall v :: v in show ==> v <= f.numVars
  }

  /** What the query's assumptions say. */
  lemma QueryMeaning(layout: DualLayout, cands: seq<nat>, shown: seq<nat>, x: nat, d: Assignment)
    requires Candidates(layout, cands) && x in cands && forall i :: 0 <= i < |shown| ==> shown[i] in cands
    ensures AllTrue(d, Query(layout, cands, shown, x)) <==>
              && FromIdx(x) in d && layout.Primed(IndexOf(cands, x)) !in d
              && forall i :: 0 <= i < |shown| ==> layout.Indicator(IndexOf(cands, shown[i])) in d
  {
    var q, rest := Query(layout, cands, shown, x), Indicators(layout, cands, shown);
    assert forall i :: 0 <= i < |rest| ==> q[i + 2] == rest[i];
    if AllTrue(d, q) {
      assert LitTrue(d, q[0]) && LitTrue(d, q[1]);
      forall i | 0 <= i < |shown| ensures layout.Indicator(IndexOf(cands, shown[i])) in d {
        assert LitTrue(d, q[i + 2]);
        assert q[i + 2] == rest[i];
      }
    }
  }

  /** The two halves of a dual model differ or agree at a candidate as the candidate and its copy do. */
  lemma HalvesAt(layout: DualLayout, cands: seq<nat>, d: Assignment, v: VarId)
    requires Candidates(layout, cands) && v <= layout.numVars
    ensures Idx(v) in cands ==> (v in SecondOf(layout, cands, d) <==> layout.Primed(IndexOf(cands, Idx(v))) in d)
    ensures Idx(v) !in cands ==> (v in SecondOf(layout, cands, d) <==> v in d)
  {
    assert v in AllVars(layout.numVars);
  }

  lemma TiedAgree(layout: DualLayout, cands: seq<nat>, d: Assignment, v: VarId)
    requires Candidates(layout, cands) && v <= layout.numVars && Idx(v) in cands
    requires Tied(layout, cands, d, IndexOf(cands, Idx(v))) && layout.Indicator(IndexOf(cands, Idx(v))) in d
    ensures Agree(d, SecondOf(layout, cands, d), v)
  {
    hide SecondOf, Candidates;
    HalvesAt(layout, cands, d, v);
    assert cands[IndexOf(cands, Idx(v))] == Idx(v) && FromIdx(Idx(v)) == v;
  }

  lemma UntouchedAgree(layout: DualLayout, cands: seq<nat>, d: Assignment, v: VarId)
    requires Candidates(layout, cands) && v <= layout.numVars && Idx(v) !in cands
    ensures Agree(d, SecondOf(layout, cands, d), v)
  {
    hide SecondOf, Candidates;
    HalvesAt(layout, cands, d, v);
  }

  /** The two halves agree on a shown variable: it is tied if it appears and untouched if it does not. */
  lemma HalvesAgree(f: Formula, show: seq<VarId>, layout: DualLayout, cands: seq<nat>, shown: seq<nat>, d: Assignment,
                    v: VarId)
    requires ProbeSetup(f, show, layout, cands, shown) && v in show
    requires forall i :: 0 <= i < |cands| ==> Tied(layout, cands, d, i)
    requires forall i :: 0 <= i < |shown| ==> layout.Indicator(IndexOf(cands, shown[i])) in d
    ensures Agree(d, SecondOf(layout, cands, d), v)
  {
    hide SecondOf, Occurs, AppearingVars, Tied, Agree, Candidates;
    if Occurs(f.clauses, v) {
      var i: nat :| i < |shown| && shown[i] == Idx(v);
      TiedAgree(layout, cands, d, v);
    } else {
      NotWritten(f, cands, v);
      UntouchedAgree(layout, cands, d, v);
    }
  }

  lemma NotWritten(f: Formula, cands: seq<nat>, v: VarId)
    requires AppearingVars(f.clauses, cands) && !Occurs(f.clauses, v)
    ensures Idx(v) !in cands
  {
    assert FromIdx(Idx(v)) == v;
  }

  /** A dual model of the query splits into a counterexample, unmentioned shown variables included. */
  lemma AnswerIsCounterexample(f: Formula, show: seq<VarId>, layout: DualLayout, cands: seq<nat>, shown: seq<nat>,
                               x: nat, d: Assignment)
    requires ProbeSetup(f, show, layout, cands, shown) && x in cands
    requires Satisfies(d, DualClauses(layout, cands, f.clauses)) && AllTrue(d, Query(layout, cands, shown, x))
    ensures Counterexample(f.clauses, show, FromIdx(x), d, SecondOf(layout, cands, d))
  {
    hide DualClauses, Query, SecondOf, Satisfies, AllTrue, Tied, Agree, AppearingVars, AppearingShow;
    DualMeaning(layout, cands, d, f.clauses);
    QueryMeaning(layout, cands, shown, x, d);
    assert cands[IndexOf(cands, x)] == x;
    HalvesAt(layout, cands, d, FromIdx(x));
    forall v | v in show ensures Agree(d, SecondOf(layout, cands, d), v) {
      HalvesAgree(f, show, layout, cands, shown, d, v);
    }
    OppositeAt(d, SecondOf(layout, cands, d), FromIdx(x));
  }

  lemma OppositeAt(a: Assignment, b: Assignment, v: VarId)
    requires v in a && v !in b
    ensures !Agree(a, b, v)
  {
  }

  /** `b` on the mentioned variables and `a` on the others. */
  ghost function Merge(a: Assignment, b: Assignment, cands: seq<nat>): Assignment {
    (set v | v in b && Idx(v) in cands) + (set v | v in a && Idx(v) !in cands)
  }

  lemma MergeSatisfies(a: Assignment, b: Assignment, cands: seq<nat>, cs: seq<Clause>)
    requires AppearingVars(cs, cands) && Satisfies(b, cs)
    ensures Satisfies(Merge(a, b, cands), cs)
  {
    forall c | c in cs ensures ClauseTrue(Merge(a, b, cands), c) {
      forall l | l in c ensures l.v in Merge(a, b, cands) <==> l.v in b {
        assert l == Literal(l.v, l.positive);
        assert Mentions(c, l.v);
        assert Occurs(cs, l.v);
      }
      ClauseDependsOnItsVars(Merge(a, b, cands), b, c);
    }
  }

  /** A counterexample gives a dual model of the query, although only mentioned shown variables are tied. */
  lemma CounterexampleIsAnswer(f: Formula, show: seq<VarId>, layout: DualLayout, cands: seq<nat>, shown: seq<nat>,
                               x: nat, a: Assignment, b: Assignment)
    requires ProbeSetup(f, show, layout, cands, shown) && x in cands
    requires Counterexample(f.clauses, show, FromIdx(x), a, b) && FromIdx(x) in a
    ensures Answerable(DualClauses(layout, cands, f.clauses), Query(layout, cands, shown, x))
  {
    hide DualClauses, Pair, Query;
    var b' := Merge(a, b, cands);
    MergeSatisfies(a, b, cands, f.clauses);
    PairIsDual(layout, cands, a, b', f.clauses);
    PairMembers(layout, cands, a, b', IndexOf(cands, x), FromIdx(x));
    forall i | 0 <= i < |shown| ensures layout.Indicator(IndexOf(cands, shown[i])) in Pair(layout, cands, a, b') {
      PairMembers(layout, cands, a, b', IndexOf(cands, shown[i]), FromIdx(shown[i]));
      assert Agree(a, b, FromIdx(shown[i]));
    }
    QueryMeaning(layout, cands, shown, x, Pair(layout, cands, a, b'));
  }

  /** A probe is refuted exactly when the shown variables determine the variable. */
  lemma ProbeMeaning(f: Formula, show: seq<VarId>, layout: DualLayout, cands: seq<nat>, shown: seq<nat>, x: nat)
    requires ProbeSetup(f, show, layout, cands, shown) && x in cands
    ensures Answerable(DualClauses(layout, cands, f.clauses), Query(layout, cands, shown, x))
       <==> !DefinedBy(f.clauses, show, FromIdx(x))
  {
    hide DualClauses;
    if Answerable(DualClauses(layout, cands, f.clauses), Query(layout, cands, shown, x)) {
      var d :| Satisfies(d, DualClauses(layout, cands, f.clauses)) && AllTrue(d, Query(layout, cands, shown, x));
      AnswerIsCounterexample(f, show, layout, cands, shown, x, d);
    }
    if !DefinedBy(f.clauses, show, FromIdx(x)) {
      var a, b :| Counterexample(f.clauses, show, FromIdx(x), a, b);
      if FromIdx(x) in a {
        CounterexampleIsAnswer(f, show, layout, cands, shown, x, a, b);
      } else {
        assert Counterexample(f.clauses, show, FromIdx(x), b, a);
        CounterexampleIsAnswer(f, show, layout, cands, shown, x, b, a);
      }
    }
  }

  /** The dual formula alone has a model exactly when the formula does. */
  lemma BaseMeaning(f: Formula, layout: DualLayout, cands: seq<nat>)
    requires WellFormed(f) && layout.numVars == f.numVars && Candidates(layout, cands)
    ensures Answerable(DualClauses(layout, cands, f.clauses), []) <==> exists a :: Satisfies(a, f.clauses)
  {
    hide DualClauses;
    if Answerable(DualClauses(layout, cands, f.clauses), []) {
      var d :| Satisfies(d, DualClauses(layout, cands, f.clauses)) && AllTrue(d, []);
      DualMeaning(layout, cands, d, f.clauses);
    }
    if a :| Satisfies(a, f.clauses) {
      PairIsDual(layout, cands, a, a, f.clauses);
      assert AllTrue(Pair(layout, cands, a, a), []);
    }
  }

  /** A variable no clause mentions and no set shows is free as soon as the formula has a model. */
  lemma AbsentIsFree(cs: seq<Clause>, show: seq<VarId>, x: VarId)
    requires !Occurs(cs, x) && x !in show
    ensures (exists a :: Satisfies(a, cs)) <==> !DefinedBy(cs, show, x)
  {
    if a :| Satisfies(a, cs) {
      var b := if x in a then a - {x} else a + {x};
      forall c | c in cs ensures ClauseTrue(b, c) {
        forall l | l in c ensures l.v in a <==> l.v in b {
          assert l == Literal(l.v, l.positive);
          assert Mentions(c, l.v);
        }
        ClauseDependsOnItsVars(a, b, c);
      }
      assert Counterexample(cs, show, x, a, b);
    }
  }

  // ---- the solver ----

  datatype Status = Unsatisfiable | Satisfiable | Unknown

  /** An incremental solver: clauses, the assumptions queued for the next call, and an answer per call. */
  class Solver {
    const answers: (nat, seq<Clause>, seq<Literal>) -> Status
    var clauses: seq<Clause>
    var assumed: seq<Literal>
    var calls: nat

    constructor (answers: (nat, seq<Clause>, seq<Literal>) -> Status, clauses: seq<Clause>)
      ensures this.answers == answers && this.clauses == clauses && assumed == [] && calls == 0
    {
      this.answers, this.clauses, assumed, calls := answers, clauses, [], 0;
    }

    method Assume(l: Literal)
      modifies this`assumed
      ensures assumed == old(assumed) + [l]
    {
      assumed := assumed + [l];
    }

    /** The answer under the queued assumptions, which it uses up. */
    method Solve() returns (status: Status)
      requires AnswersSoundly(answers)
      modifies this`assumed, this`calls
      ensures assumed == [] && calls == old(calls) + 1
      ensures status == answers(old(calls), clauses, old(assumed))
      ensures status.Unsatisfiable? ==> !Answerable(clauses, old(assumed))
      ensures status.Satisfiable? ==> Answerable(clauses, old(assumed))
    {
      status := answers(calls, clauses, assumed);
      calls, assumed := calls + 1, [];
    }
  }

  /** A refutation means no model, a model means one exists; giving up means nothing. */
  ghost predicate AnswersSoundly(answers: (nat, seq<Clause>, seq<Literal>) -> Status) {
    forall k, cs, lits ::
      && (answers(k, cs, lits).Unsatisfiable? ==> !Answerable(cs, lits))
      && (answers(k, cs, lits).Satisfiable? ==> Answerable(cs, lits))
  }

  /** Once the wall budget is spent it stays spent. */
  ghost predicate Steady(clock: Bve.Clock) {
    forall i: nat, j: nat :: i <= j && clock.answers(i) ==> clock.answers(j)
  }

  ghost predicate BudgetSpent(answers: nat -> bool, polls: nat) {
    exists k: nat :: k < polls && answers(k)
  }

  /** Some call from number `from` on and before number `to` on these clauses gave no answer. */
  ghost predicate GaveUpBetween(answers: (nat, seq<Clause>, seq<Literal>) -> Status, cs: seq<Clause>,
                                from: nat, to: nat) {
    exists k: nat, lits :: from <= k < to && answers(k, cs, lits).Unknown?
  }

  /** What excuses an open verdict: a poll that said stop, or a call that gave no answer. */
  ghost predicate Excused(stops: nat -> bool, poll: nat, polls: nat,
                          answers: (nat, seq<Clause>, seq<Literal>) -> Status, cs: seq<Clause>, call: nat, calls: nat) {
    Bve.StoppedBetween(stops, poll, polls) || GaveUpBetween(answers, cs, call, calls)
  }

  lemma ExcusedWider(stops: nat -> bool, poll: nat, polls: nat, poll0: nat, polls1: nat,
                     answers: (nat, seq<Clause>, seq<Literal>) -> Status, cs: seq<Clause>,
                     call: nat, calls: nat, call0: nat, calls1: nat)
    requires Excused(stops, poll, polls, answers, cs, call, calls)
    requires poll0 <= poll && polls <= polls1 && call0 <= call && calls <= calls1
    ensures Excused(stops, poll0, polls1, answers, cs, call0, calls1)
  {
  }

  /** One query under what is left of the budget; one not started leaves its assumptions queued. */
  method SolveWithLimits(solver: Solver, clock: Bve.Clock) returns (status: Status)
    requires AnswersSoundly(solver.answers)
    modifies solver`assumed, solver`calls, clock
    ensures clock.polls == old(clock.polls) + 1 && old(solver.calls) <= solver.calls <= old(solver.calls) + 1
    ensures status.Unknown? ==> Excused(clock.answers, old(clock.polls), clock.polls, solver.answers, solver.clauses,
                                        old(solver.calls), solver.calls)
    ensures status.Unsatisfiable? ==> !Answerable(solver.clauses, old(solver.assumed))
    ensures status.Satisfiable? ==> Answerable(solver.clauses, old(solver.assumed))
    ensures solver.assumed == [] || (status.Unknown? && BudgetSpent(clock.answers, clock.polls))
  {
    var spent := clock.Stopped();
    if spent { return Unknown; }
    status := solver.Solve();
  }
}
