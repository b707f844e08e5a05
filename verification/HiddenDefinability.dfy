/** Sorting the requested hidden variables into those the shown ones determine, those they do not, and
    those the budget left open. */
module HiddenDefinability {
  import opened Wrappers
  import opened Cnf
  import opened Sequences
  import opened Ordering
  import opened ShowSets
  import opened Elimination
  import opened DualCnf
  import opened Projection
  import Bve

  datatype Config = Config(maxConflictsPerVar: int, timeBudget: Option<nat>)

  datatype HiddenDefinability = HiddenDefinability(defined: seq<VarId>, notDefined: seq<VarId>, unknown: seq<VarId>)

  // ---- the request ----

  /** The list without repeats, each variable where it first stands. */
  function FirstOccurrences(vars: seq<VarId>): seq<VarId> {
    if vars == [] then []
    else
      var front, last := FirstOccurrences(vars[..|vars| - 1]), vars[|vars| - 1];
      if last in front then front else front + [last]
  }

  lemma {:induction false} FirstOccurrencesMeaning(vars: seq<VarId>)
    ensures Distinct(FirstOccurrences(vars)) && forall v :: v in FirstOccurrences(vars) <==> v in vars
  {
    if vars != [] {
      FirstOccurrencesMeaning(vars[..|vars| - 1]);
      assert vars == vars[..|vars| - 1] + [vars[|vars| - 1]];
    }
  }

  ghost predicate AllWithin(vars: seq<VarId>, n: nat) { forall v :: v in vars ==> v <= n }

  lemma WithinAppend(vars: seq<VarId>, v: VarId, n: nat)
    ensures AllWithin(vars + [v], n) <==> AllWithin(vars, n) && v <= n
  {
    assert v in vars + [v];
    assert forall w :: w in vars + [v] <==> w in vars || w == v;
  }

  /** The repeats dropped by a mark per variable; a variable past the formula is passed through unmarked. */
  method DropRepeats(vars: seq<VarId>, n: nat) returns (list: seq<VarId>)
    ensures AllWithin(list, n) <==> AllWithin(vars, n)
    ensures AllWithin(vars, n) ==> list == FirstOccurrences(vars)
  {
    var seen := seq(n, _ => false);
    list := [];
    for k := 0 to |vars|
      invariant |seen| == n && forall v: VarId :: v <= n ==> (seen[Idx(v)] <==> v in list)
      invariant AllWithin(list, n) <==> AllWithin(vars[..k], n)
      invariant AllWithin(vars[..k], n) ==> list == FirstOccurrences(vars[..k])
    {
      var v := vars[k];
      assert vars[..k + 1] == vars[..k] + [v] && vars[..k + 1][..k] == vars[..k];
      WithinAppend(vars[..k], v, n);
      WithinAppend(list, v, n);
      if v > n {
        list := list + [v];
      } else {
        if !seen[Idx(v)] { list := list + [v]; }
        seen := seen[Idx(v) := true];
      }
    }
    assert vars[..|vars|] == vars;
  }

  ghost predicate ValidRequest(f: Formula, show: ShowSet, hidden: seq<VarId>, config: Config) {
    && config.maxConflictsPerVar > 0 && config.timeBudget != Some(0)
    && AllWithin(show, f.numVars) && AllWithin(hidden, f.numVars)
    && forall v :: v in hidden ==> v !in show
  }

  method ValidateAndCollectHidden(f: Formula, show: ShowSet, hidden: seq<VarId>, config: Config)
    returns (r: Result<seq<VarId>, ProjectionError>)
    ensures r.Ok? <==> ValidRequest(f, show, hidden, config)
    ensures r.Ok? ==> r.value == FirstOccurrences(hidden)
  {
    if config.maxConflictsPerVar <= 0 { return Err(BadConflictLimit); }
    if config.timeBudget == Some(0) { return Err(ZeroTimeBudget); }
    var within := RequireShowWithin(f, show);
    if within.Err? { return Err(within.error); }
    var list := DropRepeats(hidden, f.numVars);
    for k := 0 to |list|
      invariant AllWithin(list[..k], f.numVars)
    {
      assert list[k] in list && list[..k + 1] == list[..k] + [list[k]];
      if list[k] > f.numVars { return Err(HiddenOutOfRange(list[k])); }
    }
    assert list[..|list|] == list;
    FirstOccurrencesMeaning(hidden);
    for k := 0 to |list|
      invariant forall v :: v in list[..k] ==> v !in show
    {
      assert list[k] in list && list[..k + 1] == list[..k] + [list[k]];
      if list[k] in show { return Err(ShownAndHidden(list[k])); }
    }
    return Ok(list);
  }

  // ---- the tables ----

  /** How often a clause writes a variable, either way. */
  function WrittenIn(c: Clause, v: nat): nat {
    if c == [] then 0 else WrittenIn(c[..|c| - 1], v) + (if Idx(c[|c| - 1].v) == v then 1 else 0)
  }

  function Written(cs: seq<Clause>, v: nat): nat {
    if cs == [] then 0 else Written(cs[..|cs| - 1], v) + WrittenIn(cs[|cs| - 1], v)
  }

  function Saturated(n: nat): nat { if n < U32_MAX then n else U32_MAX }

  lemma {:induction false} WrittenInMeaning(c: Clause, v: VarId)
    ensures WrittenIn(c, Idx(v)) > 0 <==> Mentions(c, v)
  {
    if c != [] {
      WrittenInMeaning(c[..|c| - 1], v);
      var last := c[|c| - 1];
      assert c == c[..|c| - 1] + [last];
      assert last.v == v ==> last == Literal(v, true) || last == Literal(v, false);
    }
  }

  lemma {:induction false} WrittenMeaning(cs: seq<Clause>, v: VarId)
    ensures Written(cs, Idx(v)) > 0 <==> Occurs(cs, v)
  {
    if cs != [] {
      WrittenMeaning(cs[..|cs| - 1], v);
      WrittenInMeaning(cs[|cs| - 1], v);
      assert cs == cs[..|cs| - 1] + [cs[|cs| - 1]];
    }
  }

  method CountIncidence(cs: seq<Clause>, n: nat) returns (appears: seq<bool>, incidence: seq<nat>)
    requires forall c :: c in cs ==> InRange(c, n)
    ensures |appears| == |incidence| == n
    ensures forall v: nat :: v < n ==> (appears[v] <==> Written(cs, v) > 0) && incidence[v] == Saturated(Written(cs, v))
  {
    appears, incidence := seq(n, _ => false), seq(n, _ => 0);
    for i := 0 to |cs|
      invariant |appears| == |incidence| == n
      invariant forall v: nat :: v < n ==>
                  (appears[v] <==> Written(cs[..i], v) > 0) && incidence[v] == Saturated(Written(cs[..i], v))
    {
      var c := cs[i];
      assert c in cs && cs[..i + 1][..i] == cs[..i];
      for k := 0 to |c|
        invariant |appears| == |incidence| == n
        invariant forall v: nat :: v < n ==>
                    (appears[v] <==> Written(cs[..i], v) + WrittenIn(c[..k], v) > 0)
                    && incidence[v] == Saturated(Written(cs[..i], v) + WrittenIn(c[..k], v))
      {
        assert c[k] in c && c[..k + 1][..k] == c[..k];
        var v := Idx(c[k].v);
        appears := appears[v := true];
        incidence := incidence[v := Saturated(incidence[v] + 1)];
      }
      assert c[..|c|] == c;
    }
    assert cs[..|cs|] == cs;
  }

  datatype Partitioned = Partitioned(candidates: seq<nat>, appearingShow: seq<nat>, ordered: seq<nat>,
                                     absent: seq<VarId>)

  /** Sort key of the probe order: more written first, then the larger variable. */
  function HardestFirst(incidence: seq<nat>): nat -> int {
    (v: nat) => -((if v < |incidence| then incidence[v] else 0) * 0x1_0000_0000 + v)
  }

  ghost predicate PartitionHolds(f: Formula, show: ShowSet, hidden: seq<VarId>, p: Partitioned) {
    && AppearingVars(f.clauses, p.candidates)
    && AppearingShow(f.clauses, show, p.appearingShow)
    && IdxsFit(p.ordered)
    && Distinct(p.ordered) && (forall v: VarId :: Idx(v) in p.ordered <==> v in hidden && Occurs(f.clauses, v))
    && Distinct(p.absent) && (forall v :: v in p.absent <==> v in hidden && !Occurs(f.clauses, v))
    && p.absent == AbsentOf(f.clauses, hidden)
  }

  /** A list less some of its variables, the others in their order. */
  ghost function Without(vars: seq<VarId>, present: set<VarId>): seq<VarId> {
    if vars == [] then []
    else
      var n := |vars| - 1;
      Without(vars[..n], present) + (if vars[n] in present then [] else [vars[n]])
  }

  lemma WithoutNothing(present: set<VarId>)
    ensures Without([], present) == []
  {
  }

  lemma WithoutNext(vars: seq<VarId>, k: nat, present: set<VarId>)
    requires k < |vars|
    ensures Without(vars[..k + 1], present)
         == Without(vars[..k], present) + (if vars[k] in present then [] else [vars[k]])
  {
    assert vars[..k + 1][..k] == vars[..k];
  }

  /** The requested variables no clause mentions, in the order they were requested. */
  ghost function AbsentOf(cs: seq<Clause>, hidden: seq<VarId>): seq<VarId> {
    Without(hidden, set v | v in hidden && Occurs(cs, v))
  }

  /** The variables of a list that appear, by index, and those that do not. */
  method SplitByAppearing(vars: seq<VarId>, appears: seq<bool>) returns (inside: seq<nat>, absent: seq<VarId>)
    requires Distinct(vars) && AllWithin(vars, |appears|)
    ensures Distinct(inside) && (forall x :: x in inside ==> x < |appears|)
    ensures forall v: VarId :: Idx(v) in inside <==> v in vars && appears[Idx(v)]
    ensures Distinct(absent) && forall v :: v in absent <==> v in vars && !appears[Idx(v)]
    ensures absent == Without(vars, set v | v in vars && appears[Idx(v)])
  {
    hide Without;
    ghost var present := set v | v in vars && appears[Idx(v)];
    inside, absent := [], [];
    WithoutNothing(present);
    for k := 0 to |vars|
      invariant Distinct(inside) && (forall x :: x in inside ==> x < |appears|)
      invariant forall v: VarId :: Idx(v) in inside <==> v in vars[..k] && Idx(v) < |appears| && appears[Idx(v)]
      invariant Distinct(absent)
      invariant forall v :: v in absent <==> v in vars[..k] && Idx(v) < |appears| && !appears[Idx(v)]
      invariant absent == Without(vars[..k], present)
    {
      var v := vars[k];
      assert v in vars && vars[..k + 1] == vars[..k] + [v];
      WithoutNext(vars, k, present);
      NewToPrefix(vars, k);
      if appears[Idx(v)] { inside := inside + [Idx(v)]; } else { absent := absent + [v]; }
    }
    assert vars[..|vars|] == vars;
  }

  lemma NewToPrefix(vars: seq<VarId>, k: nat)
    requires Distinct(vars) && k < |vars|
    ensures vars[k] !in vars[..k]
  {
  }

  method CandidatesOf(appears: seq<bool>) returns (cands: seq<nat>)
    ensures Increasing(cands) && forall v: nat :: v in cands <==> v < |appears| && appears[v]
  {
    cands := [];
    for v := 0 to |appears|
      invariant Increasing(cands) && forall u: nat :: u in cands <==> u < v && appears[u]
    {
      assert forall k :: 0 <= k < |cands| ==> cands[k] in cands;
      if appears[v] { cands := cands + [v]; }
    }
  }

  method PartitionHiddenTargets(f: Formula, show: ShowSet, hidden: seq<VarId>) returns (p: Partitioned)
    requires WellFormed(f) && AllWithin(show, f.numVars) && AllWithin(hidden, f.numVars) && Distinct(hidden)
    ensures PartitionHolds(f, show, hidden, p)
    ensures forall i :: 0 <= i < |p.candidates| ==> p.candidates[i] < f.numVars
    ensures HardestOrder(p.ordered, IncidenceTable(f))
  {
    hide SortBy, HardestFirst, HardestOrder, Written;
    var appears, incidence := CountIncidence(f.clauses, f.numVars);
    assert incidence == IncidenceTable(f);
    forall v: VarId | v <= f.numVars ensures appears[Idx(v)] <==> Occurs(f.clauses, v) { WrittenMeaning(f.clauses, v); }
    OccursInRange(f);
    var cands := CandidatesOf(appears);
    assert Distinct(show) by { assert Increasing(show); }
    var shown, _ := SplitByAppearing(show, appears);
    var inside, absent := SplitByAppearing(hidden, appears);
    var ordered := SortBy<nat>(inside, HardestFirst(incidence));
    OrderedMeaning(inside, incidence);
    p := Partitioned(cands, shown, ordered, absent);
    PartitionMeaning(f, show, hidden, appears, p, inside);
  }

  ghost function IncidenceTable(f: Formula): seq<nat> {
    seq(f.numVars, v requires 0 <= v => Saturated(Written(f.clauses, v)))
  }

  lemma PartitionMeaning(f: Formula, show: ShowSet, hidden: seq<VarId>, appears: seq<bool>, p: Partitioned,
                         inside: seq<nat>)
    requires WellFormed(f) && |appears| == f.numVars && AllWithin(hidden, f.numVars) && AllWithin(show, f.numVars)
    requires forall v: VarId :: v <= f.numVars ==> (appears[Idx(v)] <==> Occurs(f.clauses, v))
    requires forall v: VarId :: Occurs(f.clauses, v) ==> v <= f.numVars
    requires Increasing(p.candidates) && forall v: nat :: v in p.candidates <==> v < |appears| && appears[v]
    requires forall x :: x in p.appearingShow ==> x < |appears|
    requires forall v: VarId :: Idx(v) in p.appearingShow <==> v in show && appears[Idx(v)]
    requires forall x :: x in inside ==> x < |appears|
    requires forall v: VarId :: Idx(v) in inside <==> v in hidden && appears[Idx(v)]
    requires Distinct(p.ordered) && forall x :: x in p.ordered <==> x in inside
    requires Distinct(p.absent) && forall v :: v in p.absent <==> v in hidden && !appears[Idx(v)]
    requires p.absent == Without(hidden, set v | v in hidden && appears[Idx(v)])
    ensures PartitionHolds(f, show, hidden, p)
    ensures forall i :: 0 <= i < |p.candidates| ==> p.candidates[i] < f.numVars
  {
    hide Occurs, Without;
    assert (set v | v in hidden && appears[Idx(v)]) == (set v | v in hidden && Occurs(f.clauses, v));
    forall i | 0 <= i < |p.candidates| ensures p.candidates[i] < f.numVars { assert p.candidates[i] in p.candidates; }
    forall i | 0 <= i < |p.appearingShow|
      ensures p.appearingShow[i] < MAX_VAR && FromIdx(p.appearingShow[i]) in show
                && Occurs(f.clauses, FromIdx(p.appearingShow[i]))
    {
      assert p.appearingShow[i] in p.appearingShow;
      assert Idx(FromIdx(p.appearingShow[i])) == p.appearingShow[i];
    }
  }

  lemma OccursInRange(f: Formula)
    requires WellFormed(f)
    ensures forall v: VarId :: Occurs(f.clauses, v) ==> v <= f.numVars
  {
    forall v: VarId | Occurs(f.clauses, v) ensures v <= f.numVars {
      var c :| c in f.clauses && Mentions(c, v);
      assert InRange(c, f.numVars);
    }
  }

  lemma OrderedMeaning(inside: seq<nat>, incidence: seq<nat>)
    requires Distinct(inside) && (forall x :: x in inside ==> x < |incidence|) && |incidence| <= MAX_VAR
    ensures HardestOrder(SortBy<nat>(inside, HardestFirst(incidence)), incidence)
    ensures Distinct(SortBy<nat>(inside, HardestFirst(incidence)))
    ensures forall x :: x in SortBy<nat>(inside, HardestFirst(incidence)) <==> x in inside
  {
    var key := HardestFirst(incidence);
    var ordered := SortBy<nat>(inside, key);
    SortByMeaning<nat>(inside, key);
    BagDistinct(inside, ordered);
    forall i, j | 0 <= i < j < |ordered| ensures Harder(incidence, ordered[i], ordered[j]) {
      assert ordered[i] in inside && ordered[j] in inside;
      assert key(ordered[i]) <= key(ordered[j]) && ordered[i] != ordered[j];
    }
  }

  /** Written more often, or as often and numbered higher. */
  ghost predicate Harder(incidence: seq<nat>, u: nat, v: nat) {
    && u < |incidence| && v < |incidence|
    && (incidence[u] > incidence[v] || (incidence[u] == incidence[v] && u > v))
  }

  ghost predicate HardestOrder(ordered: seq<nat>, incidence: seq<nat>) {
    forall i, j :: 0 <= i < j < |ordered| ==> Harder(incidence, ordered[i], ordered[j])
  }

  // ---- the probes ----

  /** The variables whose probe ended one way, in probe order. */
  ghost function Settled(ordered: seq<nat>, statuses: seq<Status>, status: Status): (r: seq<VarId>)
    requires |statuses| <= |ordered| && IdxsFit(ordered)
  {
    if statuses == [] then []
    else
      var n := |statuses| - 1;
      assert ordered[n] in ordered;
      Settled(ordered, statuses[..n], status) + (if statuses[n] == status then [FromIdx(ordered[n])] else [])
  }

  /** The statuses are right: a refuted probe's variable is determined, an answered one's is not. */
  ghost predicate Truthful(cs: seq<Clause>, show: seq<VarId>, ordered: seq<nat>, statuses: seq<Status>) {
    && |statuses| <= |ordered|
    && forall i :: 0 <= i < |statuses| ==>
        ordered[i] < MAX_VAR && TruthfulAt(cs, show, FromIdx(ordered[i]), statuses[i])
  }

  ghost predicate TruthfulAt(cs: seq<Clause>, show: seq<VarId>, x: VarId, status: Status) {
    && (status.Unsatisfiable? ==> DefinedBy(cs, show, x))
    && (status.Satisfiable? ==> !DefinedBy(cs, show, x))
  }

  ghost predicate IdxsFit(vars: seq<nat>) { forall x :: x in vars ==> x < MAX_VAR }

  function FromIdxs(vars: seq<nat>): (r: seq<VarId>)
    requires IdxsFit(vars)
    ensures |r| == |vars| && forall i :: 0 <= i < |r| ==> vars[i] in vars && r[i] == FromIdx(vars[i])
  {
    assert forall i :: 0 <= i < |vars| ==> vars[i] in vars;
    seq(|vars|, i requires 0 <= i < |vars| => FromIdx(vars[i]))
  }

  /** One probe: its assumptions queued, the question asked, the answer read. */
  method Probe(solver: Solver, clock: Bve.Clock, f: Formula, show: ShowSet, layout: DualLayout, p: Partitioned, x: nat)
    returns (status: Status)
    requires ProbeSetup(f, show, layout, p.candidates, p.appearingShow) && x in p.candidates
    requires AnswersSoundly(solver.answers) && solver.assumed == []
    requires solver.clauses == DualClauses(layout, p.candidates, f.clauses)
    modifies solver`assumed, solver`calls, clock
    ensures TruthfulAt(f.clauses, show, FromIdx(x), status)
    ensures solver.assumed == [] || BudgetSpent(clock.answers, clock.polls)
    ensures clock.polls >= old(clock.polls) && old(solver.calls) <= solver.calls <= old(solver.calls) + 1
    ensures status.Unknown? ==> Excused(clock.answers, old(clock.polls), clock.polls, solver.answers, solver.clauses,
                                        old(solver.calls), solver.calls)
  {
    hide DualClauses, DefinedBy, Query, Answerable, AnswersSoundly, AppearingVars, AppearingShow, Excused;
    solver.Assume(Literal(FromIdx(x), true));
    solver.Assume(Literal(layout.Primed(IndexOf(p.candidates, x)), false));
    ghost var start := solver.assumed;
    for k := 0 to |p.appearingShow|
      invariant solver.assumed == start + Indicators(layout, p.candidates, p.appearingShow)[..k]
      invariant solver.calls == old(solver.calls) && clock.polls == old(clock.polls)
    {
      solver.Assume(Literal(layout.Indicator(IndexOf(p.candidates, p.appearingShow[k])), true));
    }
    QueryIs(layout, p.candidates, p.appearingShow, x);
    assert solver.assumed == Query(layout, p.candidates, p.appearingShow, x);
    ProbeMeaning(f, show, layout, p.candidates, p.appearingShow, x);
    status := SolveWithLimits(solver, clock);
  }

  lemma QueryIs(layout: DualLayout, cands: seq<nat>, shown: seq<nat>, x: nat)
    requires Candidates(layout, cands) && x in cands && forall i :: 0 <= i < |shown| ==> shown[i] in cands
    ensures Query(layout, cands, shown, x)
         == [Literal(FromIdx(x), true)] + [Literal(layout.Primed(IndexOf(cands, x)), false)]
             + Indicators(layout, cands, shown)
  {
  }

  /** The probes in order, until the budget is spent; those not started are unknown. */
  method ProbeOrderedHidden(solver: Solver, clock: Bve.Clock, f: Formula, show: ShowSet, layout: DualLayout,
                            p: Partitioned, start: HiddenDefinability)
    returns (r: HiddenDefinability, ghost statuses: seq<Status>)
    requires ProbeSetup(f, show, layout, p.candidates, p.appearingShow)
    requires forall x :: x in p.ordered ==> x in p.candidates && x < MAX_VAR
    requires AnswersSoundly(solver.answers) && Steady(clock)
    requires solver.clauses == DualClauses(layout, p.candidates, f.clauses)
    requires solver.assumed == [] || BudgetSpent(clock.answers, clock.polls)
    modifies solver`assumed, solver`calls, clock
    ensures |statuses| == |p.ordered| && Truthful(f.clauses, show, p.ordered, statuses)
    ensures r.defined == start.defined + Settled(p.ordered, statuses, Unsatisfiable)
    ensures r.notDefined == start.notDefined + Settled(p.ordered, statuses, Satisfiable)
    ensures r.unknown == start.unknown + Settled(p.ordered, statuses, Unknown)
    ensures clock.polls >= old(clock.polls) && old(solver.calls) <= solver.calls <= old(solver.calls) + |p.ordered|
    ensures Unknown in statuses ==> Excused(clock.answers, old(clock.polls), clock.polls, solver.answers,
                                            solver.clauses, old(solver.calls), solver.calls)
  {
    hide DualClauses, DefinedBy, ProbeSetup, AnswersSoundly, TruthfulAt, Answerable, Settled, Truthful, Excused, Padded;
    NothingSettled(f.clauses, show, p.ordered);
    r, statuses := start, [];
    for at := 0 to |p.ordered|
      invariant |statuses| == at && Truthful(f.clauses, show, p.ordered, statuses)
      invariant r.defined == start.defined + Settled(p.ordered, statuses, Unsatisfiable)
      invariant r.notDefined == start.notDefined + Settled(p.ordered, statuses, Satisfiable)
      invariant r.unknown == start.unknown + Settled(p.ordered, statuses, Unknown)
      invariant solver.assumed == [] || BudgetSpent(clock.answers, clock.polls)
      invariant clock.polls >= old(clock.polls) && old(solver.calls) <= solver.calls <= old(solver.calls) + at
      invariant Unknown in statuses ==> Excused(clock.answers, old(clock.polls), clock.polls, solver.answers,
                                                solver.clauses, old(solver.calls), solver.calls)
    {
      var x := p.ordered[at];
      assert x in p.ordered;
      ghost var polled, called := clock.polls, solver.calls;
      var spent := clock.Stopped();
      if spent {
        StopExcuses(clock.answers, old(clock.polls), polled, clock.polls, solver.answers, solver.clauses,
                    old(solver.calls), solver.calls);
        CutOff(f.clauses, show, p.ordered, statuses);
        return r.(unknown := r.unknown + FromIdxs(p.ordered[at..])), Padded(statuses, |p.ordered|);
      }
      var status := Probe(solver, clock, f, show, layout, p, x);
      match status {
        case Unsatisfiable => r := r.(defined := r.defined + [FromIdx(x)]);
        case Satisfiable => r := r.(notDefined := r.notDefined + [FromIdx(x)]);
        case Unknown => r := r.(unknown := r.unknown + [FromIdx(x)]);
      }
      TruthfulNext(f.clauses, show, p.ordered, statuses, status);
      if Unknown in statuses {
        ExcusedWider(clock.answers, old(clock.polls), polled, old(clock.polls), clock.polls, solver.answers,
                     solver.clauses, old(solver.calls), called, old(solver.calls), solver.calls);
      }
      if status.Unknown? {
        ExcusedWider(clock.answers, polled + 1, clock.polls, old(clock.polls), clock.polls, solver.answers,
                     solver.clauses, called, solver.calls, old(solver.calls), solver.calls);
      }
      statuses := statuses + [status];
    }
  }

  lemma StopExcuses(stops: nat -> bool, poll: nat, polled: nat, polls: nat,
                    answers: (nat, seq<Clause>, seq<Literal>) -> Status, cs: seq<Clause>, call: nat, calls: nat)
    requires poll <= polled <= polls && Bve.StoppedBetween(stops, polled, polls)
    ensures Excused(stops, poll, polls, answers, cs, call, calls)
  {
  }

  /** Stopping the sweep: the rest unknown, nothing else changed. */
  lemma CutOff(cs: seq<Clause>, show: seq<VarId>, ordered: seq<nat>, statuses: seq<Status>)
    requires Truthful(cs, show, ordered, statuses) && IdxsFit(ordered)
    ensures IdxsFit(ordered[|statuses|..]) && Truthful(cs, show, ordered, Padded(statuses, |ordered|))
    ensures Settled(ordered, Padded(statuses, |ordered|), Unsatisfiable) == Settled(ordered, statuses, Unsatisfiable)
    ensures Settled(ordered, Padded(statuses, |ordered|), Satisfiable) == Settled(ordered, statuses, Satisfiable)
    ensures Settled(ordered, Padded(statuses, |ordered|), Unknown)
         == Settled(ordered, statuses, Unknown) + FromIdxs(ordered[|statuses|..])
  {
    hide Truthful, Settled, Padded;
    var n := |ordered|;
    SettledLength(cs, show, ordered, statuses);
    assert ordered[|statuses|..n] == ordered[|statuses|..];
    PaddedSettled(ordered, statuses, n, Unsatisfiable);
    PaddedSettled(ordered, statuses, n, Satisfiable);
    PaddedSettled(ordered, statuses, n, Unknown);
    RestTruthful(cs, show, ordered, statuses, Padded(statuses, n));
  }

  lemma SettledLength(cs: seq<Clause>, show: seq<VarId>, ordered: seq<nat>, statuses: seq<Status>)
    requires Truthful(cs, show, ordered, statuses)
    ensures |statuses| <= |ordered|
  {
  }

  lemma NothingSettled(cs: seq<Clause>, show: seq<VarId>, ordered: seq<nat>)
    requires IdxsFit(ordered)
    ensures Truthful(cs, show, ordered, []) && forall s :: Settled(ordered, [], s) == []
  {
  }

  lemma TruthfulNext(cs: seq<Clause>, show: seq<VarId>, ordered: seq<nat>, statuses: seq<Status>, status: Status)
    requires Truthful(cs, show, ordered, statuses) && |statuses| < |ordered| && IdxsFit(ordered)
    requires ordered[|statuses|] < MAX_VAR && TruthfulAt(cs, show, FromIdx(ordered[|statuses|]), status)
    ensures Truthful(cs, show, ordered, statuses + [status])
    ensures forall s :: Settled(ordered, statuses + [status], s)
                     == Settled(ordered, statuses, s) + (if status == s then [FromIdx(ordered[|statuses|])] else [])
  {
    assert (statuses + [status])[..|statuses|] == statuses;
  }

  lemma RestTruthful(cs: seq<Clause>, show: seq<VarId>, ordered: seq<nat>, statuses: seq<Status>, more: seq<Status>)
    requires Truthful(cs, show, ordered, statuses) && |more| == |ordered| && statuses <= more
    requires IdxsFit(ordered) && forall i :: |statuses| <= i < |more| ==> more[i] == Unknown
    ensures Truthful(cs, show, ordered, more)
  {
    forall i | 0 <= i < |more| ensures ordered[i] < MAX_VAR && TruthfulAt(cs, show, FromIdx(ordered[i]), more[i]) {
      assert ordered[i] in ordered;
      if i < |statuses| { assert more[i] == statuses[i]; }
    }
  }

  /** The statuses so far, and unknown for the probes not started. */
  ghost function Padded(statuses: seq<Status>, n: nat): (r: seq<Status>)
    requires |statuses| <= n
    ensures |r| == n && statuses <= r && forall i :: |statuses| <= i < n ==> r[i] == Unknown
    decreases n
  {
    if n == |statuses| then statuses else Padded(statuses, n - 1) + [Unknown]
  }

  lemma {:induction false} PaddedSettled(ordered: seq<nat>, statuses: seq<Status>, n: nat, s: Status)
    requires |statuses| <= n <= |ordered| && IdxsFit(ordered)
    ensures IdxsFit(ordered[|statuses|..n])
    ensures Settled(ordered, Padded(statuses, n), s)
         == Settled(ordered, statuses, s) + (if s == Unknown then FromIdxs(ordered[|statuses|..n]) else [])
    decreases n
  {
    hide Settled, Padded;
    if n == |statuses| { PaddedNone(statuses); }
    SliceFits(ordered, |statuses|, n);
    if n == |statuses| {
      assert FromIdxs(ordered[n..n]) == [];
    } else {
      PaddedSettled(ordered, statuses, n - 1, s);
      PaddedOnce(ordered, statuses, n, s);
      FromIdxsAppend(ordered, |statuses|, n - 1);
    }
  }

  lemma PaddedNone(statuses: seq<Status>)
    ensures Padded(statuses, |statuses|) == statuses
  {
  }

  lemma PaddedOnce(ordered: seq<nat>, statuses: seq<Status>, n: nat, s: Status)
    requires |statuses| < n <= |ordered| && IdxsFit(ordered)
    ensures ordered[n - 1] < MAX_VAR
    ensures Settled(ordered, Padded(statuses, n), s)
         == Settled(ordered, Padded(statuses, n - 1), s) + (if s == Unknown then [FromIdx(ordered[n - 1])] else [])
  {
    assert ordered[n - 1] in ordered;
    var padded := Padded(statuses, n);
    assert padded[..n - 1] == Padded(statuses, n - 1);
  }

  lemma FromIdxsAppend(ordered: seq<nat>, i: nat, n: nat)
    requires i <= n < |ordered| && IdxsFit(ordered)
    ensures ordered[n] < MAX_VAR && IdxsFit(ordered[i..n]) && IdxsFit(ordered[i..n + 1])
    ensures FromIdxs(ordered[i..n + 1]) == FromIdxs(ordered[i..n]) + [FromIdx(ordered[n])]
  {
    assert ordered[n] in ordered;
    SliceFits(ordered, i, n);
    SliceFits(ordered, i, n + 1);
    var a, b := FromIdxs(ordered[i..n + 1]), FromIdxs(ordered[i..n]) + [FromIdx(ordered[n])];
    assert forall k :: 0 <= k < |a| ==> a[k] == b[k];
  }

  // ---- the whole classification ----

  /** Every variable of the list in exactly one category, and no category wrong. */
  ghost predicate Classified(cs: seq<Clause>, show: seq<VarId>, hidden: seq<VarId>, r: HiddenDefinability) {
    && multiset(r.defined) + multiset(r.notDefined) + multiset(r.unknown) == multiset(hidden)
    && (forall x :: x in r.defined ==> DefinedBy(cs, show, x))
    && forall x :: x in r.notDefined ==> !DefinedBy(cs, show, x)
  }

  /** Variables that occur, the hardest first. */
  ghost predicate HardestList(f: Formula, list: seq<VarId>) {
    && (forall v :: v in list ==> Occurs(f.clauses, v))
    && forall i, j :: 0 <= i < j < |list| ==> Harder(IncidenceTable(f), Idx(list[i]), Idx(list[j]))
  }

  /** All the absent variables or none in the caller's order, and then the hardest first. */
  ghost predicate AbsentThenHardest(f: Formula, hidden: seq<VarId>, list: seq<VarId>) {
    || HardestList(f, list)
    || exists tail :: HardestList(f, tail) && list == AbsentOf(f.clauses, hidden) + tail
  }

  /** The order of each category: hardest first behind the absent ones. All are in the caller's order for a formula
      with an empty clause, and when asking after the absent ones showed that there is no model. */
  ghost predicate Listed(f: Formula, hidden: seq<VarId>, r: HiddenDefinability) {
    if [] in f.clauses then r == HiddenDefinability(hidden, [], [])
    else
      || (&& r == HiddenDefinability(hidden, [], [])
          && AbsentOf(f.clauses, hidden) != [] && forall a :: !Satisfies(a, f.clauses))
      || (&& HardestList(f, r.defined)
          && AbsentThenHardest(f, hidden, r.notDefined)
          && AbsentThenHardest(f, hidden, r.unknown))
  }

  lemma {:induction false} WithoutNone(vars: seq<VarId>)
    ensures Without(vars, {}) == vars
  {
    if vars != [] { WithoutNone(vars[..|vars| - 1]); }
  }

  /** Without a clause every variable is absent. */
  lemma NothingWritten(f: Formula, hidden: seq<VarId>)
    requires hidden == [] || f.clauses == []
    ensures Listed(f, hidden, HiddenDefinability([], hidden, []))
  {
    assert (set v | v in hidden && Occurs(f.clauses, v)) == {};
    WithoutNone(hidden);
    assert HardestList(f, []) && hidden == AbsentOf(f.clauses, hidden) + [];
  }

  lemma {:induction false} SettledAmong(ordered: seq<nat>, statuses: seq<Status>, s: Status)
    requires |statuses| <= |ordered| && IdxsFit(ordered)
    ensures forall v :: v in Settled(ordered, statuses, s) ==> exists i :: 0 <= i < |statuses| && ordered[i] == Idx(v)
  {
    if statuses != [] {
      assert ordered[|statuses| - 1] in ordered;
      SettledAmong(ordered, statuses[..|statuses| - 1], s);
    }
  }

  lemma HardestAppend(f: Formula, list: seq<VarId>, v: VarId)
    requires HardestList(f, list) && Occurs(f.clauses, v)
    requires forall u :: u in list ==> Harder(IncidenceTable(f), Idx(u), Idx(v))
    ensures HardestList(f, list + [v])
  {
    hide Occurs, Harder;
    forall i, j | 0 <= i < j < |list + [v]|
      ensures Harder(IncidenceTable(f), Idx((list + [v])[i]), Idx((list + [v])[j]))
    {
      assert list[i] in list;
    }
  }

  /** The probes that ended one way keep the probe order. */
  lemma {:induction false} SettledInOrder(f: Formula, ordered: seq<nat>, statuses: seq<Status>, s: Status)
    requires |statuses| <= |ordered| && IdxsFit(ordered) && HardestOrder(ordered, IncidenceTable(f))
    requires forall x :: x in ordered ==> x < MAX_VAR && Occurs(f.clauses, FromIdx(x))
    ensures HardestList(f, Settled(ordered, statuses, s))
  {
    hide Occurs, Harder, HardestList, IncidenceTable;
    if statuses == [] {
      assert HardestList(f, []) by { NothingInOrder(f); }
    } else {
      var n := |statuses| - 1;
      var front := Settled(ordered, statuses[..n], s);
      assert ordered[n] in ordered;
      SettledInOrder(f, ordered, statuses[..n], s);
      forall u | u in front ensures Harder(IncidenceTable(f), Idx(u), Idx(FromIdx(ordered[n]))) {
        SettledAmong(ordered, statuses[..n], s);
        var i :| 0 <= i < n && ordered[i] == Idx(u);
      }
      HardestAppend(f, front, FromIdx(ordered[n]));
      assert front + [] == front;
    }
  }

  lemma NothingInOrder(f: Formula)
    ensures HardestList(f, [])
  {
  }

  lemma OrderedInOrder(f: Formula, ordered: seq<nat>)
    requires IdxsFit(ordered) && HardestOrder(ordered, IncidenceTable(f))
    requires forall x :: x in ordered ==> x < MAX_VAR && Occurs(f.clauses, FromIdx(x))
    ensures HardestList(f, FromIdxs(ordered))
  {
    hide Occurs, Harder;
    forall v | v in FromIdxs(ordered) ensures Occurs(f.clauses, v) {
      var i :| 0 <= i < |ordered| && FromIdxs(ordered)[i] == v;
    }
  }

  /** Either list of the absent ones with the probed ones behind. */
  lemma Behind(f: Formula, hidden: seq<VarId>, front: seq<VarId>, tail: seq<VarId>)
    requires HardestList(f, tail) && (front == [] || front == AbsentOf(f.clauses, hidden))
    ensures AbsentThenHardest(f, hidden, front + tail)
  {
    hide HardestList, AbsentOf;
    if front == [] { assert front + tail == tail; }
  }

  method TrivialHiddenDefinability(f: Formula, ghost show: ShowSet, hidden: seq<VarId>)
    returns (r: Option<HiddenDefinability>)
    requires forall v :: v in hidden ==> v !in show
    ensures r.Some? ==> Classified(f.clauses, show, hidden, r.value) && Listed(f, hidden, r.value)
    ensures r.Some? ==> r.value.unknown == []
    ensures r.None? ==> hidden != [] && f.clauses != [] && [] !in f.clauses
  {
    if hidden == [] || f.clauses == [] {
      forall x | x in hidden ensures !DefinedBy(f.clauses, show, x) {
        assert Satisfies({}, f.clauses);
        AbsentIsFree(f.clauses, show, x);
      }
      NothingWritten(f, hidden);
      return Some(HiddenDefinability([], hidden, []));
    }
    if [] in f.clauses {
      forall a ensures !Satisfies(a, f.clauses) { assert !ClauseTrue(a, []); }
      return Some(HiddenDefinability(hidden, [], []));
    }
    return None;
  }

  /** The dual formula's ids, three for every variable that appears, can all be written. */
  ghost predicate RoomForDual(f: Formula) {
    forall cands :: AppearingVars(f.clauses, cands) ==> DualLayout(f.numVars, |cands|).Fits()
  }

  /** The room can be missing for a valid request: the widest formula, one clause over one variable, and that
      variable asked about. */
  lemma RoomCanBeMissing(config: Config)
    requires config.maxConflictsPerVar > 0 && config.timeBudget != Some(0)
    ensures WellFormed(Formula(MAX_VAR, [[Literal(1, true)]]))
    ensures ValidRequest(Formula(MAX_VAR, [[Literal(1, true)]]), [], [1], config)
    ensures !RoomForDual(Formula(MAX_VAR, [[Literal(1, true)]]))
  {
    var f, cands: seq<nat> := Formula(MAX_VAR, [[Literal(1, true)]]), [0];
    forall v: VarId ensures Idx(v) in cands <==> Occurs(f.clauses, v) {
      if v == 1 {
        assert Literal(1, true) in [Literal(1, true)];
        assert Mentions([Literal(1, true)], v);
        assert [Literal(1, true)] in f.clauses;
      }
    }
    LayoutOverflows();
    assert AppearingVars(f.clauses, cands) && !DualLayout(f.numVars, |cands|).Fits();
  }

  /** No dual formula when the budget is spent on either side of building it, when it would be too
      large, or when no solver can be had. */
  method BuildDualWithinBudget(f: Formula, layout: DualLayout, cands: seq<nat>, clock: Bve.Clock, solverAvailable: bool,
                               answers: (nat, seq<Clause>, seq<Literal>) -> Status)
    returns (solver: Option<Solver>)
    requires Candidates(layout, cands)
    modifies clock
    ensures solver.Some? ==> fresh(solver.value) && solver.value.answers == answers && solver.value.assumed == []
                             && solver.value.clauses == DualClauses(layout, cands, f.clauses)
                             && solver.value.calls == 0
    ensures clock.polls >= old(clock.polls)
    ensures solver.None? <==> !solverAvailable || |f.clauses| > MAX_DUAL_CNF_CLAUSES
                              || Bve.StoppedBetween(clock.answers, old(clock.polls), clock.polls)
  {
    var before := clock.Stopped();
    if before || |f.clauses| > MAX_DUAL_CNF_CLAUSES || !solverAvailable { return None; }
    var dual := BuildDualClauses(layout, cands, f.clauses);
    var built := new Solver(answers, dual);
    var after := clock.Stopped();
    return if after then None else Some(built);
  }

  datatype AbsentOutcome = AllVacuous | Free | Undecided | NothingAbsent

  /** Whether the formula has a model at all, asked only when some requested variable is mentioned nowhere. */
  method ResolveAbsentHidden(solver: Solver, clock: Bve.Clock, f: Formula, ghost layout: DualLayout,
                             ghost cands: seq<nat>, absent: seq<VarId>)
    returns (outcome: AbsentOutcome)
    requires WellFormed(f) && layout.numVars == f.numVars && Candidates(layout, cands)
    requires AnswersSoundly(solver.answers) && solver.assumed == []
              && solver.clauses == DualClauses(layout, cands, f.clauses)
    modifies solver`assumed, solver`calls, clock
    ensures outcome.AllVacuous? ==> forall a :: !Satisfies(a, f.clauses)
    ensures outcome.Free? ==> exists a :: Satisfies(a, f.clauses)
    ensures outcome.NothingAbsent? <==> absent == []
    ensures solver.assumed == [] || BudgetSpent(clock.answers, clock.polls)
    ensures clock.polls >= old(clock.polls) && old(solver.calls) <= solver.calls <= old(solver.calls) + 1
    ensures outcome.Undecided? ==> Excused(clock.answers, old(clock.polls), clock.polls, solver.answers, solver.clauses,
                                           old(solver.calls), solver.calls)
  {
    hide DualClauses, Answerable, AnswersSoundly, Excused;
    if absent == [] { return NothingAbsent; }
    BaseMeaning(f, layout, cands);
    var status := SolveWithLimits(solver, clock);
    match status
    case Unsatisfiable => return AllVacuous;
    case Satisfiable => return Free;
    case Unknown => return Undecided;
  }

  lemma {:induction false} SettledBags(ordered: seq<nat>, statuses: seq<Status>)
    requires |statuses| <= |ordered| && IdxsFit(ordered)
    ensures IdxsFit(ordered[..|statuses|])
    ensures multiset(Settled(ordered, statuses, Unsatisfiable)) + multiset(Settled(ordered, statuses, Satisfiable))
            + multiset(Settled(ordered, statuses, Unknown)) == multiset(FromIdxs(ordered[..|statuses|]))
  {
    hide Settled;
    if statuses == [] { NothingSettled([], [], ordered); }
    SliceFits(ordered, 0, |statuses|);
    assert ordered[0..|statuses|] == ordered[..|statuses|];
    if statuses != [] {
      var n := |statuses| - 1;
      SettledBags(ordered, statuses[..n]);
      SettledSplit(ordered, statuses);
      FromIdxsAppend(ordered, 0, n);
      assert ordered[0..n] == ordered[..n] && ordered[0..n + 1] == ordered[..n + 1];
    }
  }

  lemma SettledSplit(ordered: seq<nat>, statuses: seq<Status>)
    requires 0 < |statuses| <= |ordered| && IdxsFit(ordered)
    ensures ordered[|statuses| - 1] < MAX_VAR
    ensures multiset(Settled(ordered, statuses, Unsatisfiable)) + multiset(Settled(ordered, statuses, Satisfiable))
            + multiset(Settled(ordered, statuses, Unknown))
         == multiset(Settled(ordered, statuses[..|statuses| - 1], Unsatisfiable))
            + multiset(Settled(ordered, statuses[..|statuses| - 1], Satisfiable))
            + multiset(Settled(ordered, statuses[..|statuses| - 1], Unknown))
                + multiset{FromIdx(ordered[|statuses| - 1])}
  {
    assert ordered[|statuses| - 1] in ordered;
  }

  lemma SliceFits(ordered: seq<nat>, i: nat, j: nat)
    requires i <= j <= |ordered| && IdxsFit(ordered)
    ensures IdxsFit(ordered[i..j])
  {
    assert forall x :: x in ordered[i..j] ==> x in ordered;
  }

  lemma {:induction false} SettledTruth(cs: seq<Clause>, show: seq<VarId>, ordered: seq<nat>, statuses: seq<Status>)
    requires Truthful(cs, show, ordered, statuses) && IdxsFit(ordered)
    ensures forall x :: x in Settled(ordered, statuses, Unsatisfiable) ==> DefinedBy(cs, show, x)
    ensures forall x :: x in Settled(ordered, statuses, Satisfiable) ==> !DefinedBy(cs, show, x)
  {
    hide DefinedBy;
    if statuses != [] {
      var n := |statuses| - 1;
      SettledTruth(cs, show, ordered, statuses[..n]);
      assert TruthfulAt(cs, show, FromIdx(ordered[n]), statuses[n]);
    }
  }

  /** The appearing targets and the absent ones together are the requested ones. */
  lemma PartitionBags(f: Formula, show: ShowSet, hidden: seq<VarId>, p: Partitioned)
    requires PartitionHolds(f, show, hidden, p) && Distinct(hidden)
    ensures multiset(p.absent) + multiset(FromIdxs(p.ordered)) == multiset(hidden)
  {
    hide Occurs, AppearingVars, AppearingShow;
    var named := FromIdxs(p.ordered);
    DistinctBag(p.absent);
    DistinctBag(named);
    DistinctBag(hidden);
    forall v ensures v in named <==> v in hidden && Occurs(f.clauses, v) {
      if v in named {
        var i :| 0 <= i < |named| && named[i] == v;
        assert Idx(v) == p.ordered[i];
      }
      if v in hidden && Occurs(f.clauses, v) {
        var i :| 0 <= i < |p.ordered| && p.ordered[i] == Idx(v);
        assert named[i] == v;
      }
    }
    assert ToSet(hidden) == ToSet(p.absent) + ToSet(named);
  }

  lemma OrderedFewer(f: Formula, show: ShowSet, hidden: seq<VarId>, p: Partitioned)
    requires PartitionHolds(f, show, hidden, p) && Distinct(hidden)
    ensures |p.ordered| <= |hidden|
  {
    PartitionBags(f, show, hidden, p);
    assert |multiset(FromIdxs(p.ordered))| <= |multiset(hidden)|;
  }

  /** Everything undecided reported unknown. */
  lemma GaveUpClassified(f: Formula, show: ShowSet, hidden: seq<VarId>, p: Partitioned, start: HiddenDefinability)
    requires PartitionHolds(f, show, hidden, p) && Distinct(hidden) && Classified(f.clauses, show, p.absent, start)
    ensures Classified(f.clauses, show, hidden, start.(unknown := start.unknown + FromIdxs(p.ordered)))
  {
    hide DefinedBy, PartitionHolds;
    PartitionBags(f, show, hidden, p);
  }

  lemma ProbedClassified(f: Formula, show: ShowSet, hidden: seq<VarId>, p: Partitioned, start: HiddenDefinability,
                         statuses: seq<Status>, r: HiddenDefinability)
    requires PartitionHolds(f, show, hidden, p) && Distinct(hidden) && Classified(f.clauses, show, p.absent, start)
    requires |statuses| == |p.ordered| && Truthful(f.clauses, show, p.ordered, statuses)
    requires r.defined == start.defined + Settled(p.ordered, statuses, Unsatisfiable)
    requires r.notDefined == start.notDefined + Settled(p.ordered, statuses, Satisfiable)
    requires r.unknown == start.unknown + Settled(p.ordered, statuses, Unknown)
    ensures Classified(f.clauses, show, hidden, r)
  {
    hide DefinedBy, Settled, Truthful;
    PartitionBags(f, show, hidden, p);
    SettledBags(p.ordered, statuses);
    assert p.ordered[..|statuses|] == p.ordered;
    SettledTruth(f.clauses, show, p.ordered, statuses);
  }

  /** What was decided, in order, behind what the absent ones got. */
  lemma ProbedListed(f: Formula, show: ShowSet, hidden: seq<VarId>, p: Partitioned, start: HiddenDefinability,
                     statuses: seq<Status>, r: HiddenDefinability)
    requires [] !in f.clauses
    requires PartitionHolds(f, show, hidden, p) && HardestOrder(p.ordered, IncidenceTable(f))
    requires |statuses| == |p.ordered| && start.defined == []
    requires start.notDefined == [] || start.notDefined == p.absent
    requires start.unknown == [] || start.unknown == p.absent
    requires r.defined == start.defined + Settled(p.ordered, statuses, Unsatisfiable)
    requires r.notDefined == start.notDefined + Settled(p.ordered, statuses, Satisfiable)
    requires r.unknown == start.unknown + Settled(p.ordered, statuses, Unknown)
    ensures Listed(f, hidden, r)
  {
    hide Settled, HardestList, AbsentThenHardest, AbsentOf, HardestOrder;
    OrderedOccur(f, show, hidden, p);
    SettledInOrder(f, p.ordered, statuses, Unsatisfiable);
    SettledInOrder(f, p.ordered, statuses, Satisfiable);
    SettledInOrder(f, p.ordered, statuses, Unknown);
    assert r.defined == Settled(p.ordered, statuses, Unsatisfiable);
    Behind(f, hidden, start.notDefined, Settled(p.ordered, statuses, Satisfiable));
    Behind(f, hidden, start.unknown, Settled(p.ordered, statuses, Unknown));
  }

  lemma GaveUpListed(f: Formula, show: ShowSet, hidden: seq<VarId>, p: Partitioned, start: HiddenDefinability)
    requires [] !in f.clauses
    requires PartitionHolds(f, show, hidden, p) && HardestOrder(p.ordered, IncidenceTable(f)) && start.defined == []
    requires start.notDefined == [] || start.notDefined == p.absent
    requires start.unknown == [] || start.unknown == p.absent
    ensures Listed(f, hidden, start.(unknown := start.unknown + FromIdxs(p.ordered)))
  {
    hide AbsentThenHardest, AbsentOf, HardestOrder;
    OrderedOccur(f, show, hidden, p);
    OrderedInOrder(f, p.ordered);
    hide HardestList;
    NothingInOrder(f);
    assert start.notDefined + [] == start.notDefined;
    Behind(f, hidden, start.notDefined, []);
    Behind(f, hidden, start.unknown, FromIdxs(p.ordered));
  }

  lemma OrderedOccur(f: Formula, show: ShowSet, hidden: seq<VarId>, p: Partitioned)
    requires PartitionHolds(f, show, hidden, p)
    ensures forall x :: x in p.ordered ==> x < MAX_VAR && Occurs(f.clauses, FromIdx(x))
  {
    hide Occurs, AbsentOf;
    forall x | x in p.ordered ensures x < MAX_VAR && Occurs(f.clauses, FromIdx(x)) {
      assert Idx(FromIdx(x)) == x;
    }
  }

  /** What the base check settles about the absent variables. */
  lemma AbsentSettled(f: Formula, show: ShowSet, hidden: seq<VarId>, p: Partitioned, outcome: AbsentOutcome)
    requires PartitionHolds(f, show, hidden, p) && forall v :: v in hidden ==> v !in show
    requires outcome.Free? ==> exists a :: Satisfies(a, f.clauses)
    requires outcome.NothingAbsent? ==> p.absent == []
    ensures Classified(f.clauses, show, p.absent,
                       HiddenDefinability([], if outcome.Free? then p.absent else [],
                                          if outcome.Undecided? || outcome.AllVacuous? then p.absent else []))
  {
    if outcome.Free? {
      forall x | x in p.absent ensures !DefinedBy(f.clauses, show, x) { AbsentIsFree(f.clauses, show, x); }
    }
  }

  /** Refused exactly for an invalid request; otherwise every requested variable is in exactly one
      category, `defined` ones are determined by the shown variables and `notDefined` ones are not, and
      each category is in its order. */
  method ClassifyHiddenDefinedByShow(f: Formula, show: ShowSet, requested: seq<VarId>, config: Config, clock: Bve.Clock,
                                     solverAvailable: bool, answers: (nat, seq<Clause>, seq<Literal>) -> Status)
    returns (r: Result<HiddenDefinability, ProjectionError>, ghost calls: nat)
    requires WellFormed(f) && RoomForDual(f) && AnswersSoundly(answers) && Steady(clock)
    modifies clock
    ensures r.Ok? <==> ValidRequest(f, show, requested, config)
    ensures r.Ok? ==> Classified(f.clauses, show, FirstOccurrences(requested), r.value)
    ensures r.Ok? ==> Listed(f, FirstOccurrences(requested), r.value)
    ensures clock.polls >= old(clock.polls) && calls <= |FirstOccurrences(requested)| + 1
    ensures r.Ok? && r.value.unknown != [] ==>
              !solverAvailable || |f.clauses| > MAX_DUAL_CNF_CLAUSES || GaveUpOn(f, answers, calls)
              || Bve.StoppedBetween(clock.answers, old(clock.polls), clock.polls)
    ensures r.Ok? && r.value.unknown == [] ==> Decided(f.clauses, show, requested, r.value)
  {
    hide DefinedBy, GaveUpOn, Decided, AnswersSoundly, DualClauses, Settled, Classified, RoomForDual, Truthful, Listed,
         HardestOrder;
    var valid := ValidateAndCollectHidden(f, show, requested, config);
    if valid.Err? { return Err(valid.error), 0; }
    var hidden := valid.value;
    FirstOccurrencesMeaning(requested);
    var trivial := TrivialHiddenDefinability(f, show, hidden);
    if trivial.Some? {
      NothingOpen(f.clauses, show, requested, trivial.value);
      return Ok(trivial.value), 0;
    }
    var p := PartitionHiddenTargets(f, show, hidden);
    var layout := DualLayout(f.numVars, |p.candidates|);
    Room(f, p.candidates);
    var classified, made := ClassifyPartitioned(f, show, hidden, p, layout, clock, solverAvailable, answers);
    if classified.unknown == [] { NothingOpen(f.clauses, show, requested, classified); }
    return Ok(classified), made;
  }

  /** One of the first `calls` calls on the formula's dual clauses gave no answer. */
  ghost predicate GaveUpOn(f: Formula, answers: (nat, seq<Clause>, seq<Literal>) -> Status, calls: nat) {
    exists cands :: GaveUpOnDual(f, cands, answers, calls)
  }

  ghost predicate GaveUpOnDual(f: Formula, cands: seq<nat>, answers: (nat, seq<Clause>, seq<Literal>) -> Status,
                               calls: nat) {
    && AppearingVars(f.clauses, cands) && Candidates(DualLayout(f.numVars, |cands|), cands)
    && GaveUpBetween(answers, DualClauses(DualLayout(f.numVars, |cands|), cands, f.clauses), 0, calls)
  }

  /** Both lists are exact: a requested variable is in one if the shown ones determine it, and else in the other. */
  ghost predicate Decided(cs: seq<Clause>, show: ShowSet, requested: seq<VarId>, r: HiddenDefinability) {
    && (forall x :: x in r.defined <==> x in requested && DefinedBy(cs, show, x))
    && forall x :: x in r.notDefined <==> x in requested && !DefinedBy(cs, show, x)
  }

  /** With nothing left open the verdicts are exact. */
  lemma NothingOpen(cs: seq<Clause>, show: ShowSet, requested: seq<VarId>, r: HiddenDefinability)
    requires Classified(cs, show, FirstOccurrences(requested), r) && r.unknown == []
    ensures Decided(cs, show, requested, r)
  {
    hide DefinedBy;
    FirstOccurrencesMeaning(requested);
    forall x ensures x in requested <==> x in r.defined || x in r.notDefined {
      assert x in multiset(FirstOccurrences(requested)) <==> x in multiset(r.defined) || x in multiset(r.notDefined);
    }
  }

  lemma ExcusedBySolver(stops: nat -> bool, poll: nat, polls: nat, poll0: nat, polls1: nat, f: Formula, cands: seq<nat>,
                        answers: (nat, seq<Clause>, seq<Literal>) -> Status, call: nat, calls: nat)
    requires AppearingVars(f.clauses, cands) && Candidates(DualLayout(f.numVars, |cands|), cands)
    requires Excused(stops, poll, polls, answers, DualClauses(DualLayout(f.numVars, |cands|), cands, f.clauses),
                     call, calls)
    requires poll0 <= poll && polls <= polls1
    ensures GaveUpOn(f, answers, calls) || Bve.StoppedBetween(stops, poll0, polls1)
  {
    hide DualClauses;
    if GaveUpBetween(answers, DualClauses(DualLayout(f.numVars, |cands|), cands, f.clauses), call, calls) {
      assert GaveUpOnDual(f, cands, answers, calls);
    }
  }

  lemma GaveUpEarlier(f: Formula, answers: (nat, seq<Clause>, seq<Literal>) -> Status, calls: nat, more: nat)
    requires GaveUpOn(f, answers, calls) && calls <= more
    ensures GaveUpOn(f, answers, more)
  {
    hide DualClauses;
    var cands :| GaveUpOnDual(f, cands, answers, calls);
    assert GaveUpOnDual(f, cands, answers, more);
  }

  lemma {:induction false} NoneSettled(ordered: seq<nat>, statuses: seq<Status>, s: Status)
    requires |statuses| <= |ordered| && IdxsFit(ordered) && s !in statuses
    ensures Settled(ordered, statuses, s) == []
  {
    if statuses != [] { NoneSettled(ordered, statuses[..|statuses| - 1], s); }
  }

  lemma Room(f: Formula, cands: seq<nat>)
    requires RoomForDual(f) && AppearingVars(f.clauses, cands)
    ensures DualLayout(f.numVars, |cands|).Fits()
  {
  }

  method ClassifyPartitioned(f: Formula, show: ShowSet, hidden: seq<VarId>, p: Partitioned, layout: DualLayout,
                             clock: Bve.Clock,
                             solverAvailable: bool, answers: (nat, seq<Clause>, seq<Literal>) -> Status)
    returns (r: HiddenDefinability, ghost calls: nat)
    requires WellFormed(f) && PartitionHolds(f, show, hidden, p) && Distinct(hidden) && AllWithin(show, f.numVars)
    requires HardestOrder(p.ordered, IncidenceTable(f)) && forall v :: v in hidden ==> v !in show
    requires [] !in f.clauses
    requires layout == DualLayout(f.numVars, |p.candidates|) && layout.Fits()
    requires forall i :: 0 <= i < |p.candidates| ==> p.candidates[i] < f.numVars
    requires AnswersSoundly(answers) && Steady(clock)
    modifies clock
    ensures Classified(f.clauses, show, hidden, r) && Listed(f, hidden, r)
    ensures clock.polls >= old(clock.polls) && calls <= |hidden| + 1
    ensures r.unknown != [] ==>
              !solverAvailable || |f.clauses| > MAX_DUAL_CNF_CLAUSES || GaveUpOn(f, answers, calls)
              || Bve.StoppedBetween(clock.answers, old(clock.polls), clock.polls)
  {
    hide GaveUpOn, Excused, Bve.StoppedBetween;
    hide DefinedBy, AnswersSoundly, DualClauses, Settled, Classified, Truthful, Listed, HardestOrder, Without;
    SetupHolds(f, show, hidden, p, layout);
    var dual := BuildDualWithinBudget(f, layout, p.candidates, clock, solverAvailable, answers);
    if dual.None? {
      AbsentSettled(f, show, hidden, p, Undecided);
      GaveUpClassified(f, show, hidden, p, HiddenDefinability([], [], p.absent));
      GaveUpListed(f, show, hidden, p, HiddenDefinability([], [], p.absent));
      return HiddenDefinability([], [], p.absent + FromIdxs(p.ordered)), 0;
    }
    var solver := dual.value;
    ghost var built := clock.polls;
    var outcome := ResolveAbsentHidden(solver, clock, f, layout, p.candidates, p.absent);
    if outcome.AllVacuous? {
      VacuousClassified(f, show, hidden);
      return HiddenDefinability(hidden, [], []), solver.calls;
    }
    ghost var asked := clock.polls;
    if outcome.Undecided? {
      ExcusedBySolver(clock.answers, built, asked, old(clock.polls), asked, f, p.candidates, answers, 0, solver.calls);
    }
    AbsentSettled(f, show, hidden, p, outcome);
    var start := HiddenDefinability([], if outcome.Free? then p.absent else [],
                                    if outcome.Undecided? then p.absent else []);
    var spent := clock.Stopped();
    Bve.StopsJoin(clock.answers, old(clock.polls), asked, clock.polls);
    ghost var ready, called := clock.polls, solver.calls;
    if spent {
      GaveUpClassified(f, show, hidden, p, start);
      GaveUpListed(f, show, hidden, p, start);
      return start.(unknown := start.unknown + FromIdxs(p.ordered)), called;
    }
    ghost var statuses;
    r, statuses := ProbeOrderedHidden(solver, clock, f, show, layout, p, start);
    ProbedClassified(f, show, hidden, p, start, statuses, r);
    ProbedListed(f, show, hidden, p, start, statuses, r);
    calls := solver.calls;
    OrderedFewer(f, show, hidden, p);
    if GaveUpOn(f, answers, called) { GaveUpEarlier(f, answers, called, calls); }
    Bve.StopsJoin(clock.answers, old(clock.polls), ready, clock.polls);
    if Unknown in statuses {
      ExcusedBySolver(clock.answers, ready, clock.polls, old(clock.polls), clock.polls, f, p.candidates, answers,
                      called, solver.calls);
    } else {
      NoneSettled(p.ordered, statuses, Unknown);
    }
  }

  lemma VacuousClassified(f: Formula, show: seq<VarId>, hidden: seq<VarId>)
    requires [] in f.clauses || AbsentOf(f.clauses, hidden) != []
    requires forall a :: !Satisfies(a, f.clauses)
    ensures Classified(f.clauses, show, hidden, HiddenDefinability(hidden, [], []))
    ensures Listed(f, hidden, HiddenDefinability(hidden, [], []))
  {
  }

  lemma SetupHolds(f: Formula, show: ShowSet, hidden: seq<VarId>, p: Partitioned, layout: DualLayout)
    requires WellFormed(f) && PartitionHolds(f, show, hidden, p) && AllWithin(show, f.numVars)
    requires layout == DualLayout(f.numVars, |p.candidates|) && layout.Fits()
    requires forall i :: 0 <= i < |p.candidates| ==> p.candidates[i] < f.numVars
    ensures ProbeSetup(f, show, layout, p.candidates, p.appearingShow)
    ensures forall x :: x in p.ordered ==> x in p.candidates && x < MAX_VAR
  {
    forall i | 0 <= i < |p.appearingShow| ensures p.appearingShow[i] in p.candidates {
      assert Idx(FromIdx(p.appearingShow[i])) == p.appearingShow[i];
    }
    forall x | x in p.ordered ensures x in p.candidates && x < MAX_VAR {
      assert Idx(FromIdx(x)) == x;
    }
  }
}
