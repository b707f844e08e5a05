/** Bounded elimination of projected variables: the worklist over a clause store with live flags and
    lazily purged occurrence lists, which a deadline may cut off at any poll. */
module Bve {
  import opened Wrappers
  import opened Sequences
  import opened Cnf
  import opened Occ
  import opened Elimination
  import opened ShowSets

  /** The deadline, read as an arbitrary answer for each time it is asked. */
  class Clock {
    const answers: nat -> bool
    var polls: nat

    constructor (answers: nat -> bool)
      ensures this.answers == answers && polls == 0
    {
      this.answers := answers;
      polls := 0;
    }

    method Stopped() returns (stopped: bool)
      modifies this
      ensures polls == old(polls) + 1
      ensures stopped == answers(old(polls))
      ensures stopped <==> StoppedBetween(answers, old(polls), polls)
    {
      stopped := answers(polls);
      polls := polls + 1;
    }
  }

  /** Some poll from number `from` on and before number `to` was answered stop. */
  ghost predicate StoppedBetween(answers: nat -> bool, from: nat, to: nat) {
    exists k: nat :: from <= k < to && answers(k)
  }

  lemma StopsJoin(answers: nat -> bool, from: nat, middle: nat, to: nat)
    requires from <= middle <= to
    ensures StoppedBetween(answers, from, to)
        <==> StoppedBetween(answers, from, middle) || StoppedBetween(answers, middle, to)
    ensures !StoppedBetween(answers, from, from)
  {
  }

  // ---- the clause store, on values ----

  /** The live clauses, in store order: what the pass would return if it stopped now. */
  function LiveClauses(clauses: seq<Clause>, live: seq<bool>): seq<Clause>
    requires |live| == |clauses|
  {
    if clauses == [] then []
    else
      var n := |clauses| - 1;
      LiveClauses(clauses[..n], live[..n]) + (if live[n] then [clauses[n]] else [])
  }

  lemma {:induction false} LiveMembers(clauses: seq<Clause>, live: seq<bool>)
    requires |live| == |clauses|
    ensures forall c ::
              c in LiveClauses(clauses, live) <==> exists i: nat :: i < |clauses| && live[i] && clauses[i] == c
  {
    if clauses != [] {
      var n := |clauses| - 1;
      LiveMembers(clauses[..n], live[..n]);
      assert forall i: nat :: i < n ==> clauses[..n][i] == clauses[i] && live[..n][i] == live[i];
    }
  }

  /** The list without the indices of dead clauses. */
  function Purge(occ: seq<nat>, live: seq<bool>): seq<nat> {
    if occ == [] then []
    else
      var last := occ[|occ| - 1];
      Purge(occ[..|occ| - 1], live) + (if last < |live| && live[last] then [last] else [])
  }

  lemma {:induction false} PurgeMembers(occ: seq<nat>, live: seq<bool>)
    ensures forall i: nat :: i in Purge(occ, live) <==> i in occ && i < |live| && live[i]
  {
    if occ != [] {
      PurgeMembers(occ[..|occ| - 1], live);
      assert occ == occ[..|occ| - 1] + [occ[|occ| - 1]];
    }
  }

  /** Each list, once purged, is the live part of the true occurrence list. */
  ghost predicate OccurrencesAgree(clauses: seq<Clause>, live: seq<bool>, pos: seq<seq<nat>>, neg: seq<seq<nat>>,
                                   numVars: nat) {
    && |pos| == |neg| == numVars
    && forall l: Literal :: Idx(l.v) < numVars ==>
        && Purge(ListOf(pos, neg, l), live) == Purge(OccurrencesOf(clauses, l), live)
        && forall i: nat :: i in ListOf(pos, neg, l) ==> i < |clauses|
  }

  lemma {:induction false} PurgeConcat(a: seq<nat>, b: seq<nat>, live: seq<bool>)
    ensures Purge(a + b, live) == Purge(a, live) + Purge(b, live)
  {
    if b == [] {
      assert a + b == a;
    } else {
      PurgeConcat(a, b[..|b| - 1], live);
      assert (a + b)[..|a + b| - 1] == a + b[..|b| - 1];
    }
  }

  /** Purging again after more clauses died is purging once with the later flags. */
  lemma {:induction false} PurgeTwice(occ: seq<nat>, live: seq<bool>, live': seq<bool>)
    requires |live'| == |live| && forall i :: 0 <= i < |live| ==> (live'[i] ==> live[i])
    ensures Purge(Purge(occ, live), live') == Purge(occ, live')
  {
    if occ != [] {
      var front, last := occ[..|occ| - 1], occ[|occ| - 1];
      PurgeTwice(front, live, live');
      var tail := if last < |live| && live[last] then [last] else [];
      PurgeConcat(Purge(front, live), tail, live');
      assert Purge(tail, live') == (if last < |live'| && live'[last] then [last] else []);
    }
  }

  /** Appending flags changes nothing for indices the old flags cover. */
  lemma {:induction false} PurgeExtended(occ: seq<nat>, live: seq<bool>, more: seq<bool>)
    requires forall i: nat :: i in occ ==> i < |live|
    ensures Purge(occ, live + more) == Purge(occ, live)
  {
    if occ != [] {
      var front, last := occ[..|occ| - 1], occ[|occ| - 1];
      assert last in occ;
      forall i: nat | i in front ensures i < |live| { assert i in occ; }
      PurgeExtended(front, live, more);
    }
  }

  /** In a canonical clause a literal is written at most once. */
  lemma {:induction false} CanonicalMultiplicity(c: Clause, l: Literal)
    requires Canonical(c)
    ensures multiset(c)[l] == (if l in c then 1 else 0)
  {
    if c != [] {
      var n := |c| - 1;
      CanonicalMultiplicity(c[..n], l);
      assert c == c[..n] + [c[n]];
      if l == c[n] {
        forall i | 0 <= i < n ensures c[i] != l { assert c[i].v < c[n].v; }
      }
    }
  }

  /** The purged list of a literal is as long as its count over the live clauses. */
  lemma {:induction false} PurgedLength(clauses: seq<Clause>, live: seq<bool>, l: Literal)
    requires |live| == |clauses| && AllCanonical(clauses)
    ensures |Purge(OccurrencesOf(clauses, l), live)| == CountWith(LiveClauses(clauses, live), l)
  {
    if clauses != [] {
      var n := |clauses| - 1;
      var front, flags := clauses[..n], live[..n];
      PurgedLength(front, flags, l);
      OccurrencesMembers(front, l);
      assert live == flags + [live[n]];
      PurgeExtended(OccurrencesOf(front, l), flags, [live[n]]);
      CanonicalMultiplicity(clauses[n], l);
      var tail := Repeat(n, multiset(clauses[n])[l]);
      PurgeConcat(OccurrencesOf(front, l), tail, live);
      assert tail == (if l in clauses[n] then [n] else []);
      assert |Purge(tail, live)| == (if l in clauses[n] && live[n] then 1 else 0);
      var kept: seq<Clause> := if live[n] then [clauses[n]] else [];
      CountWithConcat(LiveClauses(front, flags), kept, l);
      assert kept != [] ==> kept[..0] == [];
    }
  }

  /** The purged list of a literal names exactly the live clauses that hold it. */
  lemma PurgedMembers(clauses: seq<Clause>, live: seq<bool>, l: Literal)
    requires |live| == |clauses|
    ensures forall i: nat ::
              i in Purge(OccurrencesOf(clauses, l), live) <==> i < |clauses| && live[i] && l in clauses[i]
  {
    PurgeMembers(OccurrencesOf(clauses, l), live);
    OccurrencesMembers(clauses, l);
  }

  /** The flags after every clause of `v` died. */
  ghost predicate Retired(clauses: seq<Clause>, live: seq<bool>, live': seq<bool>, v: VarId)
    requires |live| == |clauses|
  {
    |live'| == |live| && forall i :: 0 <= i < |live| ==> live'[i] == (live[i] && !Mentions(clauses[i], v))
  }

  lemma {:induction false} RetiredClauses(clauses: seq<Clause>, live: seq<bool>, live': seq<bool>, v: VarId)
    requires |live| == |clauses| && Retired(clauses, live, live', v)
    ensures LiveClauses(clauses, live') == Keep(LiveClauses(clauses, live), v)
  {
    if clauses != [] {
      var n := |clauses| - 1;
      RetiredClauses(clauses[..n], live[..n], live'[..n], v);
      var l := LiveClauses(clauses, live);
      if live[n] {
        assert l[..|l| - 1] == LiveClauses(clauses[..n], live[..n]);
      } else {
        assert l == LiveClauses(clauses[..n], live[..n]);
      }
    }
  }

  /** No live clause is left for a literal of `v` to occur in. */
  lemma RetiredOwnList(clauses: seq<Clause>, live: seq<bool>, live': seq<bool>, v: VarId, l: Literal)
    requires |live| == |clauses| && Retired(clauses, live, live', v) && l.v == v
    ensures Purge(OccurrencesOf(clauses, l), live') == []
  {
    hide OccurrencesOf, Purge;
    PurgedMembers(clauses, live', l);
    EmptyOrMember(Purge(OccurrencesOf(clauses, l), live'));
    assert l == Literal(v, true) || l == Literal(v, false);
  }

  /** The list of another variable's literal is untouched, and the flags only went down. */
  lemma RetiredOtherList(clauses: seq<Clause>, live: seq<bool>, live': seq<bool>, v: VarId, list: seq<nat>, l: Literal)
    requires |live| == |clauses| && Retired(clauses, live, live', v)
    requires Purge(list, live) == Purge(OccurrencesOf(clauses, l), live)
    ensures Purge(list, live') == Purge(OccurrencesOf(clauses, l), live')
  {
    hide OccurrencesOf, Purge;
    PurgeTwice(list, live, live');
    PurgeTwice(OccurrencesOf(clauses, l), live, live');
  }

  /** Emptying the lists of `v` and killing its clauses keeps the lists in agreement. */
  lemma RetiredOccurrences(clauses: seq<Clause>, live: seq<bool>, live': seq<bool>, v: VarId,
                           pos: seq<seq<nat>>, neg: seq<seq<nat>>, numVars: nat)
    requires |live| == |clauses| && Retired(clauses, live, live', v)
    requires OccurrencesAgree(clauses, live, pos, neg, numVars) && Idx(v) < numVars
    ensures OccurrencesAgree(clauses, live', pos[Idx(v) := []], neg[Idx(v) := []], numVars)
  {
    assert Purge([], live') == [];
    hide OccurrencesOf, Purge, Retired;
    var pos', neg' := pos[Idx(v) := []], neg[Idx(v) := []];
    forall l: Literal | Idx(l.v) < numVars
      ensures Purge(ListOf(pos', neg', l), live') == Purge(OccurrencesOf(clauses, l), live')
      ensures forall i: nat :: i in ListOf(pos', neg', l) ==> i < |clauses|
    {
      if l.v == v {
        assert ListOf(pos', neg', l) == [];
        RetiredOwnList(clauses, live, live', v, l);
      } else {
        assert ListOf(pos', neg', l) == ListOf(pos, neg, l);
        RetiredOtherList(clauses, live, live', v, ListOf(pos, neg, l), l);
      }
    }
  }

  lemma EmptyOrMember(s: seq<nat>)
    ensures s == [] || exists i: nat :: i in s
  {
    if s != [] { assert s[0] in s; }
  }

  /** A fresh live clause, entered once in the list of each of its literals. */
  lemma AppendedOccurrences(clauses: seq<Clause>, live: seq<bool>, pos: seq<seq<nat>>, neg: seq<seq<nat>>, numVars: nat,
                            c: Clause, pos': seq<seq<nat>>, neg': seq<seq<nat>>)
    requires |live| == |clauses| && Canonical(c)
    requires OccurrencesAgree(clauses, live, pos, neg, numVars)
    requires EnteredFrom(pos, neg, pos', neg', numVars, c, |clauses|)
    ensures OccurrencesAgree(clauses + [c], live + [true], pos', neg', numVars)
  {
    var clauses', live' := clauses + [c], live + [true];
    var n := |clauses|;
    forall l: Literal | Idx(l.v) < numVars
      ensures Purge(ListOf(pos', neg', l), live') == Purge(OccurrencesOf(clauses', l), live')
      ensures forall i: nat :: i in ListOf(pos', neg', l) ==> i < |clauses'|
    {
      CanonicalMultiplicity(c, l);
      var tail: seq<nat> := if l in c then [n] else [];
      assert clauses'[..n] == clauses && Repeat(n, multiset(c)[l]) == tail;
      OccurrencesMembers(clauses, l);
      PurgeConcat(ListOf(pos, neg, l), tail, live');
      PurgeConcat(OccurrencesOf(clauses, l), tail, live');
      PurgeExtended(ListOf(pos, neg, l), live, [true]);
      PurgeExtended(OccurrencesOf(clauses, l), live, [true]);
    }
  }

  /** The tables after index `ci` was pushed once for each literal of `part`. */
  ghost predicate EnteredFrom(pos: seq<seq<nat>>, neg: seq<seq<nat>>, pos': seq<seq<nat>>, neg': seq<seq<nat>>,
                              numVars: nat, part: Clause, ci: nat) {
    && |pos| == |neg| == |pos'| == |neg'| == numVars
    && forall l: Literal :: Idx(l.v) < numVars ==>
        ListOf(pos', neg', l) == ListOf(pos, neg, l) + (if l in part then [ci] else [])
  }

  lemma EnteredOneMore(pos: seq<seq<nat>>, neg: seq<seq<nat>>, pos': seq<seq<nat>>, neg': seq<seq<nat>>, numVars: nat,
                       part: Clause, ci: nat, lit: Literal)
    requires EnteredFrom(pos, neg, pos', neg', numVars, part, ci) && lit !in part
    ensures EnteredFrom(pos, neg, if lit.positive then Enter(pos', Idx(lit.v), ci) else pos',
                        if lit.positive then neg' else Enter(neg', Idx(lit.v), ci), numVars, part + [lit], ci)
  {
    forall l: Literal ensures l in part + [lit] <==> l in part || l == lit {
    }
  }

  /** The resolvents of the pairs an enumeration has visited: all of the first `i` rows and the
      first `j` pairs of row `i`. */
  ghost function Visited(clauses: seq<Clause>, pos: seq<nat>, neg: seq<nat>, v: VarId, i: nat, j: nat): set<Clause> {
    set x: nat, y: nat | x < |pos| && y < |neg| && (x < i || (x == i && y < j))
      && pos[x] < |clauses| && neg[y] < |clauses| && Resolve(clauses[pos[x]], clauses[neg[y]], v).Some?
      :: Resolve(clauses[pos[x]], clauses[neg[y]], v).value
  }

  /** The resolvents found through the index lists. */
  ghost function PairResolvents(clauses: seq<Clause>, pos: seq<nat>, neg: seq<nat>, v: VarId): set<Clause> {
    Visited(clauses, pos, neg, v, |pos|, 0)
  }

  lemma VisitOne(clauses: seq<Clause>, pos: seq<nat>, neg: seq<nat>, v: VarId, i: nat, j: nat)
    requires i < |pos| && j < |neg| && pos[i] < |clauses| && neg[j] < |clauses|
    ensures Visited(clauses, pos, neg, v, i, j + 1)
         == Visited(clauses, pos, neg, v, i, j)
          + (match Resolve(clauses[pos[i]], clauses[neg[j]], v) case Some(r) => {r} case None => {})
  {
    var before := Visited(clauses, pos, neg, v, i, j);
    var after := Visited(clauses, pos, neg, v, i, j + 1);
    forall c | c in after && c !in before
      ensures Resolve(clauses[pos[i]], clauses[neg[j]], v) == Some(c)
    {
      var x: nat, y: nat :| x < |pos| && y < |neg| && (x < i || (x == i && y < j + 1))
        && pos[x] < |clauses| && neg[y] < |clauses| && Resolve(clauses[pos[x]], clauses[neg[y]], v).Some?
        && Resolve(clauses[pos[x]], clauses[neg[y]], v).value == c;
      assert x == i && y == j;
    }
  }

  lemma PairResolventsAreAll(clauses: seq<Clause>, live: seq<bool>, pos: seq<nat>, neg: seq<nat>, v: VarId)
    requires |live| == |clauses|
    requires forall i: nat :: i in pos <==> i < |clauses| && live[i] && Literal(v, true) in clauses[i]
    requires forall i: nat :: i in neg <==> i < |clauses| && live[i] && Literal(v, false) in clauses[i]
    ensures PairResolvents(clauses, pos, neg, v) == ResolventSet(LiveClauses(clauses, live), v)
  {
    var cs := LiveClauses(clauses, live);
    LiveMembers(clauses, live);
    forall r | r in ResolventSet(cs, v) ensures r in PairResolvents(clauses, pos, neg, v) {
      var p, q :| p in cs && q in cs && Literal(v, true) in p && Literal(v, false) in q
        && Resolve(p, q, v).Some? && Resolve(p, q, v).value == r;
      var i: nat :| i < |clauses| && live[i] && clauses[i] == p;
      var j: nat :| j < |clauses| && live[j] && clauses[j] == q;
      assert i in pos && j in neg;
      var x: nat :| x < |pos| && pos[x] == i;
      var y: nat :| y < |neg| && neg[y] == j;
      assert Resolve(clauses[pos[x]], clauses[neg[y]], v).value == r;
    }
    forall r | r in PairResolvents(clauses, pos, neg, v) ensures r in ResolventSet(cs, v) {
      var x: nat, y: nat :| x < |pos| && y < |neg| && pos[x] < |clauses| && neg[y] < |clauses|
        && Resolve(clauses[pos[x]], clauses[neg[y]], v).Some?
            && Resolve(clauses[pos[x]], clauses[neg[y]], v).value == r;
      assert pos[x] in pos && neg[y] in neg;
      assert clauses[pos[x]] in cs && clauses[neg[y]] in cs;
    }
  }

  // ---- the worklist ----

  /** The queue holds distinct unshown variables, each flagged; `waiting` is what was taken off it
      and not yet looked at. */
  ghost predicate QueueAgrees(queue: seq<nat>, queued: seq<bool>, show: ShowMask, numVars: nat, waiting: set<nat>)
    requires numVars <= MAX_VAR
  {
    && |queued| == numVars
    && Distinct(queue)
    && (forall w: nat :: w in queue ==> w < numVars && !IsShow(show, FromIdx(w)) && w !in waiting)
    && (forall w: nat :: w < numVars ==> (queued[w] <==> w in queue || w in waiting))
  }

  /** Everything not flagged is settled: gone from the clauses, or blocked by the bound. */
  ghost predicate Settled(cs: seq<Clause>, queued: seq<bool>, show: ShowMask, numVars: nat, except: set<nat>)
    requires numVars <= MAX_VAR && |queued| == numVars
  {
    forall w: nat ::
      w < numVars && w !in except && !IsShow(show, FromIdx(w)) && !queued[w] && Occurs(cs, FromIdx(w)) ==>
        Blocked(cs, FromIdx(w))
  }

  /** The unshown variables still in use. */
  ghost function Open(cs: seq<Clause>, show: ShowMask, numVars: nat): set<nat>
    requires numVars <= MAX_VAR
  {
    set w: nat | w < numVars && !IsShow(show, FromIdx(w)) && Occurs(cs, FromIdx(w))
  }

  /** The three ways an enumeration ends. */
  datatype Resolvents =
    | Fit(resolvents: seq<Clause>)
    | Grow
    | OutOfTime

  /** The clock is read once per this many pairs. */
  const POLL_PAIRS: nat := 1024

  /** Collects resolvents pair by pair; gives up once there are too many of them, or when a poll says stop. */
  method EnumerateResolvents(clauses: seq<Clause>, pos: seq<nat>, neg: seq<nat>, v: VarId, clock: Clock)
    returns (r: Resolvents)
    requires AllCanonical(clauses)
    requires forall i: nat :: i in pos || i in neg ==> i < |clauses|
    modifies clock
    ensures clock.polls >= old(clock.polls)
    ensures r.Fit? ==> Distinct(r.resolvents) && ToSet(r.resolvents) == PairResolvents(clauses, pos, neg, v)
    ensures r.Fit? ==> |r.resolvents| <= |pos| + |neg|
    ensures r.Grow? ==> |PairResolvents(clauses, pos, neg, v)| > |pos| + |neg|
    ensures r.OutOfTime? <==> StoppedBetween(clock.answers, old(clock.polls), clock.polls)
  {
    hide StoppedBetween, Collected, Visited, PairResolvents;
    StopsJoin(clock.answers, clock.polls, clock.polls, clock.polls);
    var k := |pos| + |neg|;
    NothingVisited(clauses, pos, neg, v, k);
    var seen: set<Clause> := {};
    var resolvents: seq<Clause> := [];
    var pairs := 0;
    for i := 0 to |pos|
      invariant Collected(resolvents, seen, Visited(clauses, pos, neg, v, i, 0), k)
      invariant clock.polls >= old(clock.polls) && !StoppedBetween(clock.answers, old(clock.polls), clock.polls)
    {
      for j := 0 to |neg|
        invariant Collected(resolvents, seen, Visited(clauses, pos, neg, v, i, j), k)
        invariant clock.polls >= old(clock.polls) && !StoppedBetween(clock.answers, old(clock.polls), clock.polls)
      {
        pairs := pairs + 1;
        if pairs % POLL_PAIRS == 0 {
          ghost var polled := clock.polls;
          var stopped := clock.Stopped();
          StopsJoin(clock.answers, old(clock.polls), polled, clock.polls);
          if stopped { return OutOfTime; }
        }
        assert pos[i] in pos && neg[j] in neg;
        var res := ResolveSorted(clauses[pos[i]], clauses[neg[j]], v);
        Collect(clauses, pos, neg, v, i, j, resolvents, seen, k);
        if res.Some? && res.value !in seen {
          resolvents, seen := resolvents + [res.value], seen + {res.value};
          if |resolvents| > k {
            MoreThanAll(clauses, pos, neg, v, i, j + 1, resolvents, seen, k);
            return Grow;
          }
          StillFits(resolvents, seen, Visited(clauses, pos, neg, v, i, j + 1), k);
        }
      }
      RowVisited(clauses, pos, neg, v, i);
    }
    AllCollected(clauses, pos, neg, v, resolvents, seen, k);
    return Fit(resolvents);
  }

  /** The list and the set the enumeration keeps hold exactly what it visited. */
  ghost predicate Collected(resolvents: seq<Clause>, seen: set<Clause>, visited: set<Clause>, k: nat) {
    Distinct(resolvents) && ToSet(resolvents) == seen == visited && |resolvents| <= k
  }

  /** Visiting one pair: a resolvent not met before is collected, anything else changes nothing. */
  lemma Collect(clauses: seq<Clause>, pos: seq<nat>, neg: seq<nat>, v: VarId, i: nat, j: nat,
                resolvents: seq<Clause>, seen: set<Clause>, k: nat)
    requires i < |pos| && j < |neg| && pos[i] < |clauses| && neg[j] < |clauses|
    requires Collected(resolvents, seen, Visited(clauses, pos, neg, v, i, j), k)
    ensures var res := Resolve(clauses[pos[i]], clauses[neg[j]], v);
            var visited := Visited(clauses, pos, neg, v, i, j + 1);
            if res.Some? && res.value !in seen
            then Collected(resolvents + [res.value], seen + {res.value}, visited, k + 1)
            else Collected(resolvents, seen, visited, k)
  {
    VisitOne(clauses, pos, neg, v, i, j);
    var res := Resolve(clauses[pos[i]], clauses[neg[j]], v);
    if res.Some? && res.value !in seen { CollectOne(resolvents, seen, res.value); }
  }

  lemma CollectOne(resolvents: seq<Clause>, seen: set<Clause>, r: Clause)
    requires Distinct(resolvents) && ToSet(resolvents) == seen && r !in seen
    ensures Distinct(resolvents + [r]) && ToSet(resolvents + [r]) == seen + {r}
  {
    assert forall i :: 0 <= i < |resolvents| ==> resolvents[i] in ToSet(resolvents);
  }

  lemma NothingVisited(clauses: seq<Clause>, pos: seq<nat>, neg: seq<nat>, v: VarId, k: nat)
    ensures Collected([], {}, Visited(clauses, pos, neg, v, 0, 0), k)
  {
  }

  lemma RowVisited(clauses: seq<Clause>, pos: seq<nat>, neg: seq<nat>, v: VarId, i: nat)
    ensures Visited(clauses, pos, neg, v, i, |neg|) == Visited(clauses, pos, neg, v, i + 1, 0)
  {
  }

  lemma StillFits(resolvents: seq<Clause>, seen: set<Clause>, visited: set<Clause>, k: nat)
    requires Collected(resolvents, seen, visited, k + 1) && |resolvents| <= k
    ensures Collected(resolvents, seen, visited, k)
  {
  }

  lemma AllCollected(clauses: seq<Clause>, pos: seq<nat>, neg: seq<nat>, v: VarId,
                     resolvents: seq<Clause>, seen: set<Clause>, k: nat)
    requires Collected(resolvents, seen, Visited(clauses, pos, neg, v, |pos|, 0), k)
    ensures Distinct(resolvents) && ToSet(resolvents) == PairResolvents(clauses, pos, neg, v) && |resolvents| <= k
  {
  }

  lemma MoreThanAll(clauses: seq<Clause>, pos: seq<nat>, neg: seq<nat>, v: VarId, i: nat, j: nat,
                    resolvents: seq<Clause>, seen: set<Clause>, k: nat)
    requires i < |pos| && Collected(resolvents, seen, Visited(clauses, pos, neg, v, i, j), k + 1) && |resolvents| > k
    ensures |PairResolvents(clauses, pos, neg, v)| > k
  {
    DistinctCardinality(resolvents);
    assert Visited(clauses, pos, neg, v, i, j) <= Visited(clauses, pos, neg, v, |pos|, 0);
    SubsetCardinality(seen, PairResolvents(clauses, pos, neg, v));
  }

  lemma SubsetCardinality<T>(a: set<T>, b: set<T>)
    requires a <= b
    ensures |a| <= |b|
  {
    assert b == a + (b - a);
  }

  // ---- state changes, on values ----

  lemma {:induction false} AllLive(clauses: seq<Clause>, live: seq<bool>)
    requires |live| == |clauses| && forall i :: 0 <= i < |live| ==> live[i]
    ensures LiveClauses(clauses, live) == clauses
  {
    if clauses != [] {
      AllLive(clauses[..|clauses| - 1], live[..|live| - 1]);
    }
  }

  lemma LiveAppend(clauses: seq<Clause>, live: seq<bool>, c: Clause)
    requires |live| == |clauses|
    ensures LiveClauses(clauses + [c], live + [true]) == LiveClauses(clauses, live) + [c]
  {
    assert (clauses + [c])[..|clauses|] == clauses && (live + [true])[..|live|] == live;
  }

  /** The source's filtered clause list: each clause normalized, tautologies gone. */
  function NormalizeAll(cs: seq<Clause>): seq<Clause> {
    if cs == [] then []
    else
      NormalizeAll(cs[..|cs| - 1])
      + (match Normalize(cs[|cs| - 1]) case Some(c) => [c] case None => [])
  }

  lemma {:induction false} NormalizeAllMembers(cs: seq<Clause>)
    ensures forall c :: c in NormalizeAll(cs) <==> exists d :: d in cs && Normalize(d) == Some(c)
    ensures |NormalizeAll(cs)| <= |cs|
  {
    if cs != [] {
      var front, last := cs[..|cs| - 1], cs[|cs| - 1];
      NormalizeAllMembers(front);
      assert forall d :: d in cs <==> d in front || d == last;
    }
  }

  lemma NormalizeAllMeaning(cs: seq<Clause>, n: nat)
    ensures AllCanonical(NormalizeAll(cs)) && |NormalizeAll(cs)| <= |cs|
    ensures AllInRange(cs, n) ==> AllInRange(NormalizeAll(cs), n)
    ensures forall a: Assignment :: Satisfies(a, NormalizeAll(cs)) == Satisfies(a, cs)
  {
    NormalizeAllMembers(cs);
    forall c | c in NormalizeAll(cs) ensures Canonical(c) && (AllInRange(cs, n) ==> InRange(c, n)) {
      var d :| d in cs && Normalize(d) == Some(c);
      NormalizeMeaning(d);
    }
    forall a: Assignment ensures Satisfies(a, NormalizeAll(cs)) == Satisfies(a, cs) {
      forall d | d in cs
        ensures ClauseTrue(a, d) == (Normalize(d).Some? ==> ClauseTrue(a, Normalize(d).value))
        ensures Normalize(d).Some? ==> Normalize(d).value in NormalizeAll(cs)
      {
        NormalizeKeepsModels(a, d);
      }
    }
  }

  /** A clause whose other unshown variables all wait in the queue. */
  ghost predicate Touched(c: Clause, v: VarId, show: ShowMask, queued: seq<bool>) {
    forall l :: l in c && l.v != v ==> IsShow(show, l.v) || (Idx(l.v) < |queued| && queued[Idx(l.v)])
  }

  /** Every variable of every clause of the list waits in the queue, or is shown. */
  ghost predicate Waiting(cs: seq<Clause>, show: ShowMask, queued: seq<bool>) {
    forall c, l :: c in cs && l in c ==> IsShow(show, l.v) || (Idx(l.v) < |queued| && queued[Idx(l.v)])
  }

  lemma WaitingMore(part: Clause, l: Literal, show: ShowMask, queued: seq<bool>, queued': seq<bool>)
    requires Waiting([part], show, queued) && Grown(queued, queued') && Idx(l.v) < |queued|
    requires IsShow(show, l.v) || queued'[Idx(l.v)]
    ensures Waiting([part + [l]], show, queued')
  {
    forall m | m in part + [l] ensures IsShow(show, m.v) || (Idx(m.v) < |queued'| && queued'[Idx(m.v)]) {
      assert part in [part];
    }
  }

  /** What a retirement has killed so far mentioned `v`, and has had its other variables re-queued. */
  ghost predicate KilledTouched(clauses: seq<Clause>, was: seq<bool>, live: seq<bool>, v: VarId, show: ShowMask,
                                queued: seq<bool>)
    requires |was| == |live| == |clauses|
  {
    forall i: nat :: i < |was| ==>
      && (live[i] ==> was[i])
      && (was[i] && !live[i] ==> Mentions(clauses[i], v) && Touched(clauses[i], v, show, queued))
  }

  lemma KillOne(clauses: seq<Clause>, was: seq<bool>, live: seq<bool>, i: nat, v: VarId, show: ShowMask,
                queued: seq<bool>, queued': seq<bool>)
    requires |was| == |live| == |clauses| && i < |clauses|
    requires KilledTouched(clauses, was, live, v, show, queued) && Grown(queued, queued')
    requires was[i] && Mentions(clauses[i], v) && Touched(clauses[i], v, show, queued')
    ensures KilledTouched(clauses, was, live[i := false], v, show, queued')
  {
    forall j: nat | j < |was| && was[j] && !live[j] ensures Touched(clauses[j], v, show, queued') {
      assert Touched(clauses[j], v, show, queued);
    }
  }

  lemma KilledAll(clauses: seq<Clause>, was: seq<bool>, live: seq<bool>, toKill: seq<nat>, v: VarId, show: ShowMask,
                  queued: seq<bool>)
    requires |was| == |live| == |clauses|
    requires KilledTouched(clauses, was, live, v, show, queued)
    requires forall i: nat :: i in toKill <==> i < |clauses| && was[i] && Mentions(clauses[i], v)
    requires forall m: nat :: m < |toKill| ==> toKill[m] < |live| && !live[toKill[m]]
    ensures Retired(clauses, was, live, v)
    ensures forall c :: c in LiveClauses(clauses, was) && Mentions(c, v) ==> Touched(c, v, show, queued)
  {
    LiveMembers(clauses, was);
    forall i: nat | i < |was| && was[i] && Mentions(clauses[i], v) ensures !live[i] {
      assert i in toKill;
      var m: nat :| m < |toKill| && toKill[m] == i;
    }
  }

  ghost predicate Grown(queued: seq<bool>, queued': seq<bool>) {
    |queued'| == |queued| && forall w :: 0 <= w < |queued| ==> (queued[w] ==> queued'[w])
  }

  /** After an elimination only touched variables can have changed, so everything else stays settled. */
  lemma SettledAfter(cs: seq<Clause>, v: VarId, resolvents: seq<Clause>, show: ShowMask, numVars: nat,
                     queued: seq<bool>, queued': seq<bool>)
    requires numVars <= MAX_VAR && |queued| == numVars && Grown(queued, queued')
    requires Settled(cs, queued, show, numVars, {Idx(v)})
    requires forall c :: c in cs && Mentions(c, v) ==> Touched(c, v, show, queued')
    requires forall c :: c in resolvents ==> Touched(c, v, show, queued') && !Mentions(c, v)
    ensures Settled(Keep(cs, v) + resolvents, queued', show, numVars, {})
    ensures !Occurs(Keep(cs, v) + resolvents, v)
  {
    hide Touched, Keep, Blocked, Mentions;
    forall w: nat | w < numVars && !IsShow(show, FromIdx(w)) && !queued'[w]
        && Occurs(Keep(cs, v) + resolvents, FromIdx(w))
      ensures Blocked(Keep(cs, v) + resolvents, FromIdx(w))
    {
      if FromIdx(w) != v { UntouchedUnchanged(cs, v, resolvents, show, queued', FromIdx(w)); }
    }
  }

  lemma UntouchedUnchanged(cs: seq<Clause>, v: VarId, resolvents: seq<Clause>, show: ShowMask, queued: seq<bool>,
                           w: VarId)
    requires w != v && !IsShow(show, w) && Idx(w) < |queued| && !queued[Idx(w)]
    requires forall c :: c in cs && Mentions(c, v) ==> Touched(c, v, show, queued)
    requires forall c :: c in resolvents ==> Touched(c, v, show, queued)
    ensures Blocked(Keep(cs, v) + resolvents, w) == Blocked(cs, w)
    ensures Occurs(Keep(cs, v) + resolvents, w) == Occurs(cs, w)
  {
    forall c | Touched(c, v, show, queued) ensures !Mentions(c, w) {
      assert Literal(w, true) !in c && Literal(w, false) !in c;
    }
    BlockedUnchanged(cs, v, resolvents, w);
  }

  /** One step on `v` leaves the formula alone or eliminates `v` from it exactly. */
  ghost predicate Advances(before: seq<Clause>, after: seq<Clause>, v: VarId) {
    || after == before
    || (Eliminates(before, after, v) && Occurs(before, v) && !Occurs(after, v))
  }

  lemma AdvancesBy(before: seq<Clause>, v: VarId, resolvents: seq<Clause>, n: nat)
    requires AllCanonical(before) && Occurs(before, v)
    requires ToSet(resolvents) == ResolventSet(before, v)
    ensures Advances(before, Keep(before, v) + resolvents, v)
    ensures |resolvents| <= Degree(before, v) ==> |Keep(before, v) + resolvents| <= |before|
    ensures forall c :: c in resolvents ==> !Mentions(c, v) && Canonical(c)
    ensures AllInRange(before, n) ==> AllInRange(resolvents, n)
  {
    forall c | c in resolvents
      ensures !Mentions(c, v) && Canonical(c)
      ensures AllInRange(before, n) ==> InRange(c, n)
    {
      assert c in ToSet(resolvents);
      ResolventVars(before, v, c);
      if AllInRange(before, n) { ResolventInRange(before, v, c, n); }
    }
    KeepLength(before, v);
    assert forall c :: c in resolvents <==> c in ToSet(resolvents);
  }

  /** A variable with one polarity only has no resolvents. */
  lemma PureHasNoResolvents(cs: seq<Clause>, v: VarId)
    requires CountWith(cs, Literal(v, true)) == 0 || CountWith(cs, Literal(v, false)) == 0
    ensures ResolventSet(cs, v) == {}
  {
    CountWithPositive(cs, Literal(v, true));
    CountWithPositive(cs, Literal(v, false));
  }

  lemma CanonicalPrefix(c: Clause, k: nat)
    requires Canonical(c) && k < |c|
    ensures c[k] !in c[..k]
  {
    forall i | 0 <= i < k ensures c[i] != c[k] { assert c[i].v < c[k].v; }
  }

  lemma FreshOccurrences(cs: seq<Clause>, live: seq<bool>, pos: seq<seq<nat>>, neg: seq<seq<nat>>, numVars: nat)
    requires |pos| == |neg| == numVars
    requires forall l: Literal :: Idx(l.v) < numVars ==> ListOf(pos, neg, l) == OccurrencesOf(cs, l)
    ensures OccurrencesAgree(cs, live, pos, neg, numVars)
  {
    forall l: Literal | Idx(l.v) < numVars ensures forall i: nat :: i in ListOf(pos, neg, l) ==> i < |cs| {
      OccurrencesMembers(cs, l);
    }
  }

  lemma UnlistedDoesNotOccur(cs: seq<Clause>, v: VarId)
    requires OccurrencesOf(cs, Literal(v, true)) == [] && OccurrencesOf(cs, Literal(v, false)) == []
    ensures !Occurs(cs, v)
  {
    OccurrencesMembers(cs, Literal(v, true));
    OccurrencesMembers(cs, Literal(v, false));
    forall c | c in cs ensures !Mentions(c, v) {
      var i: nat :| i < |cs| && cs[i] == c;
      assert i !in OccurrencesOf(cs, Literal(v, true)) && i !in OccurrencesOf(cs, Literal(v, false));
    }
  }

  lemma PurgedOccurrences(clauses: seq<Clause>, live: seq<bool>, pos: seq<seq<nat>>, neg: seq<seq<nat>>, numVars: nat,
                          v: VarId)
    requires |live| == |clauses| && OccurrencesAgree(clauses, live, pos, neg, numVars) && Idx(v) < numVars
    ensures OccurrencesAgree(clauses, live, pos[Idx(v) := Purge(pos[Idx(v)], live)],
                             neg[Idx(v) := Purge(neg[Idx(v)], live)], numVars)
    ensures Purge(pos[Idx(v)], live) == Purge(OccurrencesOf(clauses, Literal(v, true)), live)
    ensures Purge(neg[Idx(v)], live) == Purge(OccurrencesOf(clauses, Literal(v, false)), live)
  {
    hide OccurrencesOf, Purge;
    var pos', neg' := pos[Idx(v) := Purge(pos[Idx(v)], live)], neg[Idx(v) := Purge(neg[Idx(v)], live)];
    assert ListOf(pos, neg, Literal(v, true)) == pos[Idx(v)] && ListOf(pos, neg, Literal(v, false)) == neg[Idx(v)];
    forall l: Literal | Idx(l.v) < numVars
      ensures Purge(ListOf(pos', neg', l), live) == Purge(OccurrencesOf(clauses, l), live)
      ensures forall i: nat :: i in ListOf(pos', neg', l) ==> i < |clauses|
    {
      if l.v == v {
        PurgeTwice(ListOf(pos, neg, l), live, live);
        PurgeMembers(ListOf(pos, neg, l), live);
      }
    }
  }

  // ---- the pass ----

  /** Every unshown variable that occurs, in ascending order. */
  method SeedQueue(pos: seq<seq<nat>>, neg: seq<seq<nat>>, show: ShowMask, n: nat)
    returns (queue: seq<nat>, queued: seq<bool>)
    requires |pos| == |neg| == n <= MAX_VAR
    ensures QueueAgrees(queue, queued, show, n, {})
    ensures Increasing(queue)
    ensures forall u: nat :: u < n && !IsShow(show, FromIdx(u)) && (pos[u] != [] || neg[u] != []) ==> queued[u]
  {
    queued := seq(n, _ => false);
    queue := [];
    for w := 0 to n
      invariant |queued| == n && Increasing(queue)
      invariant forall u: nat :: u in queue ==> u < w && !IsShow(show, FromIdx(u))
      invariant forall u: nat :: u < n ==> (queued[u] <==> u in queue)
      invariant forall u: nat :: u < w && !IsShow(show, FromIdx(u)) && (pos[u] != [] || neg[u] != []) ==> queued[u]
    {
      assert forall j: nat :: j < |queue| ==> queue[j] in queue;
      if !IsShow(show, FromIdx(w)) && (pos[w] != [] || neg[w] != []) {
        queue := queue + [w];
        queued := queued[w := true];
      }
    }
  }

  lemma SeededSettled(cs: seq<Clause>, pos: seq<seq<nat>>, neg: seq<seq<nat>>, queued: seq<bool>, show: ShowMask,
                      n: nat)
    requires |pos| == |neg| == |queued| == n <= MAX_VAR
    requires forall l: Literal :: Idx(l.v) < n ==> ListOf(pos, neg, l) == OccurrencesOf(cs, l)
    requires forall u: nat :: u < n && !IsShow(show, FromIdx(u)) && (pos[u] != [] || neg[u] != []) ==> queued[u]
    ensures Settled(cs, queued, show, n, {})
  {
    hide OccurrencesOf, Occurs;
    forall w: nat | w < n && !IsShow(show, FromIdx(w)) && !queued[w] ensures !Occurs(cs, FromIdx(w)) {
      assert ListOf(pos, neg, Literal(FromIdx(w), true)) == pos[w]
          && ListOf(pos, neg, Literal(FromIdx(w), false)) == neg[w];
      UnlistedDoesNotOccur(cs, FromIdx(w));
    }
  }

  /** What the constructor stores, on values. */
  lemma FreshStore(f: Formula, cs: seq<Clause>, live: seq<bool>, pos: seq<seq<nat>>, neg: seq<seq<nat>>,
                   queued: seq<bool>, show: ShowMask)
    requires WellFormed(f) && cs == NormalizeAll(f.clauses)
    requires |live| == |cs| && forall i :: 0 <= i < |live| ==> live[i]
    requires |pos| == |neg| == |queued| == f.numVars
    requires forall l: Literal :: Idx(l.v) < f.numVars ==> ListOf(pos, neg, l) == OccurrencesOf(cs, l)
    requires forall u: nat :: u < f.numVars && !IsShow(show, FromIdx(u)) && (pos[u] != [] || neg[u] != []) ==> queued[u]
    ensures f.numVars <= MAX_VAR && AllCanonical(cs) && AllInRange(cs, f.numVars)
    ensures OccurrencesAgree(cs, live, pos, neg, f.numVars)
    ensures LiveClauses(cs, live) == cs && Settled(cs, queued, show, f.numVars, {})
  {
    NormalizeAllMeaning(f.clauses, f.numVars);
    AllLive(cs, live);
    FreshOccurrences(cs, live, pos, neg, f.numVars);
    SeededSettled(cs, pos, neg, queued, show, f.numVars);
  }

  lemma EliminatedDiffers(cs: seq<Clause>, resolvents: seq<Clause>, v: VarId)
    requires Occurs(cs, v) && ToSet(resolvents) == ResolventSet(cs, v)
    ensures Keep(cs, v) + resolvents != cs
  {
    var c :| c in cs && Mentions(c, v);
    if c in resolvents {
      assert c in ToSet(resolvents);
      ResolventVars(cs, v, c);
    }
    assert c !in Keep(cs, v) + resolvents;
  }

  lemma TouchedGrown(cs: seq<Clause>, v: VarId, show: ShowMask, queued: seq<bool>, queued': seq<bool>)
    requires Grown(queued, queued')
    requires forall c :: c in cs && Mentions(c, v) ==> Touched(c, v, show, queued)
    ensures forall c :: c in cs && Mentions(c, v) ==> Touched(c, v, show, queued')
  {
  }

  /** The formula and the queue flags before and after one step on `v`: `v` is left alone or exactly
      eliminated, nothing grows, and whatever is not flagged afterwards is settled. */
  ghost predicate StepDone(cs: seq<Clause>, marks: seq<bool>, cs': seq<Clause>, marks': seq<bool>, v: VarId,
                           show: ShowMask, numVars: nat, finished: bool)
    requires numVars <= MAX_VAR && |marks| == |marks'| == numVars
  {
    && Advances(cs, cs', v)
    && (cs' != cs ==> !IsShow(show, v))
    && |cs'| <= |cs|
    && (finished && Settled(cs, marks, show, numVars, {Idx(v)}) ==> Settled(cs', marks', show, numVars, {}))
  }

  lemma EliminationDone(cs: seq<Clause>, v: VarId, resolvents: seq<Clause>, show: ShowMask, numVars: nat,
                        marks: seq<bool>, cleared: seq<bool>, after: seq<bool>)
    requires AllCanonical(cs) && Occurs(cs, v) && numVars <= MAX_VAR && |marks| == numVars && Idx(v) < numVars
    requires ToSet(resolvents) == ResolventSet(cs, v) && |resolvents| <= Degree(cs, v) && !IsShow(show, v)
    requires cleared == marks[Idx(v) := false] && Grown(cleared, after)
    requires forall c :: c in cs && Mentions(c, v) ==> Touched(c, v, show, after)
    requires Waiting(resolvents, show, after)
    ensures StepDone(cs, marks, Keep(cs, v) + resolvents, after, v, show, numVars, true)
  {
    hide Keep, CountWith, Degree, ResolventSet, Blocked, Occurs;
    AdvancesBy(cs, v, resolvents, numVars);
    if Settled(cs, marks, show, numVars, {Idx(v)}) {
      SettledAfter(cs, v, resolvents, show, numVars, cleared, after);
    }
  }

  /** Leaving `v` alone is settled when it is shown, gone, or blocked. */
  lemma NothingDone(cs: seq<Clause>, v: VarId, show: ShowMask, numVars: nat, marks: seq<bool>, finished: bool)
    requires numVars <= MAX_VAR && |marks| == numVars && Idx(v) < numVars
    requires finished ==> IsShow(show, v) || !Occurs(cs, v) || Blocked(cs, v)
    ensures StepDone(cs, marks, cs, marks[Idx(v) := false], v, show, numVars, finished)
  {
    if finished && Settled(cs, marks, show, numVars, {Idx(v)}) {
      forall w: nat | w < numVars && !IsShow(show, FromIdx(w)) && !marks[Idx(v) := false][w] && Occurs(cs, FromIdx(w))
        ensures Blocked(cs, FromIdx(w))
      {
        assert w == Idx(v) || !marks[w];
      }
    }
  }

  class BveState {
    const show: ShowMask
    const numVars: nat
    var clauses: seq<Clause>
    var live: seq<bool>
    var occPos: seq<seq<nat>>
    var occNeg: seq<seq<nat>>
    var queue: seq<nat>
    var queued: seq<bool>

    /** The clause store, live flags and occurrence lists agree. */
    ghost predicate Store()
      reads this
    {
      && numVars <= MAX_VAR
      && |live| == |clauses|
      && AllCanonical(clauses)
      && AllInRange(clauses, numVars)
      && OccurrencesAgree(clauses, live, occPos, occNeg, numVars)
    }

    ghost predicate Valid(waiting: set<nat>)
      reads this
    {
      Store() && QueueAgrees(queue, queued, show, numVars, waiting)
    }

    ghost function Current(): (cs: seq<Clause>)
      requires Store()
      reads this
      ensures AllCanonical(cs) && AllInRange(cs, numVars)
    {
      LiveMembers(clauses, live);
      LiveClauses(clauses, live)
    }

    constructor (f: Formula, show: ShowMask)
      requires WellFormed(f)
      ensures Valid({})
      ensures this.show == show && numVars == f.numVars
      ensures Current() == NormalizeAll(f.clauses)
      ensures Settled(Current(), queued, show, numVars, {})
    {
      var cs := NormalizeAll(f.clauses);
      var pos, neg := OccurrenceListsOf(cs, f.numVars);
      var seeded, marks := SeedQueue(pos, neg, show, f.numVars);
      this.show := show;
      numVars := f.numVars;
      clauses, live := cs, seq(|cs|, _ => true);
      occPos, occNeg := pos, neg;
      queue, queued := seeded, marks;
      new;
      FreshStore(f, cs, live, pos, neg, queued, show);
    }

    /** Take the next variable off the queue; its flag stays up until it is looked at. */
    method Pop() returns (v: nat)
      requires Valid({}) && queue != []
      modifies this`queue
      ensures Valid({v}) && v < numVars
      ensures queue == old(queue)[1..]
    {
      v := queue[0];
      assert forall w: nat :: w in queue <==> w == v || w in queue[1..];
      assert v !in queue[1..];
      queue := queue[1..];
    }

    /** Asks for another look at `w`: shown variables and those already queued are left as they are. */
    method Requeue(w: nat, ghost waiting: set<nat>)
      requires w < numVars <= MAX_VAR
      requires QueueAgrees(queue, queued, show, numVars, waiting)
      modifies this`queue, this`queued
      ensures QueueAgrees(queue, queued, show, numVars, waiting)
      ensures Grown(old(queued), queued)
      ensures IsShow(show, FromIdx(w)) || queued[w]
    {
      if !IsShow(show, FromIdx(w)) && !queued[w] {
        queue := queue + [w];
        queued := queued[w := true];
      }
    }

    /** Kills the live clauses of `v`; its neighbours in them are to be looked at again. */
    method Retire(v: nat)
      requires Valid({}) && v < numVars
      requires ListsPurged(v)
      modifies this`live, this`occPos, this`occNeg, this`queue, this`queued
      ensures Valid({})
      ensures Current() == Keep(old(Current()), FromIdx(v))
      ensures Grown(old(queued), queued)
      ensures forall c :: c in old(Current()) && Mentions(c, FromIdx(v)) ==> Touched(c, FromIdx(v), show, queued)
    {
      ghost var vid := FromIdx(v);
      PurgedMembers(clauses, live, Literal(vid, true));
      PurgedMembers(clauses, live, Literal(vid, false));
      var toKill := occPos[v] + occNeg[v];
      ghost var was, pos, neg := live, occPos, occNeg;
      occPos, occNeg := occPos[v := []], occNeg[v := []];
      Kill(toKill, v);
      RetiredClauses(clauses, was, live, vid);
      RetiredOccurrences(clauses, was, live, vid, pos, neg, numVars);
    }

    /** The loop over the clauses to kill; one that is already dead is passed over. */
    method Kill(toKill: seq<nat>, v: nat)
      requires v < numVars <= MAX_VAR && |live| == |clauses| && AllInRange(clauses, numVars)
      requires QueueAgrees(queue, queued, show, numVars, {})
      requires forall i: nat :: i in toKill <==> i < |clauses| && live[i] && Mentions(clauses[i], FromIdx(v))
      modifies this`live, this`queue, this`queued
      ensures Retired(clauses, old(live), live, FromIdx(v))
      ensures QueueAgrees(queue, queued, show, numVars, {})
      ensures Grown(old(queued), queued)
      ensures forall c :: c in LiveClauses(clauses, old(live)) && Mentions(c, FromIdx(v)) ==>
                Touched(c, FromIdx(v), show, queued)
    {
      ghost var vid, was := FromIdx(v), live;
      for k := 0 to |toKill|
        invariant |live| == |was|
        invariant forall m: nat :: m < k ==> toKill[m] in toKill && !live[toKill[m]]
        invariant KilledTouched(clauses, was, live, vid, show, queued)
        invariant QueueAgrees(queue, queued, show, numVars, {})
        invariant Grown(old(queued), queued)
      {
        var i := toKill[k];
        assert i in toKill;
        ghost var before, marks := live, queued;
        if live[i] {
          live := live[i := false];
          RequeueBeside(clauses[i], v);
          KillOne(clauses, was, before, i, vid, show, marks, queued);
        }
      }
      KilledAll(clauses, was, live, toKill, vid, show, queued);
    }

    /** Re-queue every variable of `c` except `v`. */
    method RequeueBeside(c: Clause, v: nat)
      requires v < numVars <= MAX_VAR && InRange(c, numVars)
      requires QueueAgrees(queue, queued, show, numVars, {})
      modifies this`queue, this`queued
      ensures QueueAgrees(queue, queued, show, numVars, {})
      ensures Grown(old(queued), queued)
      ensures Touched(c, FromIdx(v), show, queued)
    {
      for k := 0 to |c|
        invariant QueueAgrees(queue, queued, show, numVars, {})
        invariant Grown(old(queued), queued)
        invariant Touched(c[..k], FromIdx(v), show, queued)
      {
        var w := Idx(c[k].v);
        assert c[k] in c && c[..k + 1] == c[..k] + [c[k]];
        if w != v { Requeue(w, {}); }
      }
      assert c[..|c|] == c;
    }

    /** Stores each resolvent, alive, and asks for another look at its variables. */
    method AppendResolvents(resolvents: seq<Clause>)
      requires Valid({}) && AllCanonical(resolvents) && AllInRange(resolvents, numVars)
      modifies this`clauses, this`live, this`occPos, this`occNeg, this`queue, this`queued
      ensures Valid({})
      ensures Current() == old(Current()) + resolvents
      ensures Grown(old(queued), queued)
      ensures Waiting(resolvents, show, queued)
    {
      for k := 0 to |resolvents|
        invariant Valid({})
        invariant Current() == old(Current()) + resolvents[..k]
        invariant Grown(old(queued), queued)
        invariant Waiting(resolvents[..k], show, queued)
      {
        assert resolvents[k] in resolvents && resolvents[..k + 1] == resolvents[..k] + [resolvents[k]];
        AppendOne(resolvents[k]);
      }
      assert resolvents[..|resolvents|] == resolvents;
    }

    /** One resolvent: entered in the list of each of its literals, then pushed live. */
    method AppendOne(lits: Clause)
      requires Valid({}) && Canonical(lits) && InRange(lits, numVars)
      modifies this`clauses, this`live, this`occPos, this`occNeg, this`queue, this`queued
      ensures Valid({})
      ensures Current() == old(Current()) + [lits]
      ensures Grown(old(queued), queued)
      ensures Waiting([lits], show, queued)
    {
      ghost var pos, neg := occPos, occNeg;
      EnterAll(lits, |clauses|);
      AppendedOccurrences(clauses, live, pos, neg, numVars, lits, occPos, occNeg);
      LiveAppend(clauses, live, lits);
      clauses := clauses + [lits];
      live := live + [true];
    }

    method EnterAll(lits: Clause, idx: nat)
      requires numVars <= MAX_VAR && |occPos| == |occNeg| == numVars && Canonical(lits) && InRange(lits, numVars)
      requires QueueAgrees(queue, queued, show, numVars, {})
      modifies this`occPos, this`occNeg, this`queue, this`queued
      ensures EnteredFrom(old(occPos), old(occNeg), occPos, occNeg, numVars, lits, idx)
      ensures QueueAgrees(queue, queued, show, numVars, {})
      ensures Grown(old(queued), queued)
      ensures Waiting([lits], show, queued)
    {
      for k := 0 to |lits|
        invariant EnteredFrom(old(occPos), old(occNeg), occPos, occNeg, numVars, lits[..k], idx)
        invariant QueueAgrees(queue, queued, show, numVars, {})
        invariant Grown(old(queued), queued)
        invariant Waiting([lits[..k]], show, queued)
      {
        var l := lits[k];
        assert l in lits && lits[..k + 1] == lits[..k] + [l];
        CanonicalPrefix(lits, k);
        EnteredOneMore(old(occPos), old(occNeg), occPos, occNeg, numVars, lits[..k], idx, l);
        if l.positive {
          occPos := Enter(occPos, Idx(l.v), idx);
        } else {
          occNeg := Enter(occNeg, Idx(l.v), idx);
        }
        ghost var marks := queued;
        Requeue(Idx(l.v), {});
        WaitingMore(lits[..k], l, show, marks, queued);
      }
      assert lits[..|lits|] == lits;
    }

    /** Looks at one variable once; the answer is whether the pass may go on. */
    method Step(v: nat, clock: Clock) returns (going: bool)
      requires Valid({v}) && v < numVars
      modifies this`clauses, this`live, this`occPos, this`occNeg, this`queue, this`queued, clock
      ensures Valid({})
      ensures StepDone(old(Current()), old(queued), Current(), queued, FromIdx(v), show, numVars, going)
      ensures Current() == old(Current()) ==> queue == old(queue)
      ensures clock.polls >= old(clock.polls)
      ensures going <==> !StoppedBetween(clock.answers, old(clock.polls), clock.polls)
    {
      hide CountWith, OccurrencesOf, Purge, Keep, Settled, Occurs, Eliminates;
      ghost var cs, marks := Current(), queued;
      queued := queued[v := false];
      if IsShow(show, FromIdx(v)) {
        NothingDone(cs, FromIdx(v), show, numVars, marks, true);
        return true;
      }
      PurgeBoth(v);
      OccursByDegree(cs, FromIdx(v));
      if occPos[v] == [] && occNeg[v] == [] {
        NothingDone(cs, FromIdx(v), show, numVars, marks, true);
        return true;
      }
      if occPos[v] == [] || occNeg[v] == [] {
        PureHasNoResolvents(cs, FromIdx(v));
        Retire(v);
        assert Keep(cs, FromIdx(v)) + [] == Keep(cs, FromIdx(v));
        EliminationDone(cs, FromIdx(v), [], show, numVars, marks, marks[v := false], queued);
        EliminatedDiffers(cs, [], FromIdx(v));
        return true;
      }
      going := ResolveAway(v, marks, clock);
    }

    /** Two polarities: resolve `v` away, unless that costs more clauses than it saves. */
    method ResolveAway(v: nat, ghost marks: seq<bool>, clock: Clock) returns (going: bool)
      requires Valid({}) && v < numVars && |marks| == numVars && queued == marks[v := false]
                && !IsShow(show, FromIdx(v))
      requires ListsPurged(v) && occPos[v] != [] && occNeg[v] != []
      modifies this`clauses, this`live, this`occPos, this`occNeg, this`queue, this`queued, clock
      ensures Valid({})
      ensures StepDone(old(Current()), marks, Current(), queued, FromIdx(v), show, numVars, going)
      ensures Current() == old(Current()) ==> queue == old(queue)
      ensures clock.polls >= old(clock.polls)
      ensures going <==> !StoppedBetween(clock.answers, old(clock.polls), clock.polls)
    {
      hide CountWith, OccurrencesOf, Purge, Keep, Settled, Occurs, StepDone, ResolventSet, PairResolvents;
      ghost var cs := Current();
      EnumerationIsComplete(v);
      var found := EnumerateResolvents(clauses, occPos[v], occNeg[v], FromIdx(v), clock);
      match found {
        case Grow =>
          NothingDone(cs, FromIdx(v), show, numVars, marks, true);
          return true;
        case OutOfTime =>
          NothingDone(cs, FromIdx(v), show, numVars, marks, false);
          return false;
        case Fit(resolvents) =>
          Eliminate(v, resolvents, marks);
          return true;
      }
    }

    /** The two lists of `v` hold exactly its live clauses. */
    ghost predicate ListsPurged(v: nat)
      requires Store() && v < numVars
      reads this
    {
      && occPos[v] == Purge(OccurrencesOf(clauses, Literal(FromIdx(v), true)), live)
      && occNeg[v] == Purge(OccurrencesOf(clauses, Literal(FromIdx(v), false)), live)
    }

    /** Retire the clauses of `v` and append its resolvents. */
    method Eliminate(v: nat, resolvents: seq<Clause>, ghost marks: seq<bool>)
      requires Valid({}) && v < numVars && |marks| == numVars && queued == marks[v := false]
                && !IsShow(show, FromIdx(v))
      requires Occurs(Current(), FromIdx(v)) && ListsPurged(v)
      requires ToSet(resolvents) == ResolventSet(Current(), FromIdx(v)) && |resolvents| <= Degree(Current(), FromIdx(v))
      modifies this`clauses, this`live, this`occPos, this`occNeg, this`queue, this`queued
      ensures Valid({})
      ensures Current() == Keep(old(Current()), FromIdx(v)) + resolvents != old(Current())
      ensures StepDone(old(Current()), marks, Current(), queued, FromIdx(v), show, numVars, true)
    {
      hide CountWith, OccurrencesOf, Purge, Keep, Settled, Occurs, StepDone, ResolventSet, Eliminates;
      ghost var cs := Current();
      AdvancesBy(cs, FromIdx(v), resolvents, numVars);
      Retire(v);
      ghost var between := queued;
      AppendResolvents(resolvents);
      TouchedGrown(cs, FromIdx(v), show, between, queued);
      EliminationDone(cs, FromIdx(v), resolvents, show, numVars, marks, marks[v := false], queued);
      EliminatedDiffers(cs, resolvents, FromIdx(v));
    }

    /** The live clauses as a formula: the same variables, ids unchanged. */
    method IntoFormula() returns (g: Formula)
      requires Store()
      ensures g == Formula(numVars, Current())
    {
      g := Formula(numVars, LiveClauses(clauses, live));
    }

    /** Refresh the two lists of `v`. */
    method PurgeBoth(v: nat)
      requires Valid({}) && v < numVars
      modifies this`occPos, this`occNeg
      ensures Valid({})
      ensures ListsPurged(v)
      ensures |occPos[v]| == CountWith(Current(), Literal(FromIdx(v), true))
      ensures |occNeg[v]| == CountWith(Current(), Literal(FromIdx(v), false))
    {
      hide OccurrencesOf, LiveClauses, CountWith, Purge;
      PurgedOccurrences(clauses, live, occPos, occNeg, numVars, FromIdx(v));
      occPos := occPos[v := Purge(occPos[v], live)];
      occNeg := occNeg[v := Purge(occNeg[v], live)];
      PurgedLength(clauses, live, Literal(FromIdx(v), true));
      PurgedLength(clauses, live, Literal(FromIdx(v), false));
    }

    lemma EnumerationIsComplete(v: nat)
      requires Store() && v < numVars
      requires ListsPurged(v)
      ensures PairResolvents(clauses, occPos[v], occNeg[v], FromIdx(v)) == ResolventSet(Current(), FromIdx(v))
      ensures forall i: nat :: i in occPos[v] || i in occNeg[v] ==> i < |clauses|
      ensures |occPos[v]| == CountWith(Current(), Literal(FromIdx(v), true))
      ensures |occNeg[v]| == CountWith(Current(), Literal(FromIdx(v), false))
      ensures occPos[v] != [] || occNeg[v] != [] ==> Occurs(Current(), FromIdx(v))
    {
      hide CountWith, OccurrencesOf, Purge, Occurs, ResolventSet, PairResolvents;
      PurgedLength(clauses, live, Literal(FromIdx(v), true));
      PurgedLength(clauses, live, Literal(FromIdx(v), false));
      OccursByDegree(Current(), FromIdx(v));
      PurgedMembers(clauses, live, Literal(FromIdx(v), true));
      PurgedMembers(clauses, live, Literal(FromIdx(v), false));
      PairResolventsAreAll(clauses, live, occPos[v], occNeg[v], FromIdx(v));
    }
  }

  /** Eliminating `v` takes it out of the open variables and brings none in. */
  lemma OpenShrinks(before: seq<Clause>, after: seq<Clause>, v: VarId, show: ShowMask, numVars: nat)
    requires numVars <= MAX_VAR && Idx(v) < numVars && !IsShow(show, v)
    requires Eliminates(before, after, v) && Occurs(before, v) && !Occurs(after, v)
    ensures Open(after, show, numVars) < Open(before, show, numVars)
    ensures |Open(after, show, numVars)| < |Open(before, show, numVars)|
  {
    forall w | Occurs(after, w) ensures Occurs(before, w) {
      var c :| c in after && Mentions(c, w);
      if c in ResolventSet(before, v) { ResolventVars(before, v, c); }
    }
    assert Idx(v) in Open(before, show, numVars) by { assert FromIdx(Idx(v)) == v; }
    assert Idx(v) !in Open(after, show, numVars);
    SubsetCardinality(Open(after, show, numVars), Open(before, show, numVars) - {Idx(v)});
  }

  /** No unshown variable is left that the bound would let go. */
  ghost predicate Fixpoint(cs: seq<Clause>, show: ShowMask) {
    forall v :: !IsShow(show, v) && Occurs(cs, v) ==> Blocked(cs, v)
  }

  /** The run's invariant after one more step, and the step's progress. */
  lemma RunStep(f: seq<Clause>, before: seq<Clause>, after: seq<Clause>, gone: set<VarId>, v: VarId, show: ShowMask,
                numVars: nat)
    requires numVars <= MAX_VAR && Idx(v) < numVars && AllCanonical(before)
    requires RunHolds(f, before, gone, show)
    requires Advances(before, after, v) && (after != before ==> !IsShow(show, v))
    ensures after != before ==> |Open(after, show, numVars)| < |Open(before, show, numVars)|
    ensures RunHolds(f, after, if after == before then gone else gone + {v}, show)
  {
    if after != before {
      OpenShrinks(before, after, v, show, numVars);
      ProjectionStep(f, before, after, gone, v);
      forall u | Occurs(after, u) ensures Occurs(before, u) {
        var c :| c in after && Mentions(c, u);
        if c in ResolventSet(before, v) { ResolventVars(before, v, c); }
      }
    }
  }

  /** The pass, stopped by the deadline or run dry. `gone` names the variables it eliminated. */
  method BveProjectUntil(f: Formula, show: ShowMask, clock: Clock) returns (g: Formula, ghost gone: set<VarId>)
    requires WellFormed(f)
    modifies clock
    ensures WellFormed(g) && g.numVars == f.numVars && AllCanonical(g.clauses)
    ensures |g.clauses| <= |f.clauses|
    ensures forall v :: v in gone ==> !IsShow(show, v) && !Occurs(g.clauses, v)
    ensures IsProjection(f.clauses, g.clauses, gone)
    ensures clock.polls >= old(clock.polls)
    ensures !StoppedBetween(clock.answers, old(clock.polls), clock.polls) ==> Fixpoint(g.clauses, show)
  {
    var state := new BveState(f, show);
    NormalizeAllMeaning(f.clauses, f.numVars);
    ProjectionOfNothing(f.clauses, state.Current());
    gone := {};
    ghost var cut := false;
    while state.queue != []
      invariant state.Valid({}) && state.show == show && state.numVars == f.numVars
      invariant |state.Current()| <= |f.clauses|
      invariant RunHolds(f.clauses, state.Current(), gone, show)
      invariant !cut && Settled(state.Current(), state.queued, show, f.numVars, {})
      invariant clock.polls >= old(clock.polls)
      decreases |Open(state.Current(), show, f.numVars)|, |state.queue|
    {
      ghost var before := state.Current();
      var v := state.Pop();
      assert state.Current() == before;
      assert Settled(before, state.queued, show, f.numVars, {v});
      cut := true;
      var stopped := clock.Stopped();
      if stopped { break; }
      var going := state.Step(v, clock);
      RunStep(f.clauses, before, state.Current(), gone, FromIdx(v), show, f.numVars);
      gone := if state.Current() == before then gone else gone + {FromIdx(v)};
      if !going { break; }
      cut := false;
    }
    g := state.IntoFormula();
    if !cut { DryIsFixpoint(g.clauses, state.queued, show, f.numVars); }
  }

  /** The run's invariant: the clauses are the input with `gone` quantified away, and `gone` is unshown and gone. */
  ghost predicate RunHolds(f: seq<Clause>, cs: seq<Clause>, gone: set<VarId>, show: ShowMask) {
    IsProjection(f, cs, gone) && forall v :: v in gone ==> !IsShow(show, v) && !Occurs(cs, v)
  }

  lemma DryIsFixpoint(cs: seq<Clause>, queued: seq<bool>, show: ShowMask, numVars: nat)
    requires numVars <= MAX_VAR && |queued| == numVars && AllInRange(cs, numVars)
    requires Settled(cs, queued, show, numVars, {}) && forall w: nat :: w < numVars ==> !queued[w]
    ensures Fixpoint(cs, show)
  {
    forall v | !IsShow(show, v) && Occurs(cs, v) ensures Blocked(cs, v) {
      var c :| c in cs && Mentions(c, v);
      var s: bool :| Literal(v, s) in c;
      assert FromIdx(Idx(v)) == v;
    }
  }
}
