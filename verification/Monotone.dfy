/** The test for formulas in which every variable occurs in one polarity only and no clause is unit. */
module Monotone {
  import opened Cnf
  import opened Counting
  import opened Occ
  import opened Projection

  // ---- the frequency table ----

  /** The table after some clauses and part of the next one. */
  ghost predicate Tallied(freq: seq<nat>, numVars: nat, done: seq<Clause>, part: Clause) {
    && |freq| == numVars * 2
    && forall l: Literal :: Idx(l.v) < numVars ==>
        freq[LiteralIndex(Idx(l.v), l.positive)] == FrequencyOf(done, l) + multiset(part)[l]
  }

  lemma TalliedLiteral(freq: seq<nat>, numVars: nat, done: seq<Clause>, part: Clause, lit: Literal)
    requires Tallied(freq, numVars, done, part)
    ensures var i := LiteralIndex(Idx(lit.v), lit.positive);
            Tallied(if i < |freq| then freq[i := freq[i] + 1] else freq, numVars, done, part + [lit])
  {
    var i := LiteralIndex(Idx(lit.v), lit.positive);
    var freq' := if i < |freq| then freq[i := freq[i] + 1] else freq;
    forall l: Literal | Idx(l.v) < numVars
      ensures freq'[LiteralIndex(Idx(l.v), l.positive)] == FrequencyOf(done, l) + multiset(part + [lit])[l]
    {
      LiteralIndexInjective(l, lit);
    }
  }

  lemma TalliedClause(freq: seq<nat>, numVars: nat, done: seq<Clause>, c: Clause)
    requires Tallied(freq, numVars, done, c)
    ensures Tallied(freq, numVars, done + [c], [])
  {
    forall l: Literal | Idx(l.v) < numVars ensures FrequencyOf(done + [c], l) == FrequencyOf(done, l) + multiset(c)[l] {
      assert (done + [c])[..|done|] == done;
    }
  }

  /** How often each literal is written; a literal past the table is skipped. */
  method LiteralFrequency(cs: seq<Clause>, numVars: nat) returns (freq: seq<nat>)
    ensures |freq| == numVars * 2
    ensures forall l: Literal :: Idx(l.v) < numVars ==> freq[LiteralIndex(Idx(l.v), l.positive)] == FrequencyOf(cs, l)
  {
    hide Tallied, FrequencyOf;
    freq := seq(numVars * 2, _ => 0);
    TalliedNothing(freq, numVars);
    assert cs[..0] == [];
    for i := 0 to |cs|
      invariant Tallied(freq, numVars, cs[..i], [])
    {
      var c := cs[i];
      assert c[..0] == [];
      for k := 0 to |c|
        invariant Tallied(freq, numVars, cs[..i], c[..k])
      {
        assert c[..k + 1] == c[..k] + [c[k]];
        TalliedLiteral(freq, numVars, cs[..i], c[..k], c[k]);
        var slot := LiteralIndex(Idx(c[k].v), c[k].positive);
        if slot < |freq| { freq := freq[slot := freq[slot] + 1]; }
      }
      assert c[..|c|] == c && cs[..i + 1] == cs[..i] + [c];
      TalliedClause(freq, numVars, cs[..i], c);
    }
    assert cs[..|cs|] == cs;
    TalliedAll(freq, numVars, cs);
  }

  lemma TalliedNothing(freq: seq<nat>, numVars: nat)
    requires |freq| == numVars * 2 && forall i :: 0 <= i < |freq| ==> freq[i] == 0
    ensures Tallied(freq, numVars, [], [])
  {
  }

  lemma TalliedAll(freq: seq<nat>, numVars: nat, cs: seq<Clause>)
    requires Tallied(freq, numVars, cs, [])
    ensures |freq| == numVars * 2
    ensures forall l: Literal :: Idx(l.v) < numVars ==> freq[LiteralIndex(Idx(l.v), l.positive)] == FrequencyOf(cs, l)
  {
  }

  lemma {:induction false} FrequencyMeaning(cs: seq<Clause>, l: Literal)
    ensures FrequencyOf(cs, l) > 0 <==> exists c :: c in cs && l in c
  {
    if cs != [] {
      var front, last := cs[..|cs| - 1], cs[|cs| - 1];
      FrequencyMeaning(front, l);
      assert cs == front + [last];
      assert l in last <==> multiset(last)[l] > 0;
    }
  }

  // ---- the test ----

  ghost predicate Written(cs: seq<Clause>, l: Literal) {
    exists c :: c in cs && l in c
  }

  predicate TwoVars(c: Clause) {
    exists i, j :: 0 <= i < |c| && 0 <= j < |c| && c[i].v != c[j].v
  }

  /** Every variable is written in exactly one polarity, and every clause names two variables. */
  ghost predicate Monotone(f: Formula)
    requires f.numVars <= MAX_VAR
  {
    && (forall v: VarId :: v <= f.numVars ==>
        (Written(f.clauses, Literal(v, true)) <==> !Written(f.clauses, Literal(v, false))))
    && forall c :: c in f.clauses ==> TwoVars(c)
  }

  /** Some literal names another variable than the first. */
  method NamesTwo(c: Clause) returns (r: bool)
    ensures r <==> TwoVars(c)
  {
    if c == [] { return false; }
    for k := 0 to |c|
      invariant forall j :: 0 <= j < k ==> c[j].v == c[0].v
    {
      if c[k].v != c[0].v { return true; }
    }
    return false;
  }

  method IsMonotone(f: Formula) returns (r: bool)
    requires f.numVars <= MAX_VAR
    ensures r <==> Monotone(f)
  {
    var freq := LiteralFrequency(f.clauses, f.numVars);
    for i := 0 to f.numVars
      invariant forall v: VarId :: v <= i ==>
                (Written(f.clauses, Literal(v, true)) <==> !Written(f.clauses, Literal(v, false)))
    {
      var v := FromIdx(i);
      FrequencyMeaning(f.clauses, Literal(v, true));
      FrequencyMeaning(f.clauses, Literal(v, false));
      var positive := freq[LiteralIndex(i, true)] > 0;
      var negative := freq[LiteralIndex(i, false)] > 0;
      assert positive == Written(f.clauses, Literal(v, true)) && negative == Written(f.clauses, Literal(v, false));
      if positive == negative { return false; }
    }
    for k := 0 to |f.clauses|
      invariant forall c :: c in f.clauses[..k] ==> TwoVars(c)
    {
      var two := NamesTwo(f.clauses[k]);
      assert f.clauses[..k + 1] == f.clauses[..k] + [f.clauses[k]];
      if !two { return false; }
    }
    assert f.clauses[..|f.clauses|] == f.clauses;
    return true;
  }

  // ---- what passing it means ----

  /** Every literal that is written, made true. */
  ghost function AllWritten(f: Formula): Assignment
    requires f.numVars <= MAX_VAR
  {
    set v | v in AllVars(f.numVars) && Written(f.clauses, Literal(v, true))
  }

  function Flip(a: Assignment, v: VarId): Assignment {
    if v in a then a - {v} else a + {v}
  }

  lemma WrittenIsTrue(f: Formula, c: Clause, l: Literal)
    requires WellFormed(f) && Monotone(f) && c in f.clauses && l in c
    ensures LitTrue(AllWritten(f), l)
  {
    assert InRange(c, f.numVars);
    assert Written(f.clauses, l) && l == Literal(l.v, l.positive);
  }

  /** A clause over two variables has a literal of another variable than `v`. */
  lemma OtherLiteral(c: Clause, v: VarId) returns (l: Literal)
    requires TwoVars(c)
    ensures l in c && l.v != v
  {
    var i, j :| 0 <= i < |c| && 0 <= j < |c| && c[i].v != c[j].v;
    l := if c[i].v != v then c[i] else c[j];
  }

  /** One assignment is a model, and stays one whichever single variable is flipped. */
  lemma FlipsStayModels(f: Formula, v: VarId)
    requires WellFormed(f) && Monotone(f)
    ensures Satisfies(AllWritten(f), f.clauses) && Satisfies(Flip(AllWritten(f), v), f.clauses)
  {
    var a := AllWritten(f);
    forall c: Clause | c in f.clauses ensures ClauseTrue(a, c) && ClauseTrue(Flip(a, v), c) {
      assert TwoVars(c);
      var l := OtherLiteral(c, v);
      assert LitTrue(a, l) by { WrittenIsTrue(f, c, l); }
      assert LitTrue(Flip(a, v), l);
    }
  }

  /** So no variable is forced, and none is defined by the others. */
  lemma NothingForcedOrDefined(f: Formula, v: VarId, others: seq<VarId>)
    requires WellFormed(f) && Monotone(f) && v !in others
    ensures exists a, b :: Satisfies(a, f.clauses) && Satisfies(b, f.clauses) && v in a && v !in b
    ensures !DefinedBy(f.clauses, others, v)
  {
    FlipsStayModels(f, v);
    var a, b := AllWritten(f), Flip(AllWritten(f), v);
    assert Counterexample(f.clauses, others, v, a, b);
    if v in a {
      assert Satisfies(a, f.clauses) && Satisfies(b, f.clauses) && v in a && v !in b;
    } else {
      assert Satisfies(b, f.clauses) && Satisfies(a, f.clauses) && v in b && v !in a;
    }
  }
}
