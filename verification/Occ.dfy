/** Derived per-literal views of a clause list: occurrence lists and occurrence counts. */
module Occ {
  import opened Cnf
  import FlatIndex

  /** Tables by literal hold each variable's two entries side by side, the positive one first. */
  function LiteralIndex(v: nat, positive: bool): nat {
    v * 2 + (if positive then 0 else 1)
  }

  function Repeat<T>(x: T, n: nat): (r: seq<T>)
    ensures |r| == n
  {
    seq(n, _ => x)
  }

  /** Ascending indices of clauses, each repeated as often as the clause writes the literal. */
  function OccurrencesOf(cs: seq<Clause>, l: Literal): seq<nat> {
    if cs == [] then []
    else OccurrencesOf(cs[..|cs| - 1], l) + Repeat(|cs| - 1, multiset(cs[|cs| - 1])[l])
  }

  lemma {:induction false} OccurrencesMembers(cs: seq<Clause>, l: Literal)
    ensures forall i: nat :: i in OccurrencesOf(cs, l) <==> i < |cs| && l in cs[i]
  {
    if cs != [] {
      var n := |cs| - 1;
      OccurrencesMembers(cs[..n], l);
      forall i: nat ensures i in OccurrencesOf(cs, l) <==> i < |cs| && l in cs[i] {
        assert i in OccurrencesOf(cs, l) <==> i in OccurrencesOf(cs[..n], l) || i in Repeat(n, multiset(cs[n])[l]);
        if i < n { assert cs[..n][i] == cs[i]; }
        assert i == n && l in cs[n] ==> Repeat(n, multiset(cs[n])[l])[0] == n;
      }
    }
  }

  /** How often a literal is written. */
  function FrequencyOf(cs: seq<Clause>, l: Literal): nat {
    if cs == [] then 0 else FrequencyOf(cs[..|cs| - 1], l) + multiset(cs[|cs| - 1])[l]
  }

  /** One list per variable and polarity. */
  function ListOf(pos: seq<seq<nat>>, neg: seq<seq<nat>>, l: Literal): seq<nat>
    requires Idx(l.v) < |pos| && Idx(l.v) < |neg|
  {
    if l.positive then pos[Idx(l.v)] else neg[Idx(l.v)]
  }

  /** The lists after the first `k` literals of clause `|done|` are entered. */
  ghost predicate Entered(pos: seq<seq<nat>>, neg: seq<seq<nat>>, numVars: nat, done: seq<Clause>, part: Clause) {
    && |pos| == |neg| == numVars
    && forall l: Literal :: Idx(l.v) < numVars ==>
        ListOf(pos, neg, l) == OccurrencesOf(done, l) + Repeat(|done|, multiset(part)[l])
  }

  lemma EnteredNextClause(pos: seq<seq<nat>>, neg: seq<seq<nat>>, numVars: nat, done: seq<Clause>, c: Clause)
    requires Entered(pos, neg, numVars, done, c)
    ensures Entered(pos, neg, numVars, done + [c], [])
  {
    forall l: Literal | Idx(l.v) < numVars
      ensures ListOf(pos, neg, l) == OccurrencesOf(done + [c], l)
    {
      assert (done + [c])[..|done|] == done;
    }
  }

  /** Entering one literal of clause `ci`; a literal past the table is skipped. */
  function Enter(table: seq<seq<nat>>, slot: nat, ci: nat): (r: seq<seq<nat>>)
    ensures |r| == |table|
    ensures forall i :: 0 <= i < |table| ==> r[i] == (if i == slot then table[i] + [ci] else table[i])
  {
    if slot < |table| then table[slot := table[slot] + [ci]] else table
  }

  lemma EnteredNextLiteral(pos: seq<seq<nat>>, neg: seq<seq<nat>>, numVars: nat, done: seq<Clause>, part: Clause,
                           lit: Literal)
    requires Entered(pos, neg, numVars, done, part)
    ensures Entered(if lit.positive then Enter(pos, Idx(lit.v), |done|) else pos,
                    if lit.positive then neg else Enter(neg, Idx(lit.v), |done|), numVars, done, part + [lit])
  {
    forall l: Literal | Idx(l.v) < numVars
      ensures OccurrencesOf(done, l) + Repeat(|done|, multiset(part + [lit])[l])
           == ListOf(pos, neg, l) + (if l == lit then [|done|] else [])
    {
      assert Repeat(|done|, multiset(part)[l] + 1) == Repeat(|done|, multiset(part)[l]) + [|done|];
    }
  }

  /** Occurrence lists of any clause list; a literal past the table is skipped. */
  method OccurrenceListsOf(cs: seq<Clause>, numVars: nat) returns (pos: seq<seq<nat>>, neg: seq<seq<nat>>)
    ensures |pos| == |neg| == numVars
    ensures forall l: Literal :: Idx(l.v) < numVars ==> ListOf(pos, neg, l) == OccurrencesOf(cs, l)
  {
    pos, neg := seq(numVars, _ => []), seq(numVars, _ => []);
    for ci := 0 to |cs|
      invariant Entered(pos, neg, numVars, cs[..ci], [])
    {
      ghost var done := cs[..ci];
      assert cs[ci][..0] == [];
      for k := 0 to |cs[ci]|
        invariant Entered(pos, neg, numVars, done, cs[ci][..k])
      {
        var lit := cs[ci][k];
        assert cs[ci][..k + 1] == cs[ci][..k] + [lit];
        EnteredNextLiteral(pos, neg, numVars, done, cs[ci][..k], lit);
        if lit.positive {
          pos := Enter(pos, Idx(lit.v), ci);
        } else {
          neg := Enter(neg, Idx(lit.v), ci);
        }
      }
      assert cs[ci][..|cs[ci]|] == cs[ci];
      assert cs[..ci + 1] == done + [cs[ci]];
      EnteredNextClause(pos, neg, numVars, done, cs[ci]);
    }
    assert cs[..|cs|] == cs;
    forall l: Literal | Idx(l.v) < numVars ensures ListOf(pos, neg, l) == OccurrencesOf(cs, l) {
      assert ListOf(pos, neg, l) == OccurrencesOf(cs, l) + Repeat(|cs|, 0);
    }
  }

  // ---- the same lists, stored flat ----

  predicate InTable(l: Literal, numVars: nat) { Idx(l.v) < numVars }

  /** The in-range literals of a clause, each filed under its table index with the clause's number. */
  function ClauseItems(c: Clause, ci: nat, numVars: nat): seq<FlatIndex.Item> {
    if c == [] then []
    else
      var l := c[|c| - 1];
      ClauseItems(c[..|c| - 1], ci, numVars)
      + (if InTable(l, numVars) then [(LiteralIndex(Idx(l.v), l.positive), ci)] else [])
  }

  function AllItems(cs: seq<Clause>, numVars: nat): seq<FlatIndex.Item> {
    if cs == [] then [] else AllItems(cs[..|cs| - 1], numVars) + ClauseItems(cs[|cs| - 1], |cs| - 1, numVars)
  }

  lemma LiteralIndexInjective(l: Literal, m: Literal)
    ensures LiteralIndex(Idx(l.v), l.positive) == LiteralIndex(Idx(m.v), m.positive) <==> l == m
  {
  }

  lemma {:induction false} ValuesConcat(a: seq<FlatIndex.Item>, b: seq<FlatIndex.Item>, key: nat)
    ensures FlatIndex.ValuesOf(a + b, key) == FlatIndex.ValuesOf(a, key) + FlatIndex.ValuesOf(b, key)
  {
    if b == [] {
      assert a + b == a;
    } else {
      ValuesConcat(a, b[..|b| - 1], key);
      assert (a + b)[..|a + b| - 1] == a + b[..|b| - 1];
    }
  }

  lemma {:induction false} ClauseItemsValues(c: Clause, ci: nat, numVars: nat, l: Literal)
    requires InTable(l, numVars)
    ensures FlatIndex.ValuesOf(ClauseItems(c, ci, numVars), LiteralIndex(Idx(l.v), l.positive))
         == Repeat(ci, multiset(c)[l])
  {
    if c != [] {
      var front, last := c[..|c| - 1], c[|c| - 1];
      var key := LiteralIndex(Idx(l.v), l.positive);
      ClauseItemsValues(front, ci, numVars, l);
      LiteralIndexInjective(l, last);
      assert c == front + [last];
      var tail: seq<FlatIndex.Item> :=
        if InTable(last, numVars) then [(LiteralIndex(Idx(last.v), last.positive), ci)] else [];
      ValuesConcat(ClauseItems(front, ci, numVars), tail, key);
      assert tail != [] ==> tail[..0] == [];
    }
  }

  /** The flat items hold, under each literal, exactly its occurrence list. */
  lemma {:induction false} AllItemsValues(cs: seq<Clause>, numVars: nat, l: Literal)
    requires InTable(l, numVars)
    ensures FlatIndex.ValuesOf(AllItems(cs, numVars), LiteralIndex(Idx(l.v), l.positive)) == OccurrencesOf(cs, l)
  {
    if cs != [] {
      var n := |cs| - 1;
      AllItemsValues(cs[..n], numVars, l);
      ClauseItemsValues(cs[n], n, numVars, l);
      ValuesConcat(AllItems(cs[..n], numVars), ClauseItems(cs[n], n, numVars), LiteralIndex(Idx(l.v), l.positive));
    }
  }

  lemma {:induction false} ClauseItemsKeys(c: Clause, ci: nat, numVars: nat)
    ensures FlatIndex.KeysBelow(ClauseItems(c, ci, numVars), numVars * 2)
  {
    if c != [] { ClauseItemsKeys(c[..|c| - 1], ci, numVars); }
  }

  lemma {:induction false} AllItemsKeys(cs: seq<Clause>, numVars: nat)
    ensures FlatIndex.KeysBelow(AllItems(cs, numVars), numVars * 2)
  {
    if cs != [] {
      AllItemsKeys(cs[..|cs| - 1], numVars);
      ClauseItemsKeys(cs[|cs| - 1], |cs| - 1, numVars);
    }
  }

  /** For every literal the clauses it occurs in, stored flat in two arrays. */
  class LiteralOccurrences {
    var starts: array<nat>
    var clauses: array<nat>
    /** The clause list and table size the arrays were built from. */
    ghost var source: seq<Clause>
    ghost var numVars: nat

    ghost predicate Valid()
      reads this, starts, clauses
    {
      FlatIndex.IsIndex(starts[..], clauses[..], AllItems(source, numVars), numVars * 2)
    }

    constructor Of(cs: seq<Clause>, numVars: nat)
      ensures Valid() && source == cs && this.numVars == numVars
    {
      AllItemsKeys(cs, numVars);
      var s, flat := FlatIndex.Build(AllItems(cs, numVars), numVars * 2);
      starts, clauses := s, flat;
      source := cs;
      this.numVars := numVars;
    }

    /** The clauses `l` occurs in, in clause order: the list of `OccurrenceListsOf`. */
    method OfLiteral(l: Literal) returns (r: seq<nat>)
      requires Valid() && InTable(l, numVars)
      ensures r == OccurrencesOf(source, l)
    {
      var i := LiteralIndex(Idx(l.v), l.positive);
      AllItemsValues(source, numVars, l);
      assert FlatIndex.KeySlice(starts[..], clauses[..], AllItems(source, numVars), i);
      assert starts[..][i] == starts[i] && starts[..][i + 1] == starts[i + 1];
      r := clauses[starts[i]..starts[i + 1]];
      assert r == clauses[..][starts[i]..starts[i + 1]];
    }
  }
}
