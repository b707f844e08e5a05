/** Literal equivalences read off the implication graph's components, and their substitution. */
module Equivalence {
  import opened Cnf
  import opened ImplicationGraph
  import opened Scc

  // ---- the implication graph over the original literal nodes ----

  /** The out-edges of every literal node of `numVars` variables. */
  function LiteralGraph(cs: seq<Clause>, numVars: nat): (g: Graph)
    ensures |g| == 2 * numVars
  {
    seq(2 * numVars, u requires 0 <= u => OutEdges(cs, u))
  }

  ghost predicate OverVars(cs: seq<Clause>, numVars: nat) {
    numVars <= MAX_VAR && forall c :: c in cs ==> InRange(c, numVars)
  }

  lemma GraphEdge(cs: seq<Clause>, numVars: nat, u: nat, w: nat)
    requires OverVars(cs, numVars)
    ensures Edge(LiteralGraph(cs, numVars), u, w) <==> IsEdge(cs, u, w)
    ensures IsEdge(cs, u, w) ==> u < 2 * numVars && w < 2 * numVars
  {
    OutEdgesAreEdges(cs, u, w);
    if IsEdge(cs, u, w) {
      var c: Clause :| c in cs && IsBinary(c) && ClauseEdge(c, u, w);
      ClauseEdgeInRange(c, numVars, u, w);
    }
  }

  lemma ClauseEdgeInRange(c: Clause, numVars: nat, u: nat, w: nat)
    requires IsBinary(c) && InRange(c, numVars) && ClauseEdge(c, u, w)
    ensures u < 2 * numVars && w < 2 * numVars
  {
    assert c[0] in c && c[1] in c;
  }

  /** Each edge comes with its contrapositive. */
  lemma EdgesAreSkew(cs: seq<Clause>, u: nat, w: nat)
    ensures IsEdge(cs, u, w) <==> IsEdge(cs, Neg(w), Neg(u))
  {
    forall c: Clause | IsBinary(c) ensures ClauseEdge(c, u, w) <==> ClauseEdge(c, Neg(w), Neg(u)) {
      var x, y := LitNode(c[0]), LitNode(c[1]);
      NegTwice(u);
      NegTwice(w);
      NegTwice(x);
      NegTwice(y);
    }
  }

  lemma NegTwice(u: nat)
    ensures Neg(Neg(u)) == u
  {
  }

  lemma {:induction false} WalkIsSkew(cs: seq<Clause>, numVars: nat, n: nat, u: nat, w: nat)
    requires OverVars(cs, numVars) && Walk(LiteralGraph(cs, numVars), n, u, w)
    ensures Walk(LiteralGraph(cs, numVars), n, Neg(w), Neg(u))
  {
    var g := LiteralGraph(cs, numVars);
    if n > 0 {
      var x: nat :| Edge(g, u, x) && Walk(g, n - 1, x, w);
      WalkIsSkew(cs, numVars, n - 1, x, w);
      GraphEdge(cs, numVars, u, x);
      EdgesAreSkew(cs, u, x);
      GraphEdge(cs, numVars, Neg(x), Neg(u));
      assert Walk(g, 0, Neg(u), Neg(u));
      assert Walk(g, 1, Neg(x), Neg(u));
      WalkJoin(g, n - 1, 1, Neg(w), Neg(x), Neg(u));
    }
  }

  /** Negating both ends keeps two nodes in one component. */
  lemma MutualIsSkew(cs: seq<Clause>, numVars: nat, u: nat, w: nat)
    requires OverVars(cs, numVars)
    ensures Mutual(LiteralGraph(cs, numVars), u, w) <==> Mutual(LiteralGraph(cs, numVars), Neg(u), Neg(w))
  {
    ReachIsSkew(cs, numVars, u, w);
    ReachIsSkew(cs, numVars, w, u);
    ReachIsSkew(cs, numVars, Neg(u), Neg(w));
    ReachIsSkew(cs, numVars, Neg(w), Neg(u));
    NegTwice(u);
    NegTwice(w);
  }

  lemma ReachIsSkew(cs: seq<Clause>, numVars: nat, u: nat, w: nat)
    requires OverVars(cs, numVars)
    ensures Reach(LiteralGraph(cs, numVars), u, w) ==> Reach(LiteralGraph(cs, numVars), Neg(w), Neg(u))
  {
    if Reach(LiteralGraph(cs, numVars), u, w) {
      var n: nat :| Walk(LiteralGraph(cs, numVars), n, u, w);
      WalkIsSkew(cs, numVars, n, u, w);
    }
  }

  // ---- what the graph means ----

  ghost predicate NodeTrue(a: Assignment, node: nat) {
    node / 2 < MAX_VAR && LitTrue(a, NodeLit(node))
  }

  lemma ClauseEdgeImplies(a: Assignment, c: Clause, u: nat, w: nat)
    requires IsBinary(c) && ClauseEdge(c, u, w) && ClauseTrue(a, c) && NodeTrue(a, u)
    ensures NodeTrue(a, w)
  {
    assert NodeLit(LitNode(c[0])) == c[0] && NodeLit(LitNode(c[1])) == c[1];
    var l :| l in c && LitTrue(a, l);
  }

  lemma {:induction false} WalkImplies(a: Assignment, cs: seq<Clause>, numVars: nat, n: nat, u: nat, w: nat)
    requires OverVars(cs, numVars) && Satisfies(a, cs) && Walk(LiteralGraph(cs, numVars), n, u, w) && NodeTrue(a, u)
    ensures NodeTrue(a, w)
  {
    if n > 0 {
      var x: nat :| Edge(LiteralGraph(cs, numVars), u, x) && Walk(LiteralGraph(cs, numVars), n - 1, x, w);
      GraphEdge(cs, numVars, u, x);
      var c: Clause :| c in cs && IsBinary(c) && ClauseEdge(c, u, x);
      ClauseEdgeImplies(a, c, u, x);
      WalkImplies(a, cs, numVars, n - 1, x, w);
    }
  }

  /** Literals of one component have one truth value in every model. */
  lemma ComponentIsEquivalent(a: Assignment, cs: seq<Clause>, numVars: nat, u: nat, w: nat)
    requires OverVars(cs, numVars) && Satisfies(a, cs) && Mutual(LiteralGraph(cs, numVars), u, w)
    ensures NodeTrue(a, u) <==> NodeTrue(a, w)
  {
    var n: nat :| Walk(LiteralGraph(cs, numVars), n, u, w);
    var m: nat :| Walk(LiteralGraph(cs, numVars), m, w, u);
    if NodeTrue(a, u) { WalkImplies(a, cs, numVars, n, u, w); }
    if NodeTrue(a, w) { WalkImplies(a, cs, numVars, m, w, u); }
  }

  // ---- the components, by way of the smaller graph ----

  /** The search: any function that groups a graph's components of two or more nodes. */
  ghost predicate FindsComponents(tarjan: Graph -> seq<seq<nat>>) {
    forall outs: Graph :: Closed(outs) ==> IsSccGroups(outs, tarjan(outs))
  }

  /** Edges stay inside the graph. */
  ghost predicate Closed(outs: Graph) {
    forall u, w: nat :: 0 <= u < |outs| && w in outs[u] ==> w < |outs|
  }

  method ImplicationSccs(cs: seq<Clause>, numVars: nat, tarjan: Graph -> seq<seq<nat>>) returns (groups: seq<seq<nat>>)
    requires OverVars(cs, numVars) && FindsComponents(tarjan)
    ensures IsSccGroups(LiteralGraph(cs, numVars), groups)
  {
    hide LiteralGraph, Originals, OutEdges;
    var graph := new ImplicationGraph.Of(cs, numVars);
    var vars := graph.vars;
    var outs: Graph := [];
    var name: seq<nat> := [];
    for g := 0 to |vars| * 2
      invariant graph.Valid() && graph.vars == vars && graph.source == cs
      invariant |outs| == |name| == g
      invariant forall h: nat :: h < g ==> name[h] == OriginalNode(vars, h)
      invariant forall h: nat :: h < g ==> InGraph(vars, outs[h]) && Originals(vars, outs[h]) == OutEdges(cs, name[h])
    {
      var out := graph.Out(g);
      outs := outs + [out];
      name := name + [OriginalNode(vars, g)];
    }
    SmallGraphEmbeds(cs, numVars, vars, outs, name);
    var found := tarjan(outs);
    groups := NameGroups(found, name);
    NamedGroups(outs, LiteralGraph(cs, numVars), name, found, groups);
  }

  /** The groups' nodes restated in the original node space. */
  method NameGroups(found: seq<seq<nat>>, name: seq<nat>) returns (groups: seq<seq<nat>>)
    requires forall g :: g in found ==> forall u: nat :: u in g ==> u < |name|
    ensures GroupsNamed(found, groups, name)
  {
    groups := [];
    for i := 0 to |found|
      invariant GroupsNamed(found[..i], groups, name)
    {
      assert found[i] in found;
      groups := groups + [NameNodes(found[i], name)];
      assert found[..i + 1] == found[..i] + [found[i]];
    }
    assert found[..|found|] == found;
  }

  lemma SmallGraphEmbeds(cs: seq<Clause>, numVars: nat, vars: seq<nat>, outs: Graph, name: seq<nat>)
    requires OverVars(cs, numVars) && GraphVars(cs, vars)
    requires |outs| == |name| == |vars| * 2
    requires forall h: nat :: h < |name| ==> name[h] == OriginalNode(vars, h)
    requires forall h: nat :: h < |outs| ==> InGraph(vars, outs[h]) && Originals(vars, outs[h]) == OutEdges(cs, name[h])
    ensures Closed(outs)
    ensures Embeds(outs, LiteralGraph(cs, numVars), name)
    ensures forall u: nat, x: nat :: Edge(LiteralGraph(cs, numVars), u, x) ==> HasName(name, u)
  {
    var big := LiteralGraph(cs, numVars);
    forall g: nat, h: nat | g < |name| && h < |name| && name[g] == name[h] ensures g == h {
      OriginalNodeInjective(vars, g, h);
    }
    forall g: nat | g < |outs| ensures NamedEdges(outs, big, name, g) {
      NodeInRange(cs, numVars, vars, g);
      forall k | 0 <= k < |outs[g]| ensures outs[g][k] < |name| && name[outs[g][k]] == big[name[g]][k] {
        assert Originals(vars, outs[g])[k] == OriginalNode(vars, outs[g][k]);
      }
    }
    forall u: nat, x: nat | Edge(big, u, x) ensures HasName(name, u) {
      GraphEdge(cs, numVars, u, x);
      EdgesAreMentioned(cs, u, x);
      var k :| 0 <= k < |vars| && vars[k] == u / 2;
      assert name[2 * k + u % 2] == u;
    }
  }

  lemma NodeInRange(cs: seq<Clause>, numVars: nat, vars: seq<nat>, g: nat)
    requires OverVars(cs, numVars) && GraphVars(cs, vars) && g / 2 < |vars|
    ensures OriginalNode(vars, g) < 2 * numVars
  {
    assert vars[g / 2] in vars;
    var c, l :| c in cs && IsBinary(c) && l in c && Idx(l.v) == vars[g / 2];
    assert InRange(c, numVars);
  }

  // ---- representatives ----

  /** The literal each variable is equivalent to. */
  type RepTable = seq<Literal>

  function VarToRep(rep: seq<nat>, numVars: nat): (t: RepTable)
    requires |rep| == 2 * numVars && numVars <= MAX_VAR && forall u :: 0 <= u < |rep| ==> rep[u] < 2 * numVars
    ensures |t| == numVars
  {
    seq(numVars, v requires 0 <= v < numVars => NodeLit(rep[v * 2]))
  }

  /** `t` reads the least nodes of the components of `cs` at the positive literals. */
  ghost predicate ReadsComponents(cs: seq<Clause>, numVars: nat, t: RepTable) {
    && OverVars(cs, numVars) && |t| == numVars
    && forall v :: 0 <= v < numVars ==> IsLeast(LiteralGraph(cs, numVars), 2 * v, LitNode(t[v]))
  }

  lemma {:induction false} WalkStaysInside(cs: seq<Clause>, numVars: nat, n: nat, u: nat, w: nat)
    requires OverVars(cs, numVars) && u < 2 * numVars && Walk(LiteralGraph(cs, numVars), n, u, w)
    ensures w < 2 * numVars
  {
    if n > 0 {
      var x: nat :| Edge(LiteralGraph(cs, numVars), u, x) && Walk(LiteralGraph(cs, numVars), n - 1, x, w);
      GraphEdge(cs, numVars, u, x);
      WalkStaysInside(cs, numVars, n - 1, x, w);
    }
  }

  lemma LeastStaysInside(cs: seq<Clause>, numVars: nat, u: nat, least: nat)
    requires OverVars(cs, numVars) && u < 2 * numVars && IsLeast(LiteralGraph(cs, numVars), u, least)
    ensures least < 2 * numVars
  {
    var n: nat :| Walk(LiteralGraph(cs, numVars), n, u, least);
    WalkStaysInside(cs, numVars, n, u, least);
  }

  /** Reading the table off component representatives. */
  lemma VarToRepReads(cs: seq<Clause>, numVars: nat, groups: seq<seq<nat>>, rep: seq<nat>)
    requires OverVars(cs, numVars) && IsSccGroups(LiteralGraph(cs, numVars), groups)
    requires |rep| == 2 * numVars && forall u: nat :: u < |rep| ==> rep[u] == RepIn(groups, u)
    ensures forall u :: 0 <= u < |rep| ==> rep[u] < 2 * numVars
    ensures ReadsComponents(cs, numVars, VarToRep(rep, numVars))
  {
    forall u: nat | u < |rep| ensures IsLeast(LiteralGraph(cs, numVars), u, rep[u]) && rep[u] < 2 * numVars {
      RepresentativesAreLeast(LiteralGraph(cs, numVars), groups, u);
      LeastStaysInside(cs, numVars, u, rep[u]);
    }
    var t := VarToRep(rep, numVars);
    forall v | 0 <= v < numVars ensures LitNode(t[v]) == rep[2 * v] {
      assert v * 2 == 2 * v;
    }
  }

  /** A representative is its own positive literal. */
  predicate SelfRepresenting(t: RepTable) {
    forall v :: 0 <= v < |t| ==> Idx(t[v].v) < |t| && t[Idx(t[v].v)] == Literal(t[v].v, true)
  }

  /** Taking the least node of each component, with skew-symmetry, makes every representative stand
      for its own positive literal. */
  lemma RepresentativesAreSelf(cs: seq<Clause>, numVars: nat, t: RepTable)
    requires ReadsComponents(cs, numVars, t)
    ensures SelfRepresenting(t)
  {
    forall v | 0 <= v < |t| ensures Idx(t[v].v) < |t| && t[Idx(t[v].v)] == Literal(t[v].v, true) {
      LeastStaysInside(cs, numVars, 2 * v, LitNode(t[v]));
      RepresentativeIsSelf(cs, numVars, t, v);
    }
  }

  lemma RepresentativeIsSelf(cs: seq<Clause>, numVars: nat, t: RepTable, v: nat)
    requires ReadsComponents(cs, numVars, t) && v < numVars && Idx(t[v].v) < numVars
    ensures t[Idx(t[v].v)] == Literal(t[v].v, true)
  {
    var g := LiteralGraph(cs, numVars);
    var r, x := LitNode(t[v]), Idx(t[v].v);
    var s := LitNode(t[x]);
    assert IsLeast(g, 2 * v, r) && IsLeast(g, 2 * x, s);
    MutualIsEquivalence(g, 2 * x, 2 * x, 2 * x);
    assert s <= 2 * x;
    if t[v].positive {
      SameComponentSameLeast(g, 2 * v, 2 * x, r, s);
    } else {
      MutualIsSkew(cs, numVars, 2 * x, s);
      assert Mutual(g, 2 * x + 1, Neg(s));
      MutualIsEquivalence(g, 2 * v, r, Neg(s));
      assert r <= Neg(s);
    }
    assert s == 2 * x;
  }

  /** The assignment gives every variable the value of its representative literal. */
  ghost predicate Respects(a: Assignment, t: RepTable) {
    |t| <= MAX_VAR && forall v: VarId :: v <= |t| ==> (v in a <==> LitTrue(a, t[Idx(v)]))
  }

  lemma ModelsRespect(a: Assignment, cs: seq<Clause>, numVars: nat, t: RepTable)
    requires ReadsComponents(cs, numVars, t) && Satisfies(a, cs)
    ensures Respects(a, t)
  {
    forall v: VarId | v <= |t| ensures v in a <==> LitTrue(a, t[Idx(v)]) {
      ComponentIsEquivalent(a, cs, numVars, 2 * Idx(v), LitNode(t[Idx(v)]));
      assert NodeLit(2 * Idx(v)) == Literal(v, true) && NodeLit(LitNode(t[Idx(v)])) == t[Idx(v)];
    }
  }

  /** Some variable is in one component with its negation. */
  ghost predicate Contradicts(cs: seq<Clause>, numVars: nat) {
    exists v: nat :: v < numVars && Mutual(LiteralGraph(cs, numVars), v * 2, v * 2 + 1)
  }

  /** Some two literals are in one component. */
  ghost predicate Equates(cs: seq<Clause>, numVars: nat) {
    exists u: nat, w: nat :: u != w && Mutual(LiteralGraph(cs, numVars), u, w)
  }

  predicate HasEquivContradiction(rep: seq<nat>, numVars: nat)
    requires |rep| == 2 * numVars
  {
    exists v :: 0 <= v < numVars && rep[v * 2] == rep[v * 2 + 1]
  }

  /** The test on representatives finds a variable in one component with its negation exactly when there is one. */
  lemma ContradictionFound(cs: seq<Clause>, numVars: nat, groups: seq<seq<nat>>, rep: seq<nat>)
    requires IsSccGroups(LiteralGraph(cs, numVars), groups)
    requires |rep| == 2 * numVars && forall u: nat :: u < |rep| ==> rep[u] == RepIn(groups, u)
    ensures HasEquivContradiction(rep, numVars) <==> Contradicts(cs, numVars)
  {
    hide IsSccGroups, Mutual, LiteralGraph, RepIn, IsLeast;
    var g := LiteralGraph(cs, numVars);
    forall v: nat | v < numVars ensures rep[v * 2] == rep[v * 2 + 1] <==> Mutual(g, v * 2, v * 2 + 1) {
      RepresentativesAreLeast(g, groups, v * 2);
      RepresentativesAreLeast(g, groups, v * 2 + 1);
      SameComponentSameLeast(g, v * 2, v * 2 + 1, rep[v * 2], rep[v * 2 + 1]);
    }
    if Contradicts(cs, numVars) {
      var v: nat :| v < numVars && Mutual(g, v * 2, v * 2 + 1);
      assert rep[v * 2] == rep[v * 2 + 1];
    }
    if HasEquivContradiction(rep, numVars) {
      var v: nat :| v < numVars && rep[v * 2] == rep[v * 2 + 1];
      assert Mutual(g, v * 2, v * 2 + 1);
    }
  }

  /** There are groups exactly when two literals are in one component. */
  lemma GroupsFound(cs: seq<Clause>, numVars: nat, groups: seq<seq<nat>>)
    requires IsSccGroups(LiteralGraph(cs, numVars), groups)
    ensures groups != [] <==> Equates(cs, numVars)
  {
    hide Mutual, LiteralGraph;
    if groups != [] {
      assert groups[0] in groups;
      var u, w := groups[0][0], groups[0][1];
      assert Together(groups, u, w);
    }
    if Equates(cs, numVars) {
      var u: nat, w: nat :| u != w && Mutual(LiteralGraph(cs, numVars), u, w);
      assert Together(groups, u, w);
    }
  }

  /** A literal in one component with its negation leaves no model. */
  lemma ContradictionIsUnsat(a: Assignment, cs: seq<Clause>, numVars: nat)
    requires OverVars(cs, numVars) && numVars <= MAX_VAR && Contradicts(cs, numVars)
    ensures !Satisfies(a, cs)
  {
    var v: nat :| v < numVars && Mutual(LiteralGraph(cs, numVars), v * 2, v * 2 + 1);
    OppositeNodes(a, v);
    if Satisfies(a, cs) {
      ComponentIsEquivalent(a, cs, numVars, v * 2, v * 2 + 1);
    }
  }

  lemma OppositeNodes(a: Assignment, v: nat)
    requires v < MAX_VAR
    ensures NodeTrue(a, v * 2) <==> !NodeTrue(a, v * 2 + 1)
  {
    assert NodeLit(v * 2) == Literal(FromIdx(v), true) && NodeLit(v * 2 + 1) == Literal(FromIdx(v), false);
  }
}
