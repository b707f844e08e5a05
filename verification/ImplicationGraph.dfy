/** Implications from two-literal clauses, as flat successor lists with compact node numbers. */
module ImplicationGraph {
  import opened Cnf
  import opened Occ
  import opened Sequences
  import FlatIndex

  // ---- literal nodes ----

  /** A literal's node is its table index: `2x` for a positive literal, `2x + 1` for a negative one. */
  function LitNode(l: Literal): nat { LiteralIndex(Idx(l.v), l.positive) }

  function NodeLit(node: nat): Literal
    requires node / 2 < MAX_VAR
  {
    Literal(FromIdx(node / 2), node % 2 == 0)
  }

  /** The complementary node: the lowest bit flipped. */
  function Neg(node: nat): nat {
    if node % 2 == 0 then node + 1 else node - 1
  }

  predicate IsBinary(c: Clause) { |c| == 2 }

  // ---- the edges, in the original nodes ----

  /** The two contrapositive edges of each binary clause, in clause order. */
  function EdgeItems(cs: seq<Clause>): seq<FlatIndex.Item> {
    if cs == [] then []
    else
      var c := cs[|cs| - 1];
      EdgeItems(cs[..|cs| - 1])
      + (if IsBinary(c) then [(Neg(LitNode(c[0])), LitNode(c[1])), (Neg(LitNode(c[1])), LitNode(c[0]))] else [])
  }

  /** The out-edges of a node of the original variable space. */
  function OutEdges(cs: seq<Clause>, node: nat): seq<nat> {
    FlatIndex.ValuesOf(EdgeItems(cs), node)
  }

  // ---- renumbering nodes ----

  /** A node over the graph's own variables, named in the original space. */
  function OriginalNode(vars: seq<nat>, node: nat): nat
    requires node / 2 < |vars|
  {
    vars[node / 2] * 2 + node % 2
  }

  ghost predicate Named(vars: seq<nat>, node: nat) {
    exists g: nat :: g / 2 < |vars| && OriginalNode(vars, g) == node
  }

  lemma OriginalNodeInjective(vars: seq<nat>, g: nat, h: nat)
    requires Increasing(vars) && g / 2 < |vars| && h / 2 < |vars|
    ensures OriginalNode(vars, g) == OriginalNode(vars, h) ==> g == h
  {
    if g / 2 < h / 2 { assert vars[g / 2] < vars[h / 2]; }
    if h / 2 < g / 2 { assert vars[h / 2] < vars[g / 2]; }
  }

  /** `small` is `items` with every node renumbered. */
  ghost predicate Renumbers(vars: seq<nat>, small: seq<FlatIndex.Item>, items: seq<FlatIndex.Item>) {
    && |small| == |items|
    && forall i :: 0 <= i < |small| ==>
        && small[i].0 / 2 < |vars| && OriginalNode(vars, small[i].0) == items[i].0
        && small[i].1 / 2 < |vars| && OriginalNode(vars, small[i].1) == items[i].1
  }

  ghost predicate InGraph(vars: seq<nat>, nodes: seq<nat>) {
    forall i :: 0 <= i < |nodes| ==> nodes[i] / 2 < |vars|
  }

  ghost function Originals(vars: seq<nat>, nodes: seq<nat>): seq<nat>
    requires InGraph(vars, nodes)
  {
    seq(|nodes|, i requires 0 <= i < |nodes| => OriginalNode(vars, nodes[i]))
  }

  /** A renumbered index lists the renumbered values. */
  lemma {:induction false} RenumberedValues(vars: seq<nat>, small: seq<FlatIndex.Item>, items: seq<FlatIndex.Item>,
                                            g: nat)
    requires Increasing(vars) && g / 2 < |vars| && Renumbers(vars, small, items)
    ensures InGraph(vars, FlatIndex.ValuesOf(small, g))
    ensures Originals(vars, FlatIndex.ValuesOf(small, g)) == FlatIndex.ValuesOf(items, OriginalNode(vars, g))
  {
    hide Originals;
    if small == [] {
      NoOriginals(vars);
    } else {
      var n := |small| - 1;
      RenumberedValues(vars, small[..n], items[..n], g);
      OriginalNodeInjective(vars, small[n].0, g);
      var front := FlatIndex.ValuesOf(small[..n], g);
      assert front + [] == front;
      OriginalsAppend(vars, front, small[n].1);
      assert FlatIndex.ValuesOf(small, g) == if small[n].0 == g then front + [small[n].1] else front;
    }
  }

  lemma NoOriginals(vars: seq<nat>)
    ensures InGraph(vars, []) && Originals(vars, []) == []
  {
  }

  lemma OriginalsAppend(vars: seq<nat>, nodes: seq<nat>, node: nat)
    requires InGraph(vars, nodes) && node / 2 < |vars|
    ensures InGraph(vars, nodes + [node])
    ensures Originals(vars, nodes + [node]) == Originals(vars, nodes) + [OriginalNode(vars, node)]
  {
  }

  // ---- the graph ----

  const UNMARKED: nat := 0xFFFF_FFFF_FFFF_FFFF

  ghost predicate InBinary(cs: seq<Clause>, v: nat) {
    exists c, l :: c in cs && IsBinary(c) && l in c && Idx(l.v) == v
  }

  ghost predicate GraphVars(cs: seq<Clause>, vars: seq<nat>) {
    Increasing(vars) && forall v: nat :: v in vars <==> InBinary(cs, v)
  }

  /** Which variables some binary clause mentions. */
  method MarkVars(cs: seq<Clause>, numVars: nat) returns (marked: seq<bool>)
    requires forall c :: c in cs ==> InRange(c, numVars)
    ensures |marked| == numVars && forall v: nat :: v < numVars ==> (marked[v] <==> InBinary(cs, v))
  {
    marked := seq(numVars, _ => false);
    for i := 0 to |cs|
      invariant |marked| == numVars
      invariant forall v: nat :: v < numVars ==> (marked[v] <==> InBinary(cs[..i], v))
    {
      var c := cs[i];
      assert c in cs;
      assert forall d :: d in cs[..i + 1] <==> d in cs[..i] || d == c by { assert cs[..i + 1] == cs[..i] + [c]; }
      if IsBinary(c) {
        assert c[0] in c && c[1] in c && forall l :: l in c ==> l == c[0] || l == c[1];
        marked := marked[Idx(c[0].v) := true];
        marked := marked[Idx(c[1].v) := true];
      }
    }
    assert cs[..|cs|] == cs;
  }

  /** The marked variables in ascending order, and each one's number among them. */
  method NumberVars(marked: seq<bool>) returns (vars: seq<nat>, graphVar: seq<nat>)
    ensures Increasing(vars) && forall v: nat :: v in vars <==> v < |marked| && marked[v]
    ensures |graphVar| == |marked|
    ensures forall v: nat :: v < |marked| && marked[v] ==> graphVar[v] < |vars| && vars[graphVar[v]] == v
  {
    vars, graphVar := [], [];
    for v := 0 to |marked|
      invariant Increasing(vars) && forall u: nat :: u in vars <==> u < v && marked[u]
      invariant |graphVar| == v
      invariant forall u: nat :: u < v && marked[u] ==> graphVar[u] < |vars| && vars[graphVar[u]] == u
    {
      assert forall k: nat :: k < |vars| ==> vars[k] in vars;
      if marked[v] {
        graphVar := graphVar + [|vars|];
        vars := vars + [v];
      } else {
        graphVar := graphVar + [UNMARKED];
      }
    }
  }

  /** A literal's node over the graph's variables stands for its original node, and so do their negations. */
  lemma GraphNode(vars: seq<nat>, at: nat, l: Literal)
    requires at < |vars| && vars[at] == Idx(l.v)
    ensures var g := LiteralIndex(at, l.positive);
            && g / 2 == at && Neg(g) / 2 == at
            && OriginalNode(vars, g) == LitNode(l) && OriginalNode(vars, Neg(g)) == Neg(LitNode(l))
  {
  }

  /** The edges over the graph's own nodes. */
  method GraphItems(cs: seq<Clause>, vars: seq<nat>, graphVar: seq<nat>) returns (small: seq<FlatIndex.Item>)
    requires forall c, l :: c in cs && IsBinary(c) && l in c ==>
               Idx(l.v) < |graphVar| && graphVar[Idx(l.v)] < |vars| && vars[graphVar[Idx(l.v)]] == Idx(l.v)
    ensures Renumbers(vars, small, EdgeItems(cs))
  {
    small := [];
    for i := 0 to |cs|
      invariant Renumbers(vars, small, EdgeItems(cs[..i]))
    {
      var c := cs[i];
      assert c in cs && cs[..i + 1][..i] == cs[..i];
      if IsBinary(c) {
        assert c[0] in c && c[1] in c;
        var a := LiteralIndex(graphVar[Idx(c[0].v)], c[0].positive);
        var b := LiteralIndex(graphVar[Idx(c[1].v)], c[1].positive);
        GraphNode(vars, graphVar[Idx(c[0].v)], c[0]);
        GraphNode(vars, graphVar[Idx(c[1].v)], c[1]);
        small := small + [(Neg(a), b), (Neg(b), a)];
      }
    }
    assert cs[..|cs|] == cs;
  }

  class ImplicationGraph {
    var vars: seq<nat>
    var starts: array<nat>
    var targets: array<nat>
    /** The clauses the graph was built from, and its edges over its own nodes. */
    ghost var source: seq<Clause>
    ghost var items: seq<FlatIndex.Item>

    ghost predicate Valid()
      reads this, starts, targets
    {
      && GraphVars(source, vars)
      && Renumbers(vars, items, EdgeItems(source))
      && FlatIndex.IsIndex(starts[..], targets[..], items, |vars| * 2)
    }

    constructor Of(cs: seq<Clause>, numVars: nat)
      requires forall c :: c in cs ==> InRange(c, numVars)
      ensures Valid() && source == cs
    {
      var marked := MarkVars(cs, numVars);
      var numbered, graphVar := NumberVars(marked);
      forall c, l | c in cs && IsBinary(c) && l in c ensures Idx(l.v) < numVars && marked[Idx(l.v)] {
        assert InBinary(cs, Idx(l.v));
      }
      assert forall v: nat :: InBinary(cs, v) ==> v < numVars;
      var small := GraphItems(cs, numbered, graphVar);
      var s, flat := FlatIndex.Build(small, |numbered| * 2);
      vars, starts, targets := numbered, s, flat;
      source, items := cs, small;
    }

    /** The out-edges of a graph node: those of the original node it stands for, in clause order. */
    method Out(node: nat) returns (r: seq<nat>)
      requires Valid() && node / 2 < |vars|
      ensures InGraph(vars, r)
      ensures Originals(vars, r) == OutEdges(source, OriginalNode(vars, node))
    {
      RenumberedValues(vars, items, EdgeItems(source), node);
      assert FlatIndex.KeySlice(starts[..], targets[..], items, node);
      assert starts[..][node] == starts[node] && starts[..][node + 1] == starts[node + 1];
      r := targets[starts[node]..starts[node + 1]];
      assert r == targets[..][starts[node]..starts[node + 1]];
    }
  }

  /** `u -> w` is one of the two edges of some binary clause. */
  ghost predicate IsEdge(cs: seq<Clause>, u: nat, w: nat) {
    exists c :: c in cs && IsBinary(c) && ClauseEdge(c, u, w)
  }

  predicate ClauseEdge(c: Clause, u: nat, w: nat)
    requires IsBinary(c)
  {
    || (u == Neg(LitNode(c[0])) && w == LitNode(c[1]))
    || (u == Neg(LitNode(c[1])) && w == LitNode(c[0]))
  }

  lemma {:induction false} EdgeItemsMembers(cs: seq<Clause>, u: nat, w: nat)
    ensures (u, w) in EdgeItems(cs) <==> IsEdge(cs, u, w)
  {
    if cs != [] {
      var front, c := cs[..|cs| - 1], cs[|cs| - 1];
      EdgeItemsMembers(front, u, w);
      assert forall d :: d in cs <==> d in front || d == c;
    }
  }

  /** The out-edges of a node are the edges of the binary clauses. */
  lemma OutEdgesAreEdges(cs: seq<Clause>, u: nat, w: nat)
    ensures w in OutEdges(cs, u) <==> IsEdge(cs, u, w)
  {
    FlatIndex.ValuesMembers(EdgeItems(cs), u);
    EdgeItemsMembers(cs, u, w);
  }

  lemma ClauseEdgeMentions(c: Clause, u: nat, w: nat)
    requires IsBinary(c) && ClauseEdge(c, u, w)
    ensures exists l :: l in c && Idx(l.v) == u / 2
    ensures exists l :: l in c && Idx(l.v) == w / 2
  {
    assert c[0] in c && c[1] in c;
    assert Idx(c[0].v) == LitNode(c[0]) / 2 && Idx(c[1].v) == LitNode(c[1]) / 2;
  }

  /** Edges run between mentioned variables only, so a graph over those loses nothing. */
  lemma EdgesAreMentioned(cs: seq<Clause>, u: nat, w: nat)
    requires IsEdge(cs, u, w)
    ensures InBinary(cs, u / 2) && InBinary(cs, w / 2)
  {
    var c: Clause :| c in cs && IsBinary(c) && ClauseEdge(c, u, w);
    ClauseEdgeMentions(c, u, w);
  }
}
