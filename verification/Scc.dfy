/** Strongly connected components of a graph given by its out-edge lists, and the smallest node of each. */
module Scc {
  import opened Sequences

  /** Node `u`'s out-neighbours are `outs[u]`. */
  type Graph = seq<seq<nat>>

  ghost predicate Edge(outs: Graph, u: nat, w: nat) {
    u < |outs| && w in outs[u]
  }

  /** A walk of `n` edges leads from `u` to `w`. */
  ghost predicate Walk(outs: Graph, n: nat, u: nat, w: nat) {
    if n == 0 then u == w else exists x :: Edge(outs, u, x) && Walk(outs, n - 1, x, w)
  }

  ghost predicate Reach(outs: Graph, u: nat, w: nat) {
    exists n :: Walk(outs, n, u, w)
  }

  /** In one strongly connected component. */
  ghost predicate Mutual(outs: Graph, u: nat, w: nat) {
    Reach(outs, u, w) && Reach(outs, w, u)
  }

  lemma {:induction false} WalkJoin(outs: Graph, n: nat, m: nat, u: nat, w: nat, x: nat)
    requires Walk(outs, n, u, w) && Walk(outs, m, w, x)
    ensures Walk(outs, n + m, u, x)
  {
    if n > 0 {
      var y: nat :| Edge(outs, u, y) && Walk(outs, n - 1, y, w);
      WalkJoin(outs, n - 1, m, y, w, x);
    }
  }

  lemma ReachTransitive(outs: Graph, u: nat, w: nat, x: nat)
    requires Reach(outs, u, w) && Reach(outs, w, x)
    ensures Reach(outs, u, x)
  {
    var n: nat :| Walk(outs, n, u, w);
    var m: nat :| Walk(outs, m, w, x);
    WalkJoin(outs, n, m, u, w, x);
  }

  lemma MutualIsEquivalence(outs: Graph, u: nat, w: nat, x: nat)
    ensures Mutual(outs, u, u)
    ensures Mutual(outs, u, w) ==> Mutual(outs, w, u)
    ensures Mutual(outs, u, w) && Mutual(outs, w, x) ==> Mutual(outs, u, x)
  {
    assert Walk(outs, 0, u, u);
    if Mutual(outs, u, w) && Mutual(outs, w, x) {
      ReachTransitive(outs, u, w, x);
      ReachTransitive(outs, x, w, u);
    }
  }

  /** Two nodes on a cycle each have an edge out. */
  lemma MutualHasEdge(outs: Graph, u: nat, w: nat)
    requires Mutual(outs, u, w) && u != w
    ensures exists x :: Edge(outs, u, x)
  {
    var n: nat :| Walk(outs, n, u, w);
    var x: nat :| Edge(outs, u, x) && Walk(outs, n - 1, x, w);
  }

  // ---- component groups ----

  ghost predicate Together(groups: seq<seq<nat>>, u: nat, w: nat) {
    exists i :: 0 <= i < |groups| && u in groups[i] && w in groups[i]
  }

  /** The groups are exactly the components of two or more nodes: what Tarjan's search returns. */
  ghost predicate IsSccGroups(outs: Graph, groups: seq<seq<nat>>) {
    && (forall g :: g in groups ==> |g| >= 2 && Distinct(g) && forall u: nat :: u in g ==> u < |outs|)
    && (forall u: nat, w: nat :: u != w ==> (Mutual(outs, u, w) <==> Together(groups, u, w)))
    && (forall i, j, u: nat :: 0 <= i < |groups| && 0 <= j < |groups| && u in groups[i] && u in groups[j] ==> i == j)
  }

  // ---- representatives ----

  /** The least node of a group, 0 for an empty one. */
  function Smallest(group: seq<nat>): (r: nat)
    ensures group != [] ==> r in group && forall u: nat :: u in group ==> r <= u
  {
    if |group| == 0 then 0
    else if |group| == 1 then group[0]
    else
      var m := Smallest(group[..|group| - 1]);
      assert group == group[..|group| - 1] + [group[|group| - 1]];
      if group[|group| - 1] < m then group[|group| - 1] else m
  }

  /** The least node of the last group holding `u`, `u` itself when none does. */
  function RepIn(groups: seq<seq<nat>>, u: nat): nat {
    if groups == [] then u
    else if u in groups[|groups| - 1] then Smallest(groups[|groups| - 1])
    else RepIn(groups[..|groups| - 1], u)
  }

  method SccRepresentatives(groups: seq<seq<nat>>, numNodes: nat) returns (rep: seq<nat>)
    requires forall g :: g in groups ==> forall u: nat :: u in g ==> u < numNodes
    ensures |rep| == numNodes && forall u: nat :: u < numNodes ==> rep[u] == RepIn(groups, u)
  {
    rep := seq(numNodes, u => u);
    for i := 0 to |groups|
      invariant |rep| == numNodes && forall u: nat :: u < numNodes ==> rep[u] == RepIn(groups[..i], u)
    {
      var group := groups[i];
      assert group in groups;
      var least := Smallest(group);
      for k := 0 to |group|
        invariant |rep| == numNodes
        invariant forall u: nat :: u < numNodes ==>
                    rep[u] == if u in group[..k] then least else RepIn(groups[..i], u)
      {
        assert group[k] in group;
        assert group[..k + 1] == group[..k] + [group[k]];
        rep := rep[group[k] := least];
      }
      assert group[..|group|] == group;
      assert groups[..i + 1][..i] == groups[..i];
    }
    assert groups[..|groups|] == groups;
  }

  ghost predicate IsLeast(outs: Graph, u: nat, least: nat) {
    Mutual(outs, u, least) && forall w: nat :: Mutual(outs, u, w) ==> least <= w
  }

  lemma {:induction false} RepInGroup(groups: seq<seq<nat>>, u: nat)
    ensures (RepIn(groups, u) == u && forall i :: 0 <= i < |groups| ==> u !in groups[i])
         || (exists i :: 0 <= i < |groups| && u in groups[i] && RepIn(groups, u) == Smallest(groups[i]))
  {
    if groups != [] && u !in groups[|groups| - 1] {
      var front := groups[..|groups| - 1];
      RepInGroup(front, u);
      if i :| 0 <= i < |front| && u in front[i] && RepIn(front, u) == Smallest(front[i]) {
        assert u in groups[i];
      }
    }
  }

  /** The representatives of the component groups are the least nodes of their components. */
  lemma RepresentativesAreLeast(outs: Graph, groups: seq<seq<nat>>, u: nat)
    requires IsSccGroups(outs, groups)
    ensures IsLeast(outs, u, RepIn(groups, u))
  {
    var least := RepIn(groups, u);
    RepInGroup(groups, u);
    MutualIsEquivalence(outs, u, u, u);
    if i :| 0 <= i < |groups| && u in groups[i] && least == Smallest(groups[i]) {
      assert Together(groups, u, least);
      forall w: nat | Mutual(outs, u, w) && w != u ensures least <= w {
        var j :| 0 <= j < |groups| && u in groups[j] && w in groups[j];
        assert i == j;
      }
    }
  }

  /** The least node of a component is fixed by the component. */
  lemma SameComponentSameLeast(outs: Graph, u: nat, w: nat, least: nat, least': nat)
    requires IsLeast(outs, u, least) && IsLeast(outs, w, least')
    ensures Mutual(outs, u, w) <==> least == least'
  {
    MutualIsEquivalence(outs, u, w, least');
    MutualIsEquivalence(outs, w, u, least);
    MutualIsEquivalence(outs, least, w, u);
    MutualIsEquivalence(outs, u, least, w);
    MutualIsEquivalence(outs, w, least, u);
  }

  // ---- a graph seen through other node names ----

  /** `small` is the part of `big` reachable under the names: node `g` is `name[g]`, with the same edges. */
  ghost predicate Embeds(small: Graph, big: Graph, name: seq<nat>) {
    && |name| == |small|
    && (forall g: nat, h: nat :: g < |name| && h < |name| && name[g] == name[h] ==> g == h)
    && (forall g: nat :: g < |small| ==> NamedEdges(small, big, name, g))
  }

  ghost predicate NamedEdges(small: Graph, big: Graph, name: seq<nat>, g: nat)
    requires g < |small| == |name|
  {
    && name[g] < |big|
    && |small[g]| == |big[name[g]]|
    && forall k :: 0 <= k < |small[g]| ==> small[g][k] < |name| && name[small[g][k]] == big[name[g]][k]
  }

  lemma {:induction false} WalkNamed(small: Graph, big: Graph, name: seq<nat>, n: nat, g: nat, h: nat)
    requires Embeds(small, big, name) && g < |name| && Walk(small, n, g, h)
    ensures h < |name| && Walk(big, n, name[g], name[h])
  {
    if n > 0 {
      var x: nat :| Edge(small, g, x) && Walk(small, n - 1, x, h);
      assert NamedEdges(small, big, name, g) && x in small[g];
      var k :| 0 <= k < |small[g]| && small[g][k] == x;
      WalkNamed(small, big, name, n - 1, x, h);
      assert Edge(big, name[g], name[x]);
    }
  }

  lemma {:induction false} WalkUnnamed(small: Graph, big: Graph, name: seq<nat>, n: nat, g: nat, w: nat)
    requires Embeds(small, big, name) && g < |name| && Walk(big, n, name[g], w)
    ensures exists h: nat :: h < |name| && name[h] == w && Walk(small, n, g, h)
  {
    if n > 0 {
      var y: nat :| Edge(big, name[g], y) && Walk(big, n - 1, y, w);
      assert NamedEdges(small, big, name, g);
      var k :| 0 <= k < |big[name[g]]| && big[name[g]][k] == y;
      var x := small[g][k];
      WalkUnnamed(small, big, name, n - 1, x, w);
      var h: nat :| h < |name| && name[h] == w && Walk(small, n - 1, x, h);
      assert Edge(small, g, x);
    }
  }

  /** Names keep the components. */
  lemma MutualNamed(small: Graph, big: Graph, name: seq<nat>, g: nat, h: nat)
    requires Embeds(small, big, name) && g < |name| && h < |name|
    ensures Mutual(small, g, h) <==> Mutual(big, name[g], name[h])
  {
    ReachNamed(small, big, name, g, h);
    ReachNamed(small, big, name, h, g);
  }

  lemma ReachNamed(small: Graph, big: Graph, name: seq<nat>, g: nat, h: nat)
    requires Embeds(small, big, name) && g < |name| && h < |name|
    ensures Reach(small, g, h) <==> Reach(big, name[g], name[h])
  {
    if Reach(small, g, h) {
      var n: nat :| Walk(small, n, g, h);
      WalkNamed(small, big, name, n, g, h);
    }
    if Reach(big, name[g], name[h]) {
      var n: nat :| Walk(big, n, name[g], name[h]);
      WalkUnnamed(small, big, name, n, g, name[h]);
    }
  }

  /** Some nodes renamed. */
  function NameNodes(nodes: seq<nat>, name: seq<nat>): (r: seq<nat>)
    requires forall u: nat :: u in nodes ==> u < |name|
    ensures |r| == |nodes| && forall k :: 0 <= k < |r| ==> nodes[k] in nodes && r[k] == name[nodes[k]]
  {
    seq(|nodes|, k requires 0 <= k < |nodes| => NameAt(nodes, name, k))
  }

  function NameAt(nodes: seq<nat>, name: seq<nat>, k: nat): nat
    requires k < |nodes| && forall u: nat :: u in nodes ==> u < |name|
  {
    assert nodes[k] in nodes;
    name[nodes[k]]
  }

  ghost predicate GroupsNamed(groups: seq<seq<nat>>, named: seq<seq<nat>>, name: seq<nat>) {
    && |named| == |groups|
    && forall i :: 0 <= i < |groups| ==>
        && groups[i] in groups
        && (forall u: nat :: u in groups[i] ==> u < |name|)
        && named[i] == NameNodes(groups[i], name)
  }

  lemma NamedMember(nodes: seq<nat>, name: seq<nat>, g: nat)
    requires forall u: nat :: u in nodes ==> u < |name|
    requires g < |name| && forall a: nat, b: nat :: a < |name| && b < |name| && name[a] == name[b] ==> a == b
    ensures name[g] in NameNodes(nodes, name) <==> g in nodes
  {
    var r := NameNodes(nodes, name);
    if g in nodes {
      var k :| 0 <= k < |nodes| && nodes[k] == g;
      assert r[k] == name[g];
    }
  }

  lemma NamedMemberBack(nodes: seq<nat>, name: seq<nat>, w: nat)
    requires forall u: nat :: u in nodes ==> u < |name|
    requires w in NameNodes(nodes, name)
    ensures exists g: nat :: g in nodes && name[g] == w
  {
    var k :| 0 <= k < |nodes| && NameNodes(nodes, name)[k] == w;
    assert nodes[k] in nodes && name[nodes[k]] == w;
  }

  lemma TogetherNamed(groups: seq<seq<nat>>, named: seq<seq<nat>>, name: seq<nat>, g: nat, h: nat)
    requires GroupsNamed(groups, named, name) && g < |name| && h < |name|
    requires forall a: nat, b: nat :: a < |name| && b < |name| && name[a] == name[b] ==> a == b
    ensures Together(groups, g, h) <==> Together(named, name[g], name[h])
  {
    forall i | 0 <= i < |groups|
      ensures g in groups[i] <==> name[g] in named[i]
      ensures h in groups[i] <==> name[h] in named[i]
    {
      NamedMember(groups[i], name, g);
      NamedMember(groups[i], name, h);
    }
  }

  ghost predicate HasName(name: seq<nat>, u: nat) {
    exists g: nat :: g < |name| && name[g] == u
  }

  /** The groups of the small graph, under the names, are the groups of the big one, when every node
      with an edge has a name. */
  lemma NamedGroups(small: Graph, big: Graph, name: seq<nat>, groups: seq<seq<nat>>, named: seq<seq<nat>>)
    requires Embeds(small, big, name) && IsSccGroups(small, groups) && GroupsNamed(groups, named, name)
    requires forall u: nat, x: nat :: Edge(big, u, x) ==> HasName(name, u)
    ensures IsSccGroups(big, named)
  {
    forall g | g in named ensures |g| >= 2 && Distinct(g) && forall u: nat :: u in g ==> u < |big| {
      var i :| 0 <= i < |named| && named[i] == g;
      forall u: nat | u in g ensures u < |big| {
        NamedMemberBack(groups[i], name, u);
        var x: nat :| x in groups[i] && name[x] == u;
        assert NamedEdges(small, big, name, x);
      }
    }
    forall u: nat, w: nat | u != w ensures Mutual(big, u, w) <==> Together(named, u, w) {
      NamedPair(small, big, name, groups, named, u, w);
    }
    forall i, j, u: nat | 0 <= i < |named| && 0 <= j < |named| && u in named[i] && u in named[j] ensures i == j {
      NamedMemberBack(groups[i], name, u);
      NamedMemberBack(groups[j], name, u);
    }
  }

  lemma NamedPair(small: Graph, big: Graph, name: seq<nat>, groups: seq<seq<nat>>, named: seq<seq<nat>>, u: nat, w: nat)
    requires Embeds(small, big, name) && IsSccGroups(small, groups) && GroupsNamed(groups, named, name)
    requires forall u: nat, x: nat :: Edge(big, u, x) ==> HasName(name, u)
    requires u != w
    ensures Mutual(big, u, w) <==> Together(named, u, w)
  {
    if Mutual(big, u, w) {
      MutualHasEdge(big, u, w);
      MutualHasEdge(big, w, u);
      assert HasName(name, u) && HasName(name, w);
    }
    if Together(named, u, w) {
      var i :| 0 <= i < |named| && u in named[i] && w in named[i];
      NamedMemberBack(groups[i], name, u);
      NamedMemberBack(groups[i], name, w);
      assert HasName(name, u) && HasName(name, w);
    }
    if HasName(name, u) && HasName(name, w) {
      var g: nat :| g < |name| && name[g] == u;
      var h: nat :| h < |name| && name[h] == w;
      MutualNamed(small, big, name, g, h);
      TogetherNamed(groups, named, name, g, h);
    }
  }
}
