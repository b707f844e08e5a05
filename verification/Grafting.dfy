/** One tree from many: the components' trees under their outer names, and a leaf for every free variable. */
module Grafting {
  import opened Cnf
  import opened Vtrees
  import opened Reindex

  /** A component's tree over its own variables, the clauses it serves, and what its variables stand for. */
  datatype ComponentVtree = ComponentVtree(vtree: Vtree, clauseIndices: seq<nat>, localToOuter: seq<VarId>)

  ghost predicate Spans(c: ComponentVtree) {
    c.vtree.Valid() && |c.localToOuter| <= MAX_VAR && LeafSpace(c.vtree.Shape(), |c.localToOuter|)
  }

  ghost predicate AllSpan(components: seq<ComponentVtree>) {
    forall i :: 0 <= i < |components| ==> Spans(components[i])
  }

  ghost function OuterBag(components: seq<ComponentVtree>): multiset<VarId> {
    if components == [] then multiset{}
    else OuterBag(components[..|components| - 1]) + multiset(components[|components| - 1].localToOuter)
  }

  // ---- subtrees side by side in an arena ----

  ghost predicate RootsHold(nodes: Nodes, roots: seq<nat>, trees: seq<Tree>) {
    && Built(nodes) && |roots| == |trees|
    && forall k :: 0 <= k < |roots| ==> roots[k] < |nodes| && TreeAt(nodes, roots[k]) == trees[k]
  }

  ghost function BagOfTrees(trees: seq<Tree>): multiset<VarId> {
    if trees == [] then multiset{}
    else BagOfTrees(trees[..|trees| - 1]) + multiset(Leaves(trees[|trees| - 1]))
  }

  lemma RootsKept(nodes: Nodes, more: Nodes, roots: seq<nat>, trees: seq<Tree>)
    requires RootsHold(nodes, roots, trees) && Built(more) && nodes <= more
    ensures RootsHold(more, roots, trees)
  {
    forall k | 0 <= k < |roots| ensures roots[k] < |more| && TreeAt(more, roots[k]) == trees[k] {
      TreeKept(nodes, more, roots[k]);
    }
  }

  lemma RootAdded(nodes: Nodes, more: Nodes, roots: seq<nat>, trees: seq<Tree>, root: nat, t: Tree)
    requires RootsHold(nodes, roots, trees) && Built(more) && nodes <= more
    requires root < |more| && TreeAt(more, root) == t
    ensures RootsHold(more, roots + [root], trees + [t])
    ensures BagOfTrees(trees + [t]) == BagOfTrees(trees) + multiset(Leaves(t))
  {
    hide Leaves, TreeAt;
    RootsKept(nodes, more, roots, trees);
    assert (trees + [t])[..|trees|] == trees;
  }

  /** The trees on a left-leaning chain, in order. */
  ghost function ChainOf(trees: seq<Tree>): Tree
    requires trees != []
  {
    if |trees| == 1 then trees[0] else Node(ChainOf(trees[..|trees| - 1]), trees[|trees| - 1])
  }

  /** Each component's own tree, its leaves under their outer names. */
  ghost function OuterTrees(components: seq<ComponentVtree>): (trees: seq<Tree>)
    requires AllSpan(components)
    ensures |trees| == |components|
  {
    seq(|components|, i requires 0 <= i < |components| => OuterTree(components[i]))
  }

  ghost function OuterTree(c: ComponentVtree): Tree
    requires Spans(c)
  {
    RenameTree(c.vtree.Shape(), LocalName(c.localToOuter))
  }

  function LeafTrees(vars: seq<VarId>): (trees: seq<Tree>)
    ensures |trees| == |vars|
  {
    seq(|vars|, i requires 0 <= i < |vars| => Leaf(vars[i]))
  }

  /** What grafting makes of the components and the free variables. */
  ghost function Grafted(components: seq<ComponentVtree>, freeVars: seq<VarId>): Tree
    requires AllSpan(components) && (components != [] || freeVars != [])
  {
    ChainOf(OuterTrees(components) + LeafTrees(freeVars))
  }

  lemma NothingGrafted(nodes: Nodes)
    requires Built(nodes)
    ensures RootsHold(nodes, [], []) && BagOfTrees([]) == OuterBag([])
  {
  }

  lemma OuterNext(components: seq<ComponentVtree>, i: nat)
    requires i < |components|
    ensures OuterBag(components[..i + 1]) == OuterBag(components[..i]) + multiset(components[i].localToOuter)
  {
    assert components[..i + 1][..i] == components[..i];
  }

  lemma OneOuterTree(components: seq<ComponentVtree>, i: nat)
    requires AllSpan(components) && i < |components|
    ensures Spans(components[i])
    ensures OuterTrees(components)[..i + 1] == OuterTrees(components)[..i] + [OuterTree(components[i])]
  {
    hide OuterTree;
  }

  method GraftAll(arena: VtreeArena, components: seq<ComponentVtree>) returns (roots: seq<nat>, ghost trees: seq<Tree>)
    requires arena.Valid() && AllSpan(components)
    modifies arena
    ensures RootsHold(arena.nodes, roots, trees) && |roots| == |components| && BagOfTrees(trees) == OuterBag(components)
    ensures trees == OuterTrees(components)
  {
    hide TreeAt, Leaves, RenameTree, OuterBag, BagOfTrees, RootsHold, OuterTrees, AllSpan;
    roots, trees := [], [];
    NothingGrafted(arena.nodes);
    assert components[..0] == [];
    for i := 0 to |components|
      invariant arena.Valid() && RootsHold(arena.nodes, roots, trees)
      invariant |roots| == i && BagOfTrees(trees) == OuterBag(components[..i])
      invariant trees == OuterTrees(components)[..i]
    {
      var c := components[i];
      OneOuterTree(components, i);
      ghost var before := arena.nodes;
      var root := arena.Graft(c.vtree, LocalName(c.localToOuter));
      ghost var t := RenameTree(c.vtree.Shape(), LocalName(c.localToOuter));
      RenamedLeafSpace(c.vtree.Shape(), c.localToOuter);
      RootAdded(before, arena.nodes, roots, trees, root, t);
      roots, trees := roots + [root], trees + [t];
      OuterNext(components, i);
    }
    assert components[..|components|] == components;
  }

  lemma SingleLeaf(v: VarId)
    ensures multiset(Leaves(Leaf(v))) == multiset{v}
  {
  }

  method AddFree(arena: VtreeArena, freeVars: seq<VarId>, roots0: seq<nat>, ghost trees0: seq<Tree>)
    returns (roots: seq<nat>, ghost trees: seq<Tree>)
    requires RootsHold(arena.nodes, roots0, trees0)
    modifies arena
    ensures RootsHold(arena.nodes, roots, trees) && |roots| == |roots0| + |freeVars|
    ensures BagOfTrees(trees) == BagOfTrees(trees0) + multiset(freeVars)
    ensures trees == trees0 + LeafTrees(freeVars)
  {
    hide TreeAt, BagOfTrees, Leaves, OuterBag;
    roots, trees := roots0, trees0;
    for i := 0 to |freeVars|
      invariant RootsHold(arena.nodes, roots, trees) && |roots| == |roots0| + i
      invariant BagOfTrees(trees) == BagOfTrees(trees0) + multiset(freeVars[..i])
      invariant trees == trees0 + LeafTrees(freeVars)[..i]
    {
      ghost var before := arena.nodes;
      var leaf := arena.AddLeaf(freeVars[i]);
      RootAdded(before, arena.nodes, roots, trees, leaf, Leaf(freeVars[i]));
      SingleLeaf(freeVars[i]);
      roots, trees := roots + [leaf], trees + [Leaf(freeVars[i])];
      assert freeVars[..i + 1] == freeVars[..i] + [freeVars[i]];
    }
    assert freeVars[..|freeVars|] == freeVars;
  }

  /** All subtrees on a left-leaning chain. */
  method Chain(arena: VtreeArena, roots: seq<nat>, ghost trees: seq<Tree>) returns (root: nat, ghost t: Tree)
    requires RootsHold(arena.nodes, roots, trees) && roots != []
    modifies arena
    ensures arena.Valid() && root < |arena.nodes| && arena.TreeOf(root) == t && multiset(Leaves(t)) == BagOfTrees(trees)
    ensures t == ChainOf(trees)
  {
    root, t := roots[0], trees[0];
    assert trees[..1][..0] == [] && ChainOf(trees[..1]) == trees[0];
    for k := 1 to |roots|
      invariant RootsHold(arena.nodes, roots, trees)
      invariant root < |arena.nodes| && arena.TreeOf(root) == t && multiset(Leaves(t)) == BagOfTrees(trees[..k])
      invariant t == ChainOf(trees[..k])
    {
      ghost var before := arena.nodes;
      root := arena.AddInternal(root, roots[k]);
      ghost var joined := Node(t, trees[k]);
      RootsKept(before, arena.nodes, roots, trees);
      assert trees[..k + 1][..k] == trees[..k];
      assert Leaves(joined) == Leaves(t) + Leaves(trees[k]);
      t := joined;
    }
    assert trees[..|trees|] == trees;
  }

  /** The grafted tree's leaves are exactly the outer variables of the components and the free ones. */
  method GraftComponentVtrees(components: seq<ComponentVtree>, freeVars: seq<VarId>, numVars: nat) returns (t: Vtree)
    requires AllSpan(components) && (components != [] || freeVars != [])
    requires forall v :: v in OuterBag(components) + multiset(freeVars) ==> Idx(v) < numVars
    ensures t.Valid() && |t.varToLeaf| == numVars
    ensures multiset(Leaves(t.Shape())) == OuterBag(components) + multiset(freeVars)
    ensures t.Shape() == Grafted(components, freeVars)
  {
    var arena := new VtreeArena();
    var roots, trees := GraftAll(arena, components);
    roots, trees := AddFree(arena, freeVars, roots, trees);
    var root, shape := Chain(arena, roots, trees);
    forall v | v in Leaves(shape) ensures Idx(v) < numVars {
      assert v in multiset(Leaves(shape));
    }
    t := FromNodes(arena.nodes, root, numVars);
  }

  /** A copy with every leaf renamed, over the same variable space. */
  method Relabeled(t: Vtree, name: VarId -> VarId) returns (r: Vtree)
    requires t.Valid() && forall v :: v in Leaves(t.Shape()) ==> Idx(name(v)) < |t.varToLeaf|
    ensures r.Valid() && r.Shape() == RenameTree(t.Shape(), name) && |r.varToLeaf| == |t.varToLeaf|
  {
    var arena := new VtreeArena();
    var root := arena.Graft(t, name);
    RenamedLeaves(t.Shape(), name);
    forall v | v in Leaves(RenameTree(t.Shape(), name)) ensures Idx(v) < |t.varToLeaf| {
      var i :| 0 <= i < |Leaves(t.Shape())| && name(Leaves(t.Shape())[i]) == v;
      assert Leaves(t.Shape())[i] in Leaves(t.Shape());
    }
    r := FromNodes(arena.nodes, root, |t.varToLeaf|);
  }
}
