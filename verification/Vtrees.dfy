/** Variable trees: the arena they are built in, and the renumbered node list a finished one carries. */
module Vtrees {
  import opened Wrappers
  import opened Cnf
  import opened Sequences
  import opened Ordering
  import opened Counting

  datatype Tree = Leaf(v: VarId) | Node(left: Tree, right: Tree)

  /** What the leaves carry, from the left. */
  function Leaves(t: Tree): seq<VarId> {
    match t
    case Leaf(v) => [v]
    case Node(left, right) => Leaves(left) + Leaves(right)
  }

  function RenameTree(t: Tree, name: VarId -> VarId): Tree {
    match t
    case Leaf(v) => Leaf(name(v))
    case Node(left, right) => Node(RenameTree(left, name), RenameTree(right, name))
  }

  lemma {:induction false} RenamedLeaves(t: Tree, name: VarId -> VarId)
    ensures Leaves(RenameTree(t, name)) == Map(name, Leaves(t))
  {
    if t.Node? {
      RenamedLeaves(t.left, name);
      RenamedLeaves(t.right, name);
    }
  }

  /** Renaming twice is renaming once by both. */
  lemma {:induction false} RenamedTwice(t: Tree, first: VarId -> VarId, second: VarId -> VarId, both: VarId -> VarId)
    requires forall v :: v in Leaves(t) ==> second(first(v)) == both(v)
    ensures RenameTree(RenameTree(t, first), second) == RenameTree(t, both)
  {
    match t
    case Leaf(v) => assert v in Leaves(t);
    case Node(left, right) =>
      RenamedTwice(left, first, second, both);
      RenamedTwice(right, first, second, both);
  }

  lemma {:induction false} LeavesNonEmpty(t: Tree)
    ensures |Leaves(t)| > 0
  {
    if t.Node? { LeavesNonEmpty(t.left); }
  }

  /** One leaf for each variable 1 to `n`. */
  ghost predicate LeafSpace(t: Tree, n: nat)
    requires n <= MAX_VAR
  {
    multiset(Leaves(t)) == multiset(AllVars(n))
  }

  /** The variables 1 to `n` in order. */
  function FirstVars(n: nat): (r: seq<VarId>)
    requires n <= MAX_VAR
    ensures |r| == n && forall i :: 0 <= i < n ==> r[i] == i + 1
  {
    seq(n, i requires 0 <= i < n => FromIdx(i))
  }

  lemma FirstVarsBag(n: nat)
    requires n <= MAX_VAR
    ensures multiset(FirstVars(n)) == multiset(AllVars(n)) && |AllVars(n)| == n
  {
    var s := FirstVars(n);
    DistinctBag(s);
    DistinctCardinality(s);
    forall v: VarId | v <= n ensures v in s { assert s[v - 1] == v; }
    assert ToSet(s) == AllVars(n);
  }

  lemma LeafSpaceFits(t: Tree, n: nat)
    requires n <= MAX_VAR && LeafSpace(t, n)
    ensures forall v :: v in Leaves(t) ==> Idx(v) < n
  {
    forall v | v in Leaves(t) ensures Idx(v) < n {
      assert v in multiset(Leaves(t));
    }
  }

  /** Local names counted from 1 through the list of outer variables. */
  function LocalName(outer: seq<VarId>): VarId -> VarId {
    (v: VarId) => if Idx(v) < |outer| then outer[Idx(v)] else v
  }

  /** A tree over its own variables, renamed, has one leaf for each outer variable. */
  lemma RenamedLeafSpace(t: Tree, outer: seq<VarId>)
    requires |outer| <= MAX_VAR && LeafSpace(t, |outer|)
    ensures multiset(Leaves(RenameTree(t, LocalName(outer)))) == multiset(outer)
  {
    RenamedLeaves(t, LocalName(outer));
    FirstVarsBag(|outer|);
    MapBag(LocalName(outer), Leaves(t), FirstVars(|outer|));
    assert Map(LocalName(outer), FirstVars(|outer|)) == outer;
  }

  /** Halves of halves, down to single leaves. */
  ghost function Balanced(vars: seq<VarId>): Tree
    requires vars != []
  {
    if |vars| == 1 then Leaf(vars[0])
    else Node(Balanced(vars[..|vars| / 2]), Balanced(vars[|vars| / 2..]))
  }

  /** At every node the right side has as many leaves as the left one, or one more. */
  ghost predicate Even(t: Tree) {
    t.Node? ==>
      |Leaves(t.left)| <= |Leaves(t.right)| <= |Leaves(t.left)| + 1 && Even(t.left) && Even(t.right)
  }

  /** The balanced tree over some leaves is the only even one. */
  lemma {:induction false} BalancedIsEven(t: Tree)
    ensures Leaves(t) != [] && (Even(t) <==> t == Balanced(Leaves(t)))
    ensures Even(t) ==> Leaves(Balanced(Leaves(t))) == Leaves(t)
  {
    if t.Node? {
      BalancedIsEven(t.left);
      BalancedIsEven(t.right);
      var vars := Leaves(t);
      var mid := |vars| / 2;
      if Even(t) {
        assert vars[..mid] == Leaves(t.left) && vars[mid..] == Leaves(t.right);
      }
      if t == Balanced(vars) {
        BalancedHolds(vars[..mid]);
        BalancedHolds(vars[mid..]);
      }
    }
  }

  lemma {:induction false} BalancedHolds(vars: seq<VarId>)
    requires vars != []
    ensures Leaves(Balanced(vars)) == vars
  {
    hide Leaves, Balanced;
    BalancedSplit(vars);
    if |vars| > 1 {
      var mid := |vars| / 2;
      BalancedHolds(vars[..mid]);
      BalancedHolds(vars[mid..]);
      assert vars == vars[..mid] + vars[mid..];
    }
  }

  lemma BalancedSplit(vars: seq<VarId>)
    requires vars != []
    ensures |vars| == 1 ==> Leaves(Balanced(vars)) == vars
    ensures |vars| > 1 ==>
              Leaves(Balanced(vars)) == Leaves(Balanced(vars[..|vars| / 2])) + Leaves(Balanced(vars[|vars| / 2..]))
  {
    hide Leaves;
    if |vars| > 1 {
      JoinedLeaves(Balanced(vars[..|vars| / 2]), Balanced(vars[|vars| / 2..]));
    } else {
      OneLeaf(vars[0]);
    }
  }

  lemma JoinedLeaves(left: Tree, right: Tree)
    ensures Leaves(Node(left, right)) == Leaves(left) + Leaves(right)
  {
  }

  lemma OneLeaf(v: VarId)
    ensures Leaves(Leaf(v)) == [v]
  {
  }

  // ---- nodes in an arena ----

  /** A node as the arena stores it; children are named by index. */
  datatype ArenaNode = LeafNode(v: VarId) | InnerNode(left: nat, right: nat)

  type Nodes = seq<ArenaNode>

  /** Children come before the node that joins them. */
  ghost predicate Built(nodes: Nodes) {
    forall i :: 0 <= i < |nodes| && nodes[i].InnerNode? ==> nodes[i].left < i && nodes[i].right < i
  }

  /** The tree hanging at a node. */
  ghost function TreeAt(nodes: Nodes, i: nat): Tree
    requires Built(nodes) && i < |nodes|
    decreases i
  {
    match nodes[i]
    case LeafNode(v) => Leaf(v)
    case InnerNode(left, right) => Node(TreeAt(nodes, left), TreeAt(nodes, right))
  }

  /** Appending nodes changes no tree already there. */
  lemma {:induction false} TreeKept(nodes: Nodes, more: Nodes, i: nat)
    requires Built(nodes) && Built(more) && nodes <= more && i < |nodes|
    ensures TreeAt(more, i) == TreeAt(nodes, i)
    decreases i
  {
    assert more[i] == nodes[i];
    if nodes[i].InnerNode? {
      TreeKept(nodes, more, nodes[i].left);
      TreeKept(nodes, more, nodes[i].right);
    }
  }

  /** A subtree copied `offset` places up, its leaves renamed. */
  ghost predicate Shifted(sub: Nodes, nodes: Nodes, offset: nat, name: VarId -> VarId) {
    && offset + |sub| <= |nodes|
    && forall i :: 0 <= i < |sub| ==> nodes[offset + i] == ShiftNode(sub[i], offset, name)
  }

  function ShiftNode(n: ArenaNode, offset: nat, name: VarId -> VarId): ArenaNode {
    match n
    case LeafNode(v) => LeafNode(name(v))
    case InnerNode(left, right) => InnerNode(left + offset, right + offset)
  }

  lemma NothingShifted(nodes: Nodes, offset: nat, name: VarId -> VarId)
    requires offset <= |nodes|
    ensures Shifted([], nodes, offset, name)
  {
  }

  lemma ShiftedNext(sub: Nodes, nodes: Nodes, offset: nat, name: VarId -> VarId, k: nat)
    requires Built(sub) && Built(nodes) && k < |sub| && |nodes| == offset + k && Shifted(sub[..k], nodes, offset, name)
    ensures Built(nodes + [ShiftNode(sub[k], offset, name)])
    ensures Shifted(sub[..k + 1], nodes + [ShiftNode(sub[k], offset, name)], offset, name)
  {
    assert sub[..k + 1] == sub[..k] + [sub[k]];
  }

  lemma {:induction false} ShiftedTree(sub: Nodes, nodes: Nodes, offset: nat, name: VarId -> VarId, i: nat)
    requires Built(sub) && Built(nodes) && Shifted(sub, nodes, offset, name) && i < |sub|
    ensures TreeAt(nodes, offset + i) == RenameTree(TreeAt(sub, i), name)
    decreases i
  {
    assert nodes[offset + i] == ShiftNode(sub[i], offset, name);
    if sub[i].InnerNode? {
      ShiftedTree(sub, nodes, offset, name, sub[i].left);
      ShiftedTree(sub, nodes, offset, name, sub[i].right);
    }
  }

  /** The arena a construction appends its nodes to. */
  class VtreeArena {
    var nodes: Nodes

    ghost predicate Valid()
      reads this
    {
      Built(nodes)
    }

    ghost function TreeOf(i: nat): Tree
      requires Valid() && i < |nodes|
      reads this
    {
      TreeAt(nodes, i)
    }

    /** `i` heads the tree `t`, with everything before still in place. */
    ghost predicate Appended(before: Nodes, i: nat, t: Tree)
      reads this
    {
      Valid() && before <= nodes && i < |nodes| && TreeOf(i) == t
    }

    constructor ()
      ensures Valid() && nodes == []
    {
      nodes := [];
    }

    method AddLeaf(v: VarId) returns (i: nat)
      requires Valid()
      modifies this
      ensures Appended(old(nodes), i, Leaf(v)) && nodes == old(nodes) + [LeafNode(v)]
    {
      i := |nodes|;
      nodes := nodes + [LeafNode(v)];
    }

    method AddInternal(left: nat, right: nat) returns (i: nat)
      requires Valid() && left < |nodes| && right < |nodes|
      modifies this
      ensures Appended(old(nodes), i, Node(old(TreeOf(left)), old(TreeOf(right))))
      ensures nodes == old(nodes) + [InnerNode(left, right)]
    {
      i := |nodes|;
      ghost var before := nodes;
      nodes := nodes + [InnerNode(left, right)];
      assert Built(nodes);
      TreeKept(before, nodes, left);
      TreeKept(before, nodes, right);
    }

    /** A copy of `sub`, every leaf renamed. */
    method Graft(sub: Vtree, name: VarId -> VarId) returns (i: nat)
      requires Valid() && sub.Valid()
      modifies this
      ensures Appended(old(nodes), i, RenameTree(sub.Shape(), name))
    {
      hide TreeAt, RenameTree, Shifted, ShiftNode, LeafVars, Leaves;
      var offset := |nodes|;
      NothingShifted(nodes, offset, name);
      ghost var before := nodes;
      for k := 0 to |sub.nodes|
        invariant Valid() && before <= nodes && |nodes| == offset + k
        invariant Shifted(sub.nodes[..k], nodes, offset, name)
      {
        ShiftedNext(sub.nodes, nodes, offset, name, k);
        nodes := nodes + [ShiftNode(sub.nodes[k], offset, name)];
      }
      assert sub.nodes[..|sub.nodes|] == sub.nodes;
      i := sub.root + offset;
      ShiftedTree(sub.nodes, nodes, offset, name, sub.root);
    }

    /** Halves the list down to single leaves and joins the halves on the way back. */
    method BalancedLeaves(vars: seq<VarId>) returns (i: nat, ghost t: Tree)
      requires Valid() && vars != []
      modifies this
      ensures Appended(old(nodes), i, t) && t == Balanced(vars) && Leaves(t) == vars
      decreases |vars|
    {
      if |vars| == 1 {
        i := AddLeaf(vars[0]);
        return i, Leaf(vars[0]);
      }
      var mid := |vars| / 2;
      var left, tl := BalancedLeaves(vars[..mid]);
      ghost var between := nodes;
      var right, tr := BalancedLeaves(vars[mid..]);
      TreeKept(between, nodes, left);
      i := AddInternal(left, right);
      t := Node(tl, tr);
      assert vars == vars[..mid] + vars[mid..];
    }

    /** Everything after the first `len` nodes discarded. */
    method Truncate(len: nat)
      requires Valid() && len <= |nodes|
      modifies this
      ensures Valid() && nodes == old(nodes)[..len]
    {
      nodes := nodes[..len];
    }

    /** Any tree, children first. */
    method AddTree(t: Tree) returns (i: nat)
      requires Valid()
      modifies this
      ensures Appended(old(nodes), i, t)
      decreases t
    {
      match t
      case Leaf(v) => i := AddLeaf(v);
      case Node(l, r) =>
        var left := AddTree(l);
        ghost var between := nodes;
        var right := AddTree(r);
        TreeKept(between, nodes, left);
        i := AddInternal(left, right);
    }
  }

  // ---- the finished tree ----

  /** `leafCount` is absent when every variable of the space has a leaf. */
  datatype Vtree = Vtree(nodes: Nodes, root: nat, varToLeaf: seq<nat>, leafCount: Option<nat>) {
    function NumLeaves(): nat {
      if leafCount.Some? then leafCount.value else |varToLeaf|
    }

    /** Leaves first, children before parents; the leaves are those of the tree and the inversion
        finds each. */
    ghost predicate Valid() {
      && Built(nodes) && root < |nodes| && NumLeaves() <= |nodes|
      && (forall i: nat :: i < |nodes| ==> (nodes[i].LeafNode? <==> i < NumLeaves()))
      && multiset(LeafVars(nodes[..NumLeaves()])) == multiset(Leaves(Shape()))
      && (forall v :: v in Leaves(Shape()) ==> Idx(v) < |varToLeaf| && LeafAt(v))
    }

    ghost predicate LeafAt(v: VarId)
      requires Idx(v) < |varToLeaf|
    {
      varToLeaf[Idx(v)] < |nodes| && nodes[varToLeaf[Idx(v)]] == LeafNode(v)
    }

    ghost function Shape(): Tree
      requires Built(nodes) && root < |nodes|
    {
      TreeAt(nodes, root)
    }

    /** The leaf variables bottom-up: the order `leaf_bottomup` walks them in. */
    function LeafBottomUp(): seq<VarId>
      requires NumLeaves() <= |nodes|
    {
      LeafVars(nodes[..NumLeaves()])
    }
  }

  /** The variables of the leaf nodes of a list, in order. */
  function LeafVars(nodes: Nodes): seq<VarId> {
    if nodes == [] then []
    else LeafVars(nodes[..|nodes| - 1]) + (if nodes[|nodes| - 1].LeafNode? then [nodes[|nodes| - 1].v] else [])
  }

  lemma {:induction false} LeafVarsAppend(a: Nodes, b: Nodes)
    ensures LeafVars(a + b) == LeafVars(a) + LeafVars(b)
  {
    if b == [] {
      assert a + b == a;
    } else {
      LeafVarsAppend(a, b[..|b| - 1]);
      assert (a + b)[..|a + b| - 1] == a + b[..|b| - 1];
    }
  }

  /** The number of leaves is the number of leaves of the tree. */
  lemma ValidCountsLeaves(t: Vtree)
    requires t.Valid()
    ensures t.NumLeaves() == |Leaves(t.Shape())|
    ensures |t.LeafBottomUp()| == t.NumLeaves()
    ensures multiset(t.LeafBottomUp()) == multiset(Leaves(t.Shape()))
  {
    AllLeafVars(t.nodes[..t.NumLeaves()]);
    assert |multiset(t.LeafBottomUp())| == |multiset(Leaves(t.Shape()))|;
  }

  lemma {:induction false} AllLeafVars(nodes: Nodes)
    requires forall i: nat :: i < |nodes| ==> nodes[i].LeafNode?
    ensures |LeafVars(nodes)| == |nodes|
  {
    if nodes != [] { AllLeafVars(nodes[..|nodes| - 1]); }
  }
}
