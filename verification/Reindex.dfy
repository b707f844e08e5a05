/** Renumbering a finished arena bottom-up by levels: leaves first, then internal nodes, root last. */
module Reindex {
  import opened Wrappers
  import opened Cnf
  import opened Vtrees

  ghost predicate InArena(nodes: Nodes, ids: seq<nat>) {
    forall i :: 0 <= i < |ids| ==> ids[i] < |nodes|
  }

  // ---- levels ----

  function ChildrenOf(nodes: Nodes, level: seq<nat>): seq<nat>
    requires InArena(nodes, level)
  {
    if level == [] then []
    else
      ChildrenOf(nodes, level[..|level| - 1])
      + (match nodes[level[|level| - 1]] case LeafNode(_) => [] case InnerNode(left, right) => [left, right])
  }

  lemma {:induction false} ChildrenInArena(nodes: Nodes, level: seq<nat>)
    requires Built(nodes) && InArena(nodes, level)
    ensures InArena(nodes, ChildrenOf(nodes, level))
    ensures forall i :: i in level && nodes[i].InnerNode? ==>
              nodes[i].left in ChildrenOf(nodes, level) && nodes[i].right in ChildrenOf(nodes, level)
  {
    if level != [] {
      var front, last := level[..|level| - 1], level[|level| - 1];
      ChildrenInArena(nodes, front);
      assert level == front + [last];
    }
  }

  /** Breadth first from `queue`: each level the children of the one before, down to `rest`. */
  ghost predicate LevelsTo(nodes: Nodes, queue: seq<nat>, levels: seq<seq<nat>>, rest: seq<nat>)
    requires Built(nodes) && InArena(nodes, queue)
    decreases |levels|
  {
    if levels == [] then queue == rest
    else
      ChildrenInArena(nodes, queue);
      levels[0] == queue != [] && LevelsTo(nodes, ChildrenOf(nodes, queue), levels[1..], rest)
  }

  lemma {:induction false} LevelAppended(nodes: Nodes, queue: seq<nat>, levels: seq<seq<nat>>, rest: seq<nat>)
    requires Built(nodes) && InArena(nodes, queue) && LevelsTo(nodes, queue, levels, rest) && rest != []
    ensures InArena(nodes, rest)
    ensures LevelsTo(nodes, queue, levels + [rest], ChildrenOf(nodes, rest))
    decreases |levels|
  {
    if levels == [] {
      assert ([rest])[1..] == [];
    } else {
      ChildrenInArena(nodes, queue);
      LevelAppended(nodes, ChildrenOf(nodes, queue), levels[1..], rest);
      assert (levels + [rest])[1..] == levels[1..] + [rest];
    }
  }

  ghost function Size(t: Tree): nat {
    match t
    case Leaf(_) => 1
    case Node(left, right) => 1 + Size(left) + Size(right)
  }

  /** The nodes left to visit below a queue. */
  ghost function Weight(nodes: Nodes, queue: seq<nat>): nat
    requires Built(nodes) && InArena(nodes, queue)
  {
    if queue == [] then 0 else Weight(nodes, queue[..|queue| - 1]) + Size(TreeAt(nodes, queue[|queue| - 1]))
  }

  lemma {:induction false} WeightOfSum(nodes: Nodes, a: seq<nat>, b: seq<nat>)
    requires Built(nodes) && InArena(nodes, a) && InArena(nodes, b)
    ensures InArena(nodes, a + b) && Weight(nodes, a + b) == Weight(nodes, a) + Weight(nodes, b)
  {
    if b == [] {
      assert a + b == a;
    } else {
      WeightOfSum(nodes, a, b[..|b| - 1]);
      assert (a + b)[..|a + b| - 1] == a + b[..|b| - 1];
    }
  }

  lemma {:induction false} ChildrenWeigh(nodes: Nodes, level: seq<nat>)
    requires Built(nodes) && InArena(nodes, level)
    ensures InArena(nodes, ChildrenOf(nodes, level))
    ensures Weight(nodes, level) == Weight(nodes, ChildrenOf(nodes, level)) + |level|
  {
    ChildrenInArena(nodes, level);
    if level != [] {
      var front, last := level[..|level| - 1], level[|level| - 1];
      ChildrenWeigh(nodes, front);
      match nodes[last]
      case LeafNode(_) =>
        assert ChildrenOf(nodes, level) == ChildrenOf(nodes, front);
      case InnerNode(left, right) =>
        WeightOfSum(nodes, ChildrenOf(nodes, front), [left, right]);
        WeightOfTwo(nodes, left, right);
    }
  }

  lemma WeightOfTwo(nodes: Nodes, left: nat, right: nat)
    requires Built(nodes) && left < |nodes| && right < |nodes|
    ensures Weight(nodes, [left, right]) == Size(TreeAt(nodes, left)) + Size(TreeAt(nodes, right))
  {
    WeightOfSum(nodes, [left], [right]);
    assert [left] + [right] == [left, right];
    WeightOfOne(nodes, left);
    WeightOfOne(nodes, right);
  }

  lemma WeightOfOne(nodes: Nodes, i: nat)
    requires Built(nodes) && i < |nodes|
    ensures Weight(nodes, [i]) == Size(TreeAt(nodes, i))
  {
    assert [i][..0] == [];
  }

  method NextLevel(nodes: Nodes, level: seq<nat>) returns (queue: seq<nat>)
    requires Built(nodes) && InArena(nodes, level)
    ensures queue == ChildrenOf(nodes, level)
  {
    queue := [];
    for k := 0 to |level|
      invariant queue == ChildrenOf(nodes, level[..k])
    {
      assert level[..k + 1][..k] == level[..k];
      match nodes[level[k]]
      case LeafNode(_) =>
      case InnerNode(left, right) => queue := queue + [left, right];
    }
    assert level[..|level|] == level;
  }

  method BuildLevels(nodes: Nodes, root: nat) returns (levels: seq<seq<nat>>)
    requires Built(nodes) && root < |nodes|
    ensures LevelsTo(nodes, [root], levels, [])
  {
    levels := [];
    var queue := [root];
    while queue != []
      invariant InArena(nodes, queue) && LevelsTo(nodes, [root], levels, queue)
      decreases Weight(nodes, queue)
    {
      LevelAppended(nodes, [root], levels, queue);
      ChildrenWeigh(nodes, queue);
      levels := levels + [queue];
      queue := NextLevel(nodes, queue);
    }
  }

  // ---- bottom-up order ----

  function BottomUp(levels: seq<seq<nat>>): seq<nat> {
    if levels == [] then [] else BottomUp(levels[1..]) + levels[0]
  }

  ghost predicate ChildrenBefore(nodes: Nodes, order: seq<nat>)
    requires InArena(nodes, order)
  {
    forall p :: 0 <= p < |order| ==> ChildrenIn(nodes, order[p], order[..p])
  }

  ghost predicate ChildrenIn(nodes: Nodes, i: nat, seen: seq<nat>)
    requires i < |nodes|
  {
    nodes[i].InnerNode? ==> nodes[i].left in seen && nodes[i].right in seen
  }

  /** The leaf variables met along a list of nodes. */
  function LeavesAlong(nodes: Nodes, ids: seq<nat>): seq<VarId>
    requires InArena(nodes, ids)
  {
    if ids == [] then []
    else
      var n := nodes[ids[|ids| - 1]];
      LeavesAlong(nodes, ids[..|ids| - 1]) + (if n.LeafNode? then [n.v] else [])
  }

  lemma {:induction false} LeavesAlongSum(nodes: Nodes, a: seq<nat>, b: seq<nat>)
    requires InArena(nodes, a) && InArena(nodes, b)
    ensures LeavesAlong(nodes, a + b) == LeavesAlong(nodes, a) + LeavesAlong(nodes, b)
  {
    if b == [] {
      assert a + b == a;
    } else {
      LeavesAlongSum(nodes, a, b[..|b| - 1]);
      assert (a + b)[..|a + b| - 1] == a + b[..|b| - 1];
    }
  }

  /** All leaves below the nodes of a queue. */
  ghost function BagBelow(nodes: Nodes, queue: seq<nat>): multiset<VarId>
    requires Built(nodes) && InArena(nodes, queue)
  {
    if queue == [] then multiset{}
    else BagBelow(nodes, queue[..|queue| - 1]) + multiset(Leaves(TreeAt(nodes, queue[|queue| - 1])))
  }

  lemma {:induction false} BagOfSum(nodes: Nodes, a: seq<nat>, b: seq<nat>)
    requires Built(nodes) && InArena(nodes, a) && InArena(nodes, b)
    ensures InArena(nodes, a + b) && BagBelow(nodes, a + b) == BagBelow(nodes, a) + BagBelow(nodes, b)
  {
    hide BagBelow, TreeAt, Leaves, ChildrenOf;
    if b == [] {
      assert a + b == a;
      BagOfNone(nodes);
    } else {
      var front, last := b[..|b| - 1], b[|b| - 1];
      BagOfSum(nodes, a, front);
      BagOfOneMore(nodes, front, last);
      BagOfOneMore(nodes, a + front, last);
      assert front + [last] == b && a + front + [last] == a + b;
    }
  }

  lemma BagOfNone(nodes: Nodes)
    requires Built(nodes)
    ensures BagBelow(nodes, []) == multiset{}
  {
  }

  lemma BagOfOneMore(nodes: Nodes, queue: seq<nat>, i: nat)
    requires Built(nodes) && InArena(nodes, queue) && i < |nodes|
    ensures InArena(nodes, queue + [i])
              && BagBelow(nodes, queue + [i]) == BagBelow(nodes, queue) + multiset(Leaves(TreeAt(nodes, i)))
  {
    hide TreeAt, Leaves, ChildrenOf;
    assert (queue + [i])[..|queue|] == queue;
  }

  /** The leaves below a level are its own and those below its children. */
  lemma {:induction false} BagByLevel(nodes: Nodes, level: seq<nat>)
    requires Built(nodes) && InArena(nodes, level)
    ensures InArena(nodes, ChildrenOf(nodes, level))
    ensures BagBelow(nodes, level) == multiset(LeavesAlong(nodes, level)) + BagBelow(nodes, ChildrenOf(nodes, level))
  {
    ChildrenInArena(nodes, level);
    if level != [] {
      BagByLevel(nodes, level[..|level| - 1]);
      OneMoreInLevel(nodes, level);
    }
  }

  /** What the last node of a level adds to each side. */
  lemma OneMoreInLevel(nodes: Nodes, level: seq<nat>)
    requires Built(nodes) && InArena(nodes, level) && level != []
    requires InArena(nodes, ChildrenOf(nodes, level[..|level| - 1])) && InArena(nodes, ChildrenOf(nodes, level))
    ensures multiset(LeavesAlong(nodes, level)) + BagBelow(nodes, ChildrenOf(nodes, level))
         == multiset(LeavesAlong(nodes, level[..|level| - 1]))
             + BagBelow(nodes, ChildrenOf(nodes, level[..|level| - 1]))
            + multiset(Leaves(TreeAt(nodes, level[|level| - 1])))
  {
    hide BagBelow;
    var front, last := level[..|level| - 1], level[|level| - 1];
    var kids := ChildrenOf(nodes, front);
    match nodes[last]
    case LeafNode(v) =>
      assert ChildrenOf(nodes, level) == kids;
      assert LeavesAlong(nodes, level) == LeavesAlong(nodes, front) + [v];
    case InnerNode(left, right) =>
      assert LeavesAlong(nodes, level) == LeavesAlong(nodes, front);
      InnerAdds(nodes, kids, last);
  }

  lemma InnerAdds(nodes: Nodes, kids: seq<nat>, i: nat)
    requires Built(nodes) && InArena(nodes, kids) && i < |nodes| && nodes[i].InnerNode?
    ensures InArena(nodes, kids + [nodes[i].left, nodes[i].right])
    ensures BagBelow(nodes, kids + [nodes[i].left, nodes[i].right])
         == BagBelow(nodes, kids) + multiset(Leaves(TreeAt(nodes, i)))
  {
    var left, right := nodes[i].left, nodes[i].right;
    BagOfSum(nodes, kids, [left, right]);
    BagOfTwo(nodes, left, right);
    assert Leaves(TreeAt(nodes, i)) == Leaves(TreeAt(nodes, left)) + Leaves(TreeAt(nodes, right));
  }

  lemma BagOfTwo(nodes: Nodes, left: nat, right: nat)
    requires Built(nodes) && left < |nodes| && right < |nodes|
    ensures BagBelow(nodes, [left, right])
         == multiset(Leaves(TreeAt(nodes, left))) + multiset(Leaves(TreeAt(nodes, right)))
  {
    BagOfSum(nodes, [left], [right]);
    assert [left] + [right] == [left, right];
    RootBag(nodes, left);
    RootBag(nodes, right);
  }

  /** The bottom-up order meets every node below the queue, children first, and every leaf as often as
      the trees have it. */
  lemma {:induction false} BottomUpMeaning(nodes: Nodes, queue: seq<nat>, levels: seq<seq<nat>>)
    requires Built(nodes) && InArena(nodes, queue) && LevelsTo(nodes, queue, levels, [])
    ensures InArena(nodes, BottomUp(levels)) && ChildrenBefore(nodes, BottomUp(levels))
    ensures forall i :: i in queue ==> i in BottomUp(levels)
    ensures multiset(LeavesAlong(nodes, BottomUp(levels))) == BagBelow(nodes, queue)
    decreases |levels|
  {
    hide LeavesAlong, BagBelow, ChildrenBefore, ChildrenOf;
    if levels == [] {
      EmptyQueue(nodes);
    } else {
      ChildrenInArena(nodes, queue);
      BottomUpMeaning(nodes, ChildrenOf(nodes, queue), levels[1..]);
      BagByLevel(nodes, queue);
      var below := BottomUp(levels[1..]);
      LeavesAlongSum(nodes, below, queue);
      ChildrenBeforeLevel(nodes, below, queue);
    }
  }

  lemma EmptyQueue(nodes: Nodes)
    requires Built(nodes)
    ensures LeavesAlong(nodes, []) == [] && BagBelow(nodes, []) == multiset{} && ChildrenBefore(nodes, [])
  {
  }

  lemma ChildrenBeforeLevel(nodes: Nodes, below: seq<nat>, level: seq<nat>)
    requires InArena(nodes, below) && InArena(nodes, level) && ChildrenBefore(nodes, below)
    requires forall i :: i in level ==> i < |nodes| && ChildrenIn(nodes, i, below)
    ensures ChildrenBefore(nodes, below + level)
  {
    var order := below + level;
    forall p | 0 <= p < |order| ensures ChildrenIn(nodes, order[p], order[..p]) {
      if p < |below| {
        assert order[..p] == below[..p];
        assert ChildrenIn(nodes, below[p], below[..p]);
      } else {
        assert order[p] == level[p - |below|] && level[p - |below|] in level;
        assert order[..p] == below + level[..p - |below|];
      }
    }
  }

  // ---- first pass: the leaves ----

  ghost predicate LeavesPlaced(nodes: Nodes, done: seq<nat>, made: Nodes, newOf: seq<nat>, varToLeaf: seq<nat>)
    requires InArena(nodes, done)
  {
    && (forall i: nat :: i < |made| ==> made[i].LeafNode?)
    && LeafVars(made) == LeavesAlong(nodes, done)
    && |newOf| == |nodes|
    && (forall i :: i in done && nodes[i].LeafNode? ==> newOf[i] < |made| && made[newOf[i]] == nodes[i])
    && (forall v :: v in LeafVars(made) ==> LeafFound(made, varToLeaf, v))
  }

  ghost predicate LeafFound(made: Nodes, varToLeaf: seq<nat>, v: VarId) {
    Idx(v) < |varToLeaf| && varToLeaf[Idx(v)] < |made| && made[varToLeaf[Idx(v)]] == LeafNode(v)
  }

  lemma LeafPlaced(nodes: Nodes, done: seq<nat>, made: Nodes, newOf: seq<nat>, varToLeaf: seq<nat>, i: nat)
    requires InArena(nodes, done) && LeavesPlaced(nodes, done, made, newOf, varToLeaf)
    requires i < |nodes| && nodes[i].LeafNode? && Idx(nodes[i].v) < |varToLeaf|
    ensures InArena(nodes, done + [i])
    ensures LeavesPlaced(nodes, done + [i], made + [nodes[i]], newOf[i := |made|], varToLeaf[Idx(nodes[i].v) := |made|])
  {
    var made', newOf', varToLeaf' := made + [nodes[i]], newOf[i := |made|], varToLeaf[Idx(nodes[i].v) := |made|];
    assert made'[..|made|] == made && (done + [i])[..|done|] == done;
    assert LeafVars(made') == LeafVars(made) + [nodes[i].v];
    forall v | v in LeafVars(made') ensures LeafFound(made', varToLeaf', v) {
      if v != nodes[i].v { assert LeafFound(made, varToLeaf, v); }
    }
    forall j | j in done + [i] && nodes[j].LeafNode? ensures newOf'[j] < |made'| && made'[newOf'[j]] == nodes[j] {
      if j != i { assert j in done; }
    }
  }

  lemma InnerSkipped(nodes: Nodes, done: seq<nat>, made: Nodes, newOf: seq<nat>, varToLeaf: seq<nat>, i: nat)
    requires InArena(nodes, done) && LeavesPlaced(nodes, done, made, newOf, varToLeaf)
    requires i < |nodes| && nodes[i].InnerNode?
    ensures InArena(nodes, done + [i])
    ensures LeavesPlaced(nodes, done + [i], made, newOf, varToLeaf)
  {
    assert (done + [i])[..|done|] == done;
  }

  ghost predicate VarsFit(nodes: Nodes, ids: seq<nat>, n: nat)
    requires InArena(nodes, ids)
  {
    forall i :: 0 <= i < |ids| && nodes[ids[i]].LeafNode? ==> Idx(nodes[ids[i]].v) < n
  }

  /** The leaves of one level, in order. */
  method PlaceLevel(nodes: Nodes, ghost below: seq<nat>, level: seq<nat>, made0: Nodes, newOf0: seq<nat>,
                    varToLeaf0: seq<nat>)
    returns (made: Nodes, newOf: seq<nat>, varToLeaf: seq<nat>)
    requires InArena(nodes, below) && InArena(nodes, level) && VarsFit(nodes, level, |varToLeaf0|)
    requires LeavesPlaced(nodes, below, made0, newOf0, varToLeaf0)
    ensures InArena(nodes, below + level) && LeavesPlaced(nodes, below + level, made, newOf, varToLeaf)
    ensures |varToLeaf| == |varToLeaf0|
  {
    hide LeavesAlong, LeafVars;
    made, newOf, varToLeaf := made0, newOf0, varToLeaf0;
    assert below + level[..0] == below;
    for j := 0 to |level|
      invariant InArena(nodes, below + level[..j])
      invariant LeavesPlaced(nodes, below + level[..j], made, newOf, varToLeaf) && |varToLeaf| == |varToLeaf0|
    {
      var i := level[j];
      ghost var done := below + level[..j];
      assert below + level[..j + 1] == done + [i];
      if nodes[i].LeafNode? {
        LeafPlaced(nodes, done, made, newOf, varToLeaf, i);
        newOf := newOf[i := |made|];
        varToLeaf := varToLeaf[Idx(nodes[i].v) := |made|];
        made := made + [nodes[i]];
      } else {
        InnerSkipped(nodes, done, made, newOf, varToLeaf, i);
      }
    }
    assert below + level[..|level|] == below + level;
  }

  method PlaceLeaves(nodes: Nodes, levels: seq<seq<nat>>, numVars: nat)
    returns (made: Nodes, newOf: seq<nat>, varToLeaf: seq<nat>)
    requires InArena(nodes, BottomUp(levels)) && VarsFit(nodes, BottomUp(levels), numVars)
    ensures LeavesPlaced(nodes, BottomUp(levels), made, newOf, varToLeaf) && |varToLeaf| == numVars
  {
    made, newOf, varToLeaf := [], seq(|nodes|, _ => 0), seq(numVars, _ => 0);
    assert levels[|levels|..] == [];
    for k := |levels| downto 0
      invariant InArena(nodes, BottomUp(levels[k..]))
      invariant LeavesPlaced(nodes, BottomUp(levels[k..]), made, newOf, varToLeaf) && |varToLeaf| == numVars
    {
      LevelFits(nodes, levels, k, numVars);
      LevelJoins(levels, k);
      made, newOf, varToLeaf := PlaceLevel(nodes, BottomUp(levels[k + 1..]), levels[k], made, newOf, varToLeaf);
    }
    assert levels[0..] == levels;
  }

  lemma LevelJoins(levels: seq<seq<nat>>, k: nat)
    requires k < |levels|
    ensures BottomUp(levels[k..]) == BottomUp(levels[k + 1..]) + levels[k]
  {
    assert levels[k..][1..] == levels[k + 1..];
  }

  lemma {:induction false} BottomUpPrefix(levels: seq<seq<nat>>, k: nat)
    requires k <= |levels|
    ensures BottomUp(levels[k..]) <= BottomUp(levels)
    decreases k
  {
    if k > 0 {
      BottomUpPrefix(levels, k - 1);
      LevelJoins(levels, k - 1);
    } else {
      assert levels[0..] == levels;
    }
  }

  lemma LevelFits(nodes: Nodes, levels: seq<seq<nat>>, k: nat, n: nat)
    requires InArena(nodes, BottomUp(levels)) && VarsFit(nodes, BottomUp(levels), n) && k < |levels|
    ensures InArena(nodes, levels[k])
    ensures forall j :: 0 <= j < |levels[k]| && nodes[levels[k][j]].LeafNode? ==> Idx(nodes[levels[k][j]].v) < n
  {
    BottomUpPrefix(levels, k);
    LevelJoins(levels, k);
    var all, below := BottomUp(levels), BottomUp(levels[k + 1..]);
    forall j | 0 <= j < |levels[k]| ensures all[|below| + j] == levels[k][j] {
      assert BottomUp(levels[k..])[|below| + j] == levels[k][j];
    }
    forall j | 0 <= j < |levels[k]|
      ensures levels[k][j] < |nodes| && (nodes[levels[k][j]].LeafNode? ==> Idx(nodes[levels[k][j]].v) < n)
    {
      assert all[|below| + j] < |nodes|;
    }
  }

  // ---- second pass: the internal nodes ----

  /** Node `i` of the old list has a copy of its whole tree in the new one. */
  ghost predicate Placed(nodes: Nodes, made: Nodes, newOf: seq<nat>, i: nat)
    requires Built(nodes) && Built(made)
  {
    i < |nodes| == |newOf| && newOf[i] < |made| && TreeAt(made, newOf[i]) == TreeAt(nodes, i)
  }

  ghost predicate InnersPlaced(nodes: Nodes, order: seq<nat>, done: nat, made: Nodes, newOf: seq<nat>, leaves: Nodes)
    requires Built(nodes) && InArena(nodes, order) && done <= |order|
  {
    && Built(made) && leaves <= made && |newOf| == |nodes|
    && (forall i: nat :: |leaves| <= i < |made| ==> made[i].InnerNode?)
    && (forall i :: i in order && nodes[i].LeafNode? ==> Placed(nodes, made, newOf, i))
    && (forall i :: i in order[..done] ==> Placed(nodes, made, newOf, i))
  }

  lemma InnerPlaced(nodes: Nodes, order: seq<nat>, done: nat, made: Nodes, newOf: seq<nat>, leaves: Nodes)
    requires Built(nodes) && InArena(nodes, order) && done < |order| && ChildrenBefore(nodes, order)
    requires InnersPlaced(nodes, order, done, made, newOf, leaves)
    ensures var i := order[done];
            match nodes[i]
            case LeafNode(_) => InnersPlaced(nodes, order, done + 1, made, newOf, leaves)
            case InnerNode(left, right) =>
              && newOf[left] < |made| && newOf[right] < |made|
              && InnersPlaced(nodes, order, done + 1, made + [InnerNode(newOf[left], newOf[right])], newOf[i := |made|],
                              leaves)
  {
    var i := order[done];
    assert order[..done + 1] == order[..done] + [i] && i in order;
    match nodes[i]
    case LeafNode(_) =>
    case InnerNode(left, right) =>
      assert ChildrenIn(nodes, i, order[..done]);
      assert Placed(nodes, made, newOf, left) && Placed(nodes, made, newOf, right);
      var made', newOf' := made + [InnerNode(newOf[left], newOf[right])], newOf[i := |made|];
      assert Built(made');
      TreeKept(made, made', newOf[left]);
      TreeKept(made, made', newOf[right]);
      assert Placed(nodes, made', newOf', i);
      forall j: nat | Placed(nodes, made, newOf, j) ensures Placed(nodes, made', newOf', j) {
        if j != i { TreeKept(made, made', newOf[j]); }
      }
  }

  method PlaceInners(nodes: Nodes, levels: seq<seq<nat>>, leaves: Nodes, leafOf: seq<nat>)
    returns (made: Nodes, newOf: seq<nat>)
    requires Built(nodes) && InArena(nodes, BottomUp(levels)) && ChildrenBefore(nodes, BottomUp(levels))
    requires InnersPlaced(nodes, BottomUp(levels), 0, leaves, leafOf, leaves)
    ensures InnersPlaced(nodes, BottomUp(levels), |BottomUp(levels)|, made, newOf, leaves)
  {
    made, newOf := leaves, leafOf;
    ghost var order := BottomUp(levels);
    ghost var done := 0;
    assert levels[|levels|..] == [];
    for k := |levels| downto 0
      invariant done == |BottomUp(levels[k..])| <= |order| && InnersPlaced(nodes, order, done, made, newOf, leaves)
    {
      var level := levels[k];
      BottomUpPrefix(levels, k);
      LevelJoins(levels, k);
      ghost var below := |BottomUp(levels[k + 1..])|;
      for j := 0 to |level|
        invariant done == below + j && below + |level| <= |order|
                  && InnersPlaced(nodes, order, done, made, newOf, leaves)
      {
        var i := level[j];
        assert order[done] == i by { assert BottomUp(levels[k..])[below + j] == i; }
        InnerPlaced(nodes, order, done, made, newOf, leaves);
        if nodes[i].InnerNode? {
          var node := InnerNode(newOf[nodes[i].left], newOf[nodes[i].right]);
          newOf := newOf[i := |made|];
          made := made + [node];
        }
        done := done + 1;
      }
    }
    assert levels[0..] == levels;
  }

  // ---- the whole renumbering ----

  /** The finished tree is the arena's tree at `root`, whatever else the arena held. */
  method FromNodes(nodes: Nodes, root: nat, numVars: nat) returns (t: Vtree)
    requires Built(nodes) && root < |nodes| && forall v :: v in Leaves(TreeAt(nodes, root)) ==> Idx(v) < numVars
    ensures t.Valid() && t.Shape() == TreeAt(nodes, root) && |t.varToLeaf| == numVars
  {
    hide BottomUp, LeavesAlong, BagBelow, LevelsTo, ChildrenBefore, LeafVars, Leaves, TreeAt;
    var levels := BuildLevels(nodes, root);
    ghost var order := BottomUp(levels);
    BottomUpMeaning(nodes, [root], levels);
    RootBag(nodes, root);
    FitsFromLeaves(nodes, order, root, numVars);
    var leaves, leafOf, varToLeaf := PlaceLeaves(nodes, levels, numVars);
    LeavesAreTrees(nodes, order, leaves, leafOf, varToLeaf);
    var made, newOf := PlaceInners(nodes, levels, leaves, leafOf);
    RootPlaced(nodes, order, made, newOf, leaves, root);
    t := Vtree(made, newOf[root], varToLeaf, if |leaves| != numVars then Some(|leaves|) else None);
    Assembled(t, leaves, TreeAt(nodes, root));
  }

  lemma RootPlaced(nodes: Nodes, order: seq<nat>, made: Nodes, newOf: seq<nat>, leaves: Nodes, root: nat)
    requires Built(nodes) && InArena(nodes, order) && root in order
    requires InnersPlaced(nodes, order, |order|, made, newOf, leaves)
    ensures Placed(nodes, made, newOf, root)
  {
    assert order[..|order|] == order;
  }

  /** Leaves in front, internal nodes behind, and the inversion filled: a finished tree. */
  lemma Assembled(t: Vtree, leaves: Nodes, shape: Tree)
    requires Built(t.nodes) && t.root < |t.nodes| && TreeAt(t.nodes, t.root) == shape
    requires leaves <= t.nodes && t.NumLeaves() == |leaves|
    requires forall i: nat :: i < |leaves| ==> leaves[i].LeafNode?
    requires forall i: nat :: |leaves| <= i < |t.nodes| ==> t.nodes[i].InnerNode?
    requires multiset(LeafVars(leaves)) == multiset(Leaves(shape))
    requires forall v :: v in LeafVars(leaves) ==> LeafFound(leaves, t.varToLeaf, v)
    ensures t.Valid()
  {
    hide LeafVars, Leaves, TreeAt;
    assert t.nodes[..|leaves|] == leaves;
    forall v | v in Leaves(shape) ensures Idx(v) < |t.varToLeaf| && t.LeafAt(v) {
      assert v in multiset(LeafVars(leaves));
      assert LeafFound(leaves, t.varToLeaf, v);
    }
  }

  lemma RootBag(nodes: Nodes, root: nat)
    requires Built(nodes) && root < |nodes|
    ensures BagBelow(nodes, [root]) == multiset(Leaves(TreeAt(nodes, root)))
  {
    assert [root][..0] == [];
  }

  lemma FitsFromLeaves(nodes: Nodes, order: seq<nat>, root: nat, numVars: nat)
    requires Built(nodes) && InArena(nodes, order) && root < |nodes|
    requires multiset(LeavesAlong(nodes, order)) == multiset(Leaves(TreeAt(nodes, root)))
    requires forall v :: v in Leaves(TreeAt(nodes, root)) ==> Idx(v) < numVars
    ensures VarsFit(nodes, order, numVars)
  {
    forall i | 0 <= i < |order| && nodes[order[i]].LeafNode? ensures Idx(nodes[order[i]].v) < numVars {
      LeafAlong(nodes, order, i);
      assert nodes[order[i]].v in multiset(LeavesAlong(nodes, order));
    }
  }

  lemma {:induction false} LeafAlong(nodes: Nodes, order: seq<nat>, i: nat)
    requires InArena(nodes, order) && i < |order| && nodes[order[i]].LeafNode?
    ensures nodes[order[i]].v in LeavesAlong(nodes, order)
  {
    if i < |order| - 1 { LeafAlong(nodes, order[..|order| - 1], i); }
  }

  lemma LeavesAreTrees(nodes: Nodes, order: seq<nat>, leaves: Nodes, leafOf: seq<nat>, varToLeaf: seq<nat>)
    requires Built(nodes) && InArena(nodes, order) && LeavesPlaced(nodes, order, leaves, leafOf, varToLeaf)
    ensures InnersPlaced(nodes, order, 0, leaves, leafOf, leaves)
  {
  }
}
