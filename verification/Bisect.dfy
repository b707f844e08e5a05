/** Trees by splitting the variables in two again and again, for any solver that offers sound splits. */
module Bisect {
  import opened Wrappers
  import opened Cnf
  import opened Ordering
  import opened Vtrees
  import opened Reindex

  const UNSPLIT_MINFILL_VARS: nat := 256

  /** A variable as the solvers number it, from 0. */
  type VarIndex = n: nat | n < MAX_VAR

  function AsVar(v: VarIndex): VarId { FromIdx(v) }

  function AsVars(vars: seq<VarIndex>): seq<VarId> { Map(AsVar, vars) }

  // ---- splits ----

  /** One half of a subset and the other, each non-empty. */
  datatype Bisection = Bisection(left: seq<VarIndex>, right: seq<VarIndex>)

  /** The variables on one side, in the order the subset lists them. */
  function SideOf(vars: seq<VarIndex>, bits: seq<nat>, onLeft: bool): seq<VarIndex>
    requires |bits| == |vars|
  {
    if vars == [] then []
    else
      var n := |vars| - 1;
      SideOf(vars[..n], bits[..n], onLeft) + (if (bits[n] == 0) == onLeft then [vars[n]] else [])
  }

  /** Some variable falls on the side. */
  ghost predicate Falls(bits: seq<nat>, onLeft: bool) {
    exists i :: 0 <= i < |bits| && (bits[i] == 0) == onLeft
  }

  /** A split puts every variable on exactly one side. */
  lemma {:induction false} SidesPartition(vars: seq<VarIndex>, bits: seq<nat>)
    requires |bits| == |vars|
    ensures multiset(SideOf(vars, bits, true)) + multiset(SideOf(vars, bits, false)) == multiset(vars)
  {
    if vars != [] {
      var n := |vars| - 1;
      SidesPartition(vars[..n], bits[..n]);
      assert vars == vars[..n] + [vars[n]];
    }
  }

  lemma {:induction false} SideEmpty(vars: seq<VarIndex>, bits: seq<nat>, onLeft: bool)
    requires |bits| == |vars|
    ensures SideOf(vars, bits, onLeft) != [] <==> Falls(bits, onLeft)
  {
    if vars != [] {
      var n := |vars| - 1;
      SideEmpty(vars[..n], bits[..n], onLeft);
      if Falls(bits[..n], onLeft) {
        var i :| 0 <= i < n && (bits[..n][i] == 0) == onLeft;
        assert (bits[i] == 0) == onLeft;
      }
      if Falls(bits, onLeft) && (bits[n] == 0) != onLeft {
        var i :| 0 <= i < |bits| && (bits[i] == 0) == onLeft;
        assert (bits[..n][i] == 0) == onLeft;
      }
    }
  }

  /** The bits say a side for each of the variables, and both sides are taken. */
  predicate Divides(vars: seq<VarIndex>, bits: seq<nat>) {
    |bits| == |vars| && SideOf(vars, bits, true) != [] && SideOf(vars, bits, false) != []
  }

  lemma {:induction false} SideSizes(vars: seq<VarIndex>, bits: seq<nat>)
    requires |bits| == |vars|
    ensures |SideOf(vars, bits, true)| + |SideOf(vars, bits, false)| == |vars|
  {
    if vars != [] { SideSizes(vars[..|vars| - 1], bits[..|vars| - 1]); }
  }

  /** The split some side bits describe; `None` when they are not a split of `vars`. */
  method FromSideBits(vars: seq<VarIndex>, bits: seq<nat>) returns (r: Option<Bisection>)
    ensures r.Some? <==> |bits| == |vars| && Falls(bits, true) && Falls(bits, false)
    ensures r.Some? <==> Divides(vars, bits)
    ensures r.Some? ==> r.value.left == SideOf(vars, bits, true) && r.value.right == SideOf(vars, bits, false)
    ensures r.Some? ==> r.value.left != [] && r.value.right != []
                        && multiset(r.value.left) + multiset(r.value.right) == multiset(vars)
  {
    if |bits| != |vars| { return None; }
    var left: seq<VarIndex>, right: seq<VarIndex> := [], [];
    for k := 0 to |vars|
      invariant left == SideOf(vars[..k], bits[..k], true) && right == SideOf(vars[..k], bits[..k], false)
    {
      assert vars[..k + 1][..k] == vars[..k] && bits[..k + 1][..k] == bits[..k];
      if bits[k] == 0 {
        left := left + [vars[k]];
      } else {
        right := right + [vars[k]];
      }
    }
    assert vars[..|vars|] == vars && bits[..|vars|] == bits;
    SidesPartition(vars, bits);
    SideEmpty(vars, bits, true);
    SideEmpty(vars, bits, false);
    if left == [] || right == [] { return None; }
    return Some(Bisection(left, right));
  }

  // ---- the solver ----

  datatype BuildError = TimedOut | Backend(message: string)

  /** What a backend answers when asked to split: side bits, nothing, or an error. */
  datatype SplitAnswer = SideBits(bits: seq<nat>) | NoSplit | Refused(message: string)

  /** A backend whose every answer may be anything it is allowed to be, by the number of the call. */
  class BisectionSolver {
    const minfillCutoff: nat
    const expired: nat -> bool
    const split: nat -> SplitAnswer
    const refined: (nat, seq<VarId>) -> Option<Tree>
    const minfill: (nat, nat) -> Tree
    var calls: nat

    constructor (minfillCutoff: nat, expired: nat -> bool, split: nat -> SplitAnswer,
                 refined: (nat, seq<VarId>) -> Option<Tree>, minfill: (nat, nat) -> Tree)
      ensures this.minfillCutoff == minfillCutoff && this.expired == expired && this.split == split
      ensures this.refined == refined && this.minfill == minfill
    {
      this.minfillCutoff, this.expired, this.split := minfillCutoff, expired, split;
      this.refined, this.minfill := refined, minfill;
      calls := 0;
    }

    /** A second look keeps the leaf set; min-fill returns a tree over what it is given. */
    ghost predicate Sound() {
      && (forall k, vars: seq<VarId>, t :: refined(k, vars) == Some(t) ==> multiset(Leaves(t)) == multiset(vars))
      && (forall k, n: nat :: 0 < n <= MAX_VAR ==> LeafSpace(minfill(k, n), n))
    }

    // What the recursion builds from the answers, call by call.

    ghost function Small(call: nat, vars: seq<VarIndex>): Tree {
      RenameTree(minfill(call, |vars|), LocalName(AsVars(vars)))
    }

    /** Both halves, the right one with the calls that come after the left one's; the first failure is the answer. */
    ghost function Halves(call: nat, left: seq<VarIndex>, right: seq<VarIndex>): (Result<Tree, BuildError>, nat)
      requires left != [] && right != []
      decreases |left| + |right|, 0, 0
    {
      var (l, between) := Bisected(call, left);
      if l.Err? then (l, between)
      else
        var (r, after) := Bisected(between, right);
        if r.Err? then (r, after) else (Ok(Node(l.value, r.value)), after)
    }

    /** Past the deadline nothing; one or two variables as they come; up to the cutoff, and where no split is offered in
        not too many, min-fill; otherwise the solver's halves, or the middle, and the solver's second look. */
    ghost function Bisected(call: nat, vars: seq<VarIndex>): (Result<Tree, BuildError>, nat)
      requires vars != []
      decreases |vars|, 1
    {
      if expired(call) then (Err(TimedOut), call + 1)
      else if |vars| == 1 then (Ok(Leaf(AsVar(vars[0]))), call + 1)
      else if |vars| == 2 then (Ok(Node(Leaf(AsVar(vars[0])), Leaf(AsVar(vars[1])))), call + 1)
      else if |vars| <= minfillCutoff then (Ok(Small(call + 1, vars)), call + 2)
      else if split(call + 1).Refused? then (Err(Backend(split(call + 1).message)), call + 2)
      else if split(call + 1).SideBits? && Divides(vars, split(call + 1).bits) then
        SideSizes(vars, split(call + 1).bits);
        Divided(call + 2, vars, SideOf(vars, split(call + 1).bits, true), SideOf(vars, split(call + 1).bits, false))
      else Unsplit(call + 2, vars)
    }

    /** The solver's halves, looked at a second time. */
    ghost function Divided(call: nat, vars: seq<VarIndex>, left: seq<VarIndex>, right: seq<VarIndex>)
      : (Result<Tree, BuildError>, nat)
      requires left != [] && right != [] && |left| + |right| == |vars|
      decreases |vars|, 0, 1
    {
      var (joined, after) := Halves(call, left, right);
      if joined.Err? then (joined, after)
      else (Ok(refined(after, AsVars(vars)).UnwrapOr(joined.value)), after + 1)
    }

    ghost function Unsplit(call: nat, vars: seq<VarIndex>): (Result<Tree, BuildError>, nat)
      requires |vars| > 1
      decreases |vars|, 0, 1
    {
      if |vars| <= UNSPLIT_MINFILL_VARS then (Ok(Small(call, vars)), call + 1)
      else Halves(call, vars[..|vars| / 2], vars[|vars| / 2..])
    }

    method Partition(vars: seq<VarIndex>) returns (r: Result<Option<Bisection>, BuildError>)
      modifies this
      ensures r.Ok? && r.value.Some? ==>
                var split := r.value.value;
                split.left != [] && split.right != [] && multiset(split.left) + multiset(split.right) == multiset(vars)
      ensures calls == old(calls) + 1
      ensures match split(old(calls))
              case Refused(message) => r == Err(Backend(message))
              case NoSplit => r == Ok(None)
              case SideBits(bits) =>
                r == Ok(if Divides(vars, bits)
                        then Some(Bisection(SideOf(vars, bits, true), SideOf(vars, bits, false))) else None)
    {
      var answer := split(calls);
      calls := calls + 1;
      match answer
      case Refused(message) => r := Err(Backend(message));
      case NoSplit => r := Ok(None);
      case SideBits(bits) =>
        var bisection := FromSideBits(vars, bits);
        r := Ok(bisection);
    }

    method Expired() returns (r: bool)
      modifies this
      ensures r == expired(old(calls)) && calls == old(calls) + 1
    {
      r := expired(calls);
      calls := calls + 1;
    }

    /** Keep the subtree just assembled, or put another over the same variables in its place. */
    method RefineSubtree(vars: seq<VarIndex>, arena: VtreeArena, checkpoint: nat, root: nat, ghost t: Tree)
      returns (i: nat, ghost t': Tree)
      requires Sound() && arena.Valid() && checkpoint <= |arena.nodes| && root < |arena.nodes|
                && arena.TreeOf(root) == t
      requires multiset(Leaves(t)) == multiset(AsVars(vars))
      modifies this, arena
      ensures arena.Appended(old(arena.nodes)[..checkpoint], i, t') && multiset(Leaves(t')) == multiset(AsVars(vars))
      ensures t' == refined(old(calls), AsVars(vars)).UnwrapOr(t) && calls == old(calls) + 1
    {
      var answer := refined(calls, AsVars(vars));
      calls := calls + 1;
      if answer.Some? {
        arena.Truncate(checkpoint);
        i := arena.AddTree(answer.value);
        t' := answer.value;
      } else {
        i, t' := root, t;
      }
    }
  }

  // ---- small subsets ----

  method MinfillSubtree(vars: seq<VarIndex>, arena: VtreeArena, solver: BisectionSolver) returns (i: nat, ghost t: Tree)
    requires 0 < |vars| <= MAX_VAR && solver.Sound() && arena.Valid()
    modifies arena, solver
    ensures arena.Appended(old(arena.nodes), i, t) && multiset(Leaves(t)) == multiset(AsVars(vars))
    ensures t == solver.Small(old(solver.calls), vars) && solver.calls == old(solver.calls) + 1
  {
    var n := |vars|;
    var shape := solver.minfill(solver.calls, n);
    solver.calls := solver.calls + 1;
    var own := new VtreeArena();
    var root := own.AddTree(shape);
    LeafSpaceFits(shape, n);
    var sub := FromNodes(own.nodes, root, n);
    i := arena.Graft(sub, LocalName(AsVars(vars)));
    RenamedLeafSpace(shape, AsVars(vars));
    t := RenameTree(shape, LocalName(AsVars(vars)));
  }

  // ---- the recursion ----

  lemma AsVarsSplits(vars: seq<VarIndex>, left: seq<VarIndex>, right: seq<VarIndex>)
    requires multiset(left) + multiset(right) == multiset(vars)
    ensures multiset(AsVars(left)) + multiset(AsVars(right)) == multiset(AsVars(vars))
    ensures |left| + |right| == |vars|
  {
    assert multiset(left + right) == multiset(vars);
    MapBag(AsVar, left + right, vars);
    assert AsVars(left + right) == AsVars(left) + AsVars(right);
    assert |multiset(left + right)| == |multiset(vars)|;
  }

  /** Two halves joined. */
  method Join(arena: VtreeArena, left: nat, right: nat, ghost tl: Tree, ghost tr: Tree, ghost bag: multiset<VarId>)
    returns (i: nat, ghost t: Tree)
    requires arena.Valid() && left < |arena.nodes| && right < |arena.nodes|
    requires arena.TreeOf(left) == tl && arena.TreeOf(right) == tr
    requires multiset(Leaves(tl)) + multiset(Leaves(tr)) == bag
    modifies arena
    ensures arena.Appended(old(arena.nodes), i, t) && multiset(Leaves(t)) == bag && t == Node(tl, tr)
  {
    i := arena.AddInternal(left, right);
    t := Node(tl, tr);
    assert Leaves(t) == Leaves(tl) + Leaves(tr);
  }

  /** Both halves built one after the other and joined; the first failure is the answer. */
  method BisectHalves(vars: seq<VarIndex>, left: seq<VarIndex>, right: seq<VarIndex>, arena: VtreeArena,
                      solver: BisectionSolver)
    returns (r: Result<nat, BuildError>, ghost t: Tree)
    requires left != [] && right != [] && multiset(left) + multiset(right) == multiset(vars)
    requires |vars| <= MAX_VAR && solver.Sound() && arena.Valid()
    modifies arena, solver
    ensures arena.Valid() && old(arena.nodes) <= arena.nodes
    ensures r.Ok? ==> arena.Appended(old(arena.nodes), r.value, t) && multiset(Leaves(t)) == multiset(AsVars(vars))
    ensures solver.Halves(old(solver.calls), left, right)
         == (if r.Ok? then Ok(t) else Err(r.error), solver.calls)
    decreases |vars|, 0, 0
  {
    t := Leaf(1);
    AsVarsSplits(vars, left, right);
    var l, tl := BisectRecursive(left, arena, solver);
    if l.Err? { return l, t; }
    ghost var between := arena.nodes;
    var r', tr := BisectRecursive(right, arena, solver);
    if r'.Err? { return r', t; }
    TreeKept(between, arena.nodes, l.value);
    var i, joined := Join(arena, l.value, r'.value, tl, tr, multiset(AsVars(vars)));
    return Ok(i), joined;
  }

  /** Whatever the solver answers, a finished subtree has one leaf for each of the variables. */
  method BisectRecursive(vars: seq<VarIndex>, arena: VtreeArena, solver: BisectionSolver)
    returns (r: Result<nat, BuildError>, ghost t: Tree)
    requires 0 < |vars| <= MAX_VAR && solver.Sound() && arena.Valid()
    modifies arena, solver
    ensures arena.Valid() && old(arena.nodes) <= arena.nodes
    ensures r.Ok? ==> arena.Appended(old(arena.nodes), r.value, t) && multiset(Leaves(t)) == multiset(AsVars(vars))
    ensures solver.Bisected(old(solver.calls), vars) == (if r.Ok? then Ok(t) else Err(r.error), solver.calls)
    decreases |vars|, 1
  {
    hide BisectionSolver.Halves, BisectionSolver.Divided, BisectionSolver.Unsplit, BisectionSolver.Small, SideOf;
    t := Leaf(1);
    var late := solver.Expired();
    if late { return Err(TimedOut), t; }
    if |vars| == 1 {
      var i := arena.AddLeaf(AsVar(vars[0]));
      assert AsVars(vars) == [AsVar(vars[0])];
      return Ok(i), Leaf(AsVar(vars[0]));
    }
    if |vars| == 2 {
      var l := arena.AddLeaf(AsVar(vars[0]));
      var r' := arena.AddLeaf(AsVar(vars[1]));
      var i := arena.AddInternal(l, r');
      assert AsVars(vars) == [AsVar(vars[0])] + [AsVar(vars[1])];
      return Ok(i), Node(Leaf(AsVar(vars[0])), Leaf(AsVar(vars[1])));
    }
    if |vars| <= solver.minfillCutoff {
      var i, small := MinfillSubtree(vars, arena, solver);
      return Ok(i), small;
    }
    var found := solver.Partition(vars);
    if found.Err? { return Err(found.error), t; }
    if found.value.None? {
      r, t := BisectUnsplit(vars, arena, solver);
    } else {
      var split := found.value.value;
      AsVarsSplits(vars, split.left, split.right);
      r, t := BisectDivided(vars, split.left, split.right, arena, solver);
    }
  }

  /** No split to go by: min-fill while that is cheap, and else the middle. */
  method BisectUnsplit(vars: seq<VarIndex>, arena: VtreeArena, solver: BisectionSolver)
    returns (r: Result<nat, BuildError>, ghost t: Tree)
    requires 1 < |vars| <= MAX_VAR && solver.Sound() && arena.Valid()
    modifies arena, solver
    ensures arena.Valid() && old(arena.nodes) <= arena.nodes
    ensures r.Ok? ==> arena.Appended(old(arena.nodes), r.value, t) && multiset(Leaves(t)) == multiset(AsVars(vars))
    ensures solver.Unsplit(old(solver.calls), vars) == (if r.Ok? then Ok(t) else Err(r.error), solver.calls)
    decreases |vars|, 0, 1
  {
    if |vars| <= UNSPLIT_MINFILL_VARS {
      var i, small := MinfillSubtree(vars, arena, solver);
      return Ok(i), small;
    }
    var mid := |vars| / 2;
    assert vars == vars[..mid] + vars[mid..];
    r, t := BisectHalves(vars, vars[..mid], vars[mid..], arena, solver);
  }

  /** The solver's halves, and then its second look at what they were joined to. */
  method BisectDivided(vars: seq<VarIndex>, left: seq<VarIndex>, right: seq<VarIndex>, arena: VtreeArena,
                       solver: BisectionSolver)
    returns (r: Result<nat, BuildError>, ghost t: Tree)
    requires left != [] && right != [] && multiset(left) + multiset(right) == multiset(vars)
    requires |left| + |right| == |vars| <= MAX_VAR && solver.Sound() && arena.Valid()
    modifies arena, solver
    ensures arena.Valid() && old(arena.nodes) <= arena.nodes
    ensures r.Ok? ==> arena.Appended(old(arena.nodes), r.value, t) && multiset(Leaves(t)) == multiset(AsVars(vars))
    ensures solver.Divided(old(solver.calls), vars, left, right)
         == (if r.Ok? then Ok(t) else Err(r.error), solver.calls)
    decreases |vars|, 0, 1
  {
    ghost var before := arena.nodes;
    var checkpoint := |arena.nodes|;
    r, t := BisectHalves(vars, left, right, arena, solver);
    if r.Err? { return r, t; }
    assert arena.nodes[..checkpoint] == before;
    var i, last := solver.RefineSubtree(vars, arena, checkpoint, r.value, t);
    return Ok(i), last;
  }

  function AllIndices(numVars: nat): (all: seq<VarIndex>)
    requires numVars <= MAX_VAR
    ensures |all| == numVars && forall i :: 0 <= i < numVars ==> all[i] == i
  {
    seq(numVars, i requires 0 <= i < numVars => i)
  }

  /** A whole formula: a finished tree has exactly one leaf per variable. */
  method RunBisection(numVars: nat, solver: BisectionSolver) returns (r: Result<Vtree, BuildError>)
    requires 0 < numVars <= MAX_VAR && solver.Sound()
    modifies solver
    ensures r.Ok? ==> r.value.Valid() && LeafSpace(r.value.Shape(), numVars)
    ensures solver.Bisected(old(solver.calls), AllIndices(numVars))
         == (if r.Ok? then Ok(r.value.Shape()) else Err(r.error), solver.calls)
  {
    var all := AllIndices(numVars);
    var arena := new VtreeArena();
    var root, t := BisectRecursive(all, arena, solver);
    if root.Err? { return Err(root.error); }
    assert AsVars(all) == FirstVars(numVars);
    FirstVarsBag(numVars);
    LeafSpaceFits(t, numVars);
    var finished := FromNodes(arena.nodes, root.value, numVars);
    return Ok(finished);
  }
}
