/** The stack walk that decides whether child tables describe one tree, and lists its preorder. */
module TreeWalk {
  import opened Wrappers
  import opened Sequences
  import opened PlaneTrees

  /** Every inner node's two children are nodes; a negative left child marks a leaf. */
  predicate Tables(left: seq<int>, right: seq<int>) {
    |left| == |right| && forall i :: 0 <= i < |left| && left[i] >= 0 ==> left[i] < |left| && 0 <= right[i] < |left|
  }

  function Unseen(seen: seq<bool>): (r: nat)
    ensures r <= |seen|
  {
    if seen == [] then 0 else Unseen(seen[..|seen| - 1]) + (if seen[|seen| - 1] then 0 else 1)
  }

  lemma {:induction false} UnseenMarked(seen: seq<bool>, i: nat)
    requires i < |seen| && !seen[i]
    ensures Unseen(seen) == Unseen(seen[i := true]) + 1
  {
    var k := |seen| - 1;
    if i < k {
      UnseenMarked(seen[..k], i);
      assert seen[i := true][..k] == seen[..k][i := true];
    } else {
      assert seen[i := true][..k] == seen[..k];
    }
  }

  lemma {:induction false} AllUnseen(seen: seq<bool>)
    requires forall i :: 0 <= i < |seen| ==> !seen[i]
    ensures Unseen(seen) == |seen|
  {
    if seen != [] { AllUnseen(seen[..|seen| - 1]); }
  }

  datatype Walked = Walked(order: seq<nat>, parent: seq<int>)

  /** The walk from a stack on: the nodes in the order popped, or a node met twice. */
  function Walk(left: seq<int>, right: seq<int>, stack: seq<nat>, order: seq<nat>, seen: seq<bool>, parent: seq<int>)
    : Result<Walked, nat>
    requires Tables(left, right) && |seen| == |left| == |parent| && forall i :: 0 <= i < |stack| ==> stack[i] < |left|
    decreases Unseen(seen), |stack|
  {
    if stack == [] then Ok(Walked(order, parent))
    else
      var node, rest := stack[|stack| - 1], stack[..|stack| - 1];
      if left[node] < 0 then Walk(left, right, rest, order + [node], seen, parent)
      else
        var l, r := left[node], right[node];
        if seen[r] then Err(r)
        else
          UnseenMarked(seen, r);
          if l == r || seen[l] then Err(l)
          else
            UnseenMarked(seen[r := true], l);
            Walk(left, right, rest + [r, l], order + [node], seen[r := true][l := true], parent[r := node][l := node])
  }

  // ---- what an accepting walk found ----

  /** One tree for each node on the stack, the top's first. */
  ghost predicate Rooted(ts: seq<Tree>, stack: seq<nat>) {
    |ts| == |stack| && forall i :: 0 <= i < |ts| ==> ts[i].id == stack[|stack| - 1 - i]
  }

  ghost predicate Found(t: Tree, left: seq<int>, right: seq<int>, parent: seq<int>)
    requires |left| == |right|
  {
    Matches(t, left, right) && ParentsIn(t, parent)
  }

  ghost predicate AllFound(ts: seq<Tree>, left: seq<int>, right: seq<int>, parent: seq<int>)
    requires |left| == |right|
  {
    forall i :: 0 <= i < |ts| ==> Found(ts[i], left, right, parent)
  }

  lemma OpenRooted(ts: seq<Tree>, node: nat, rest: seq<nat>, l: nat, r: nat)
    requires Rooted(ts, rest + [r, l])
    ensures |ts| >= 2 && ts[0].id == l && ts[1].id == r
    ensures Rooted([Inner(node, ts[0], ts[1])] + ts[2..], rest + [node])
  {
  }

  lemma LeafRooted(ts: seq<Tree>, node: nat, rest: seq<nat>)
    requires Rooted(ts, rest)
    ensures Rooted([Leaf(node)] + ts, rest + [node])
  {
  }

  lemma OpenFound(ts: seq<Tree>, node: nat, left: seq<int>, right: seq<int>, parent: seq<int>)
    requires |ts| >= 2 && |left| == |right| && node < |left| && AllFound(ts, left, right, parent)
    requires left[node] == ts[0].id && right[node] == ts[1].id
    requires ts[0].id < |parent| && parent[ts[0].id] == node && ts[1].id < |parent| && parent[ts[1].id] == node
    ensures AllFound([Inner(node, ts[0], ts[1])] + ts[2..], left, right, parent)
  {
    assert Found(ts[0], left, right, parent) && Found(ts[1], left, right, parent);
    assert Found(Inner(node, ts[0], ts[1]), left, right, parent);
  }

  lemma LeafFound(ts: seq<Tree>, node: nat, left: seq<int>, right: seq<int>, parent: seq<int>)
    requires |left| == |right| && node < |left| && left[node] < 0 && AllFound(ts, left, right, parent)
    ensures AllFound([Leaf(node)] + ts, left, right, parent)
  {
    assert Found(Leaf(node), left, right, parent);
  }

  /** Parent entries once written stay: only nodes not seen before get one. */
  ghost predicate ParentsKept(parent: seq<int>, seen: seq<bool>, more: seq<int>) {
    |more| == |parent| == |seen| && forall i :: 0 <= i < |seen| && seen[i] ==> more[i] == parent[i]
  }

  lemma KeptThroughChildren(parent: seq<int>, seen: seq<bool>, more: seq<int>, l: nat, r: nat, node: nat)
    requires |parent| == |seen| && l < |seen| && r < |seen| && l != r && !seen[l] && !seen[r]
    requires ParentsKept(parent[r := node][l := node], seen[r := true][l := true], more)
    ensures ParentsKept(parent, seen, more) && more[l] == node && more[r] == node
  {
  }

  /** An accepted walk lists the preorders of one tree for each node of the stack. */
  lemma {:induction false} WalkFindsTrees(left: seq<int>, right: seq<int>, stack: seq<nat>, order: seq<nat>,
                                          seen: seq<bool>, parent: seq<int>) returns (ts: seq<Tree>)
    requires Tables(left, right) && |seen| == |left| == |parent| && forall i :: 0 <= i < |stack| ==> stack[i] < |left|
    requires Walk(left, right, stack, order, seen, parent).Ok?
    ensures var w := Walk(left, right, stack, order, seen, parent).value;
            && Rooted(ts, stack) && AllFound(ts, left, right, w.parent)
            && w.order == order + PreorderAll(ts) && ParentsKept(parent, seen, w.parent)
    decreases Unseen(seen), |stack|
  {
    hide AllFound, Rooted, ParentsKept, Unseen, PreorderAll;
    var w := Walk(left, right, stack, order, seen, parent).value;
    if stack == [] {
      ts := [];
      NothingFound(left, right, order, seen, parent);
    } else {
      var node, rest := stack[|stack| - 1], stack[..|stack| - 1];
      assert rest + [node] == stack;
      if left[node] < 0 {
        var found := WalkFindsTrees(left, right, rest, order + [node], seen, parent);
        ts := [Leaf(node)] + found;
        LeafRooted(found, node, rest);
        LeafFound(found, node, left, right, w.parent);
        PreorderAllLeaf(Leaf(node), found);
      } else {
        var l, r := left[node], right[node];
        UnseenMarked(seen, r);
        UnseenMarked(seen[r := true], l);
        var found := WalkFindsTrees(left, right, rest + [r, l], order + [node], seen[r := true][l := true],
                                    parent[r := node][l := node]);
        KeptThroughChildren(parent, seen, w.parent, l, r, node);
        LengthKept(parent, seen, w.parent);
        OpenRooted(found, node, rest, l, r);
        ts := [Inner(node, found[0], found[1])] + found[2..];
        OpenFound(found, node, left, right, w.parent);
        PreorderAllOpened(ts[0], found[2..]);
        assert [found[0], found[1]] + found[2..] == found;
      }
    }
  }

  lemma LengthKept(parent: seq<int>, seen: seq<bool>, more: seq<int>)
    requires ParentsKept(parent, seen, more)
    ensures |more| == |parent|
  {
  }

  lemma NothingFound(left: seq<int>, right: seq<int>, order: seq<nat>, seen: seq<bool>, parent: seq<int>)
    requires |left| == |right| && |seen| == |parent|
    ensures Rooted([], []) && AllFound([], left, right, parent) && order == order + PreorderAll([])
              && ParentsKept(parent, seen, parent)
  {
  }

  // ---- no node twice, none pushed that is not listed ----

  /** The nodes marked are the ones listed or waiting, each once. */
  ghost predicate Marks(stack: seq<nat>, order: seq<nat>, seen: seq<bool>) {
    && Distinct(order + stack)
    && forall i: nat :: i < |seen| ==> (seen[i] <==> i in order + stack)
  }

  lemma MarksMoved(stack: seq<nat>, order: seq<nat>, seen: seq<bool>)
    requires stack != [] && Marks(stack, order, seen)
    ensures Marks(stack[..|stack| - 1], order + [stack[|stack| - 1]], seen)
  {
    var k := |stack| - 1;
    var moved := order + [stack[k]] + stack[..k];
    assert multiset(moved) == multiset(order + stack) by { assert stack == stack[..k] + [stack[k]]; }
    SameBagDistinct(order + stack, moved);
  }

  lemma SameBagDistinct(a: seq<nat>, b: seq<nat>)
    requires Distinct(a) && multiset(a) == multiset(b)
    ensures Distinct(b) && forall i :: i in a <==> i in b
  {
    forall i ensures i in a <==> i in b { assert i in multiset(a) <==> i in multiset(b); }
    forall i, j | 0 <= i < j < |b| ensures b[i] != b[j] {
      if b[i] == b[j] {
        assert b == b[..i] + [b[i]] + b[i + 1..j] + [b[j]] + b[j + 1..];
        assert multiset(b)[b[i]] >= 2;
        OnceInDistinct(a, b[i]);
      }
    }
  }

  lemma {:induction false} OnceInDistinct(s: seq<nat>, x: nat)
    requires Distinct(s)
    ensures multiset(s)[x] <= 1
  {
    if s != [] {
      var k := |s| - 1;
      OnceInDistinct(s[..k], x);
      assert s == s[..k] + [s[k]];
      if s[k] == x { assert x !in multiset(s[..k]); }
    }
  }

  lemma MarksPushed(stack: seq<nat>, order: seq<nat>, seen: seq<bool>, child: nat)
    requires Marks(stack, order, seen) && child < |seen| && !seen[child]
    ensures Marks(stack + [child], order, seen[child := true])
  {
    assert order + (stack + [child]) == (order + stack) + [child];
  }

  lemma MarksBoth(stack: seq<nat>, order: seq<nat>, seen: seq<bool>, l: nat, r: nat)
    requires stack != [] && Marks(stack, order, seen) && l < |seen| && r < |seen| && l != r && !seen[l] && !seen[r]
    ensures Marks(stack[..|stack| - 1] + [r, l], order + [stack[|stack| - 1]], seen[r := true][l := true])
  {
    hide Marks;
    var rest, listed := stack[..|stack| - 1], order + [stack[|stack| - 1]];
    MarksMoved(stack, order, seen);
    MarksPushed(rest, listed, seen, r);
    MarksPushed(rest + [r], listed, seen[r := true], l);
    assert rest + [r] + [l] == rest + [r, l];
  }

  /** No node is listed twice. */
  lemma {:induction false} WalkDistinct(left: seq<int>, right: seq<int>, stack: seq<nat>, order: seq<nat>,
                                        seen: seq<bool>, parent: seq<int>)
    requires Tables(left, right) && |seen| == |left| == |parent| && forall i :: 0 <= i < |stack| ==> stack[i] < |left|
    requires Marks(stack, order, seen) && Walk(left, right, stack, order, seen, parent).Ok?
    ensures Distinct(Walk(left, right, stack, order, seen, parent).value.order)
    decreases Unseen(seen), |stack|
  {
    hide Marks, Unseen;
    if stack == [] {
      MarksDistinct(order, seen);
    } else {
      var node, rest := stack[|stack| - 1], stack[..|stack| - 1];
      if left[node] < 0 {
        MarksMoved(stack, order, seen);
        WalkDistinct(left, right, rest, order + [node], seen, parent);
      } else {
        var l, r := left[node], right[node];
        UnseenMarked(seen, r);
        UnseenMarked(seen[r := true], l);
        MarksBoth(stack, order, seen, l, r);
        WalkDistinct(left, right, rest + [r, l], order + [node], seen[r := true][l := true],
                     parent[r := node][l := node]);
      }
    }
  }

  lemma MarksDistinct(order: seq<nat>, seen: seq<bool>)
    requires Marks([], order, seen)
    ensures Distinct(order)
  {
    assert order + [] == order;
  }

  // ---- a tree is always accepted ----

  /** Every tree waiting has its top in the forest's preorder. */
  lemma {:induction false} TopsListed(ts: seq<Tree>, i: nat)
    requires i < |ts|
    ensures ts[i].id in PreorderAll(ts)
  {
    if i == 0 {
      assert Preorder(ts[0])[0] == ts[0].id;
    } else {
      TopsListed(ts[1..], i - 1);
    }
  }

  /** The nodes marked are the ones listed and the tops of the trees waiting. */
  ghost predicate Waiting(ts: seq<Tree>, order: seq<nat>, seen: seq<bool>) {
    && Distinct(order + PreorderAll(ts))
    && (forall i: nat :: i < |seen| && seen[i] ==> i in order || exists k :: 0 <= k < |ts| && ts[k].id == i)
  }

  lemma WaitingLeaf(t: Tree, rest: seq<Tree>, order: seq<nat>, seen: seq<bool>)
    requires t.Leaf? && Waiting([t] + rest, order, seen)
    ensures Waiting(rest, order + [t.id], seen)
  {
    PreorderAllLeaf(t, rest);
    assert order + [t.id] + PreorderAll(rest) == order + PreorderAll([t] + rest);
    forall i: nat | i < |seen| && seen[i] && i !in order + [t.id]
      ensures exists k :: 0 <= k < |rest| && rest[k].id == i
    {
      var k :| 0 <= k < |[t] + rest| && ([t] + rest)[k].id == i;
      assert rest[k - 1].id == i;
    }
  }

  lemma WaitingOpened(t: Tree, rest: seq<Tree>, order: seq<nat>, seen: seq<bool>)
    requires t.Inner? && Waiting([t] + rest, order, seen) && t.left.id < |seen| && t.right.id < |seen|
    ensures Waiting([t.left, t.right] + rest, order + [t.id], seen[t.right.id := true][t.left.id := true])
  {
    PreorderAllOpened(t, rest);
    var ts := [t.left, t.right] + rest;
    assert order + [t.id] + PreorderAll(ts) == order + PreorderAll([t] + rest);
    var marked := seen[t.right.id := true][t.left.id := true];
    forall i: nat | i < |seen| && marked[i] && i !in order + [t.id] ensures exists k :: 0 <= k < |ts| && ts[k].id == i {
      if i == t.left.id {
        assert ts[0].id == i;
      } else if i == t.right.id {
        assert ts[1].id == i;
      } else {
        var k :| 0 <= k < |[t] + rest| && ([t] + rest)[k].id == i;
        assert ts[k + 1].id == i;
      }
    }
  }

  /** `id` stands in the forest at a place where no tree of it has its top, and once in all. */
  lemma NotMarked(t: Tree, rest: seq<Tree>, order: seq<nat>, seen: seq<bool>, child: Tree)
    requires t.Inner? && Waiting([t] + rest, order, seen) && (child == t.left || child == t.right) && child.id < |seen|
    ensures !seen[child.id] && t.left.id != t.right.id
  {
    var a, b, c := Preorder(t.left), Preorder(t.right), PreorderAll(rest);
    var whole := order + PreorderAll([t] + rest);
    assert ([t] + rest)[1..] == rest;
    assert whole == order + [t.id] + a + b + c;
    var at := if child == t.left then |order| + 1 else |order| + 1 + |a|;
    assert whole[at] == child.id && whole[|order| + 1] == t.left.id && whole[|order| + 1 + |a|] == t.right.id;
    forall j | 0 <= j < |order| ensures order[j] != child.id { assert whole[j] == order[j]; }
    forall k | 0 <= k < |[t] + rest| ensures ([t] + rest)[k].id != child.id {
      if k == 0 {
        assert whole[|order|] == t.id;
      } else {
        TopsListed(rest, k - 1);
        var j :| 0 <= j < |c| && c[j] == rest[k - 1].id;
        assert whole[|order| + 1 + |a| + |b| + j] == rest[k - 1].id;
      }
    }
  }

  ghost predicate AllMatch(ts: seq<Tree>, left: seq<int>, right: seq<int>)
    requires |left| == |right|
  {
    forall i :: 0 <= i < |ts| ==> Matches(ts[i], left, right)
  }

  /** Tables that do describe trees without a shared node are walked to the end. */
  lemma {:induction false} TreesAreWalked(left: seq<int>, right: seq<int>, ts: seq<Tree>, stack: seq<nat>,
                                          order: seq<nat>, seen: seq<bool>, parent: seq<int>)
    requires Tables(left, right) && |seen| == |left| == |parent| && forall i :: 0 <= i < |stack| ==> stack[i] < |left|
    requires Rooted(ts, stack) && AllMatch(ts, left, right) && Waiting(ts, order, seen)
    ensures Walk(left, right, stack, order, seen, parent).Ok?
    decreases Unseen(seen), |stack|
  {
    hide Waiting, Unseen, PreorderAll, Marks;
    if stack != [] {
      var node, rest := stack[|stack| - 1], stack[..|stack| - 1];
      var t, others := ts[0], ts[1..];
      assert ts == [t] + others && t.id == node && Matches(t, left, right);
      if left[node] < 0 {
        WaitingLeaf(t, others, order, seen);
        TreesAreWalked(left, right, others, rest, order + [node], seen, parent);
      } else {
        var l, r := left[node], right[node];
        NotMarked(t, others, order, seen, t.left);
        NotMarked(t, others, order, seen, t.right);
        UnseenMarked(seen, r);
        UnseenMarked(seen[r := true], l);
        WaitingOpened(t, others, order, seen);
        TreesAreWalked(left, right, [t.left, t.right] + others, rest + [r, l], order + [node],
                       seen[r := true][l := true], parent[r := node][l := node]);
      }
    }
  }

  // ---- the whole walk ----

  /** The tables describe one tree: from the root, every node once. */
  ghost predicate IsTree(t: Tree, left: seq<int>, right: seq<int>, root: nat) {
    && |left| == |right| && t.id == root && Matches(t, left, right)
    && Distinct(Preorder(t)) && Size(t) == |left|
  }

  function Fresh(n: nat, root: nat): (r: seq<bool>)
    requires root < n
    ensures |r| == n && forall i :: 0 <= i < n ==> (r[i] <==> i == root)
  {
    seq(n, i => i == root)
  }

  function NoParents(n: nat): (r: seq<int>)
    ensures |r| == n && forall i :: 0 <= i < n ==> r[i] == -1
  {
    seq(n, i => -1)
  }

  function WalkFrom(left: seq<int>, right: seq<int>, root: nat): Result<Walked, nat>
    requires Tables(left, right) && root < |left|
  {
    Walk(left, right, [root], [], Fresh(|left|, root), NoParents(|left|))
  }

  /** The walk accepts exactly the tables of a tree, and what it returns is that tree's. */
  lemma WalkDecides(left: seq<int>, right: seq<int>, root: nat)
    requires Tables(left, right) && root < |left|
    ensures (WalkFrom(left, right, root).Ok? && |WalkFrom(left, right, root).value.order| == |left|)
       <==> exists t :: IsTree(t, left, right, root)
    ensures WalkFrom(left, right, root).Ok? ==> |WalkFrom(left, right, root).value.order| <= |left|
    ensures forall t :: IsTree(t, left, right, root) ==> WalkGives(left, right, root, t)
  {
    hide IsTree;
    var n := |left|;
    if WalkFrom(left, right, root).Ok? {
      var t := WalkFindsTree(left, right, root);
      MatchesBounded(t, left, right);
      FullWhenDistinct(Preorder(t), n);
      assert |WalkFrom(left, right, root).value.order| == n ==> IsTree(t, left, right, root);
    }
    forall t | IsTree(t, left, right, root) ensures WalkGives(left, right, root, t) {
      TreeIsWalked(left, right, root, t);
    }
  }

  lemma {:induction false} MatchesBounded(t: Tree, left: seq<int>, right: seq<int>)
    requires |left| == |right| && Matches(t, left, right)
    ensures forall i :: i in Preorder(t) ==> i < |left|
  {
    if t.Inner? {
      MatchesBounded(t.left, left, right);
      MatchesBounded(t.right, left, right);
    }
  }

  ghost predicate WalkGives(left: seq<int>, right: seq<int>, root: nat, t: Tree)
    requires Tables(left, right) && root < |left|
  {
    && WalkFrom(left, right, root).Ok?
    && WalkTells(WalkFrom(left, right, root).value, t, |left|)
  }

  /** What a finished walk tells of a tree: its preorder, and each node's parent. */
  ghost predicate WalkTells(w: Walked, t: Tree, n: nat) {
    w.order == Preorder(t) && |w.order| == n == |w.parent| && t.id < n && w.parent[t.id] == -1 && ParentsIn(t, w.parent)
  }

  lemma WalkFindsTree(left: seq<int>, right: seq<int>, root: nat) returns (t: Tree)
    requires Tables(left, right) && root < |left| && WalkFrom(left, right, root).Ok?
    ensures t.id == root && Matches(t, left, right) && Distinct(Preorder(t))
    ensures |WalkFrom(left, right, root).value.order| == |left| ==> IsTree(t, left, right, root)
    ensures var w := WalkFrom(left, right, root).value;
            w.order == Preorder(t) && |w.parent| == |left| && w.parent[root] == -1 && ParentsIn(t, w.parent)
  {
    hide Walk, Matches, ParentsIn;
    var n := |left|;
    var w := WalkFrom(left, right, root).value;
    assert [] + [root] == [root];
    WalkDistinct(left, right, [root], [], Fresh(n, root), NoParents(n));
    var ts := WalkFindsTrees(left, right, [root], [], Fresh(n, root), NoParents(n));
    t := ts[0];
    assert ts == [t] && Found(ts[0], left, right, w.parent);
    PreorderOfOne(t);
    assert [] + Preorder(t) == Preorder(t);
  }

  lemma TreeIsWalked(left: seq<int>, right: seq<int>, root: nat, t: Tree)
    requires Tables(left, right) && root < |left| && IsTree(t, left, right, root)
    ensures WalkGives(left, right, root, t)
  {
    hide Walk, ParentsIn;
    var n := |left|;
    PreorderOfOne(t);
    assert [] + PreorderAll([t]) == Preorder(t);
    assert [t][0].id == root;
    TreesAreWalked(left, right, [t], [root], [], Fresh(n, root), NoParents(n));
    var s := WalkFindsTree(left, right, root);
    MatchesUnique(s, t, left, right);
  }

  datatype WalkError = ReachableTwice(child: nat) | Unreachable(missing: nat)

  /** The verdict of the walk and of the count after it. */
  function Verdict(n: nat, r: Result<Walked, nat>): Result<Walked, WalkError> {
    match r
    case Err(child) => Err(ReachableTwice(child))
    case Ok(w) => if |w.order| < n then Err(Unreachable(n - |w.order|)) else Ok(w)
  }

  lemma LeafStep(left: seq<int>, right: seq<int>, stack: seq<nat>, order: seq<nat>, seen: seq<bool>, parent: seq<int>)
    requires Tables(left, right) && |seen| == |left| == |parent| && forall i :: 0 <= i < |stack| ==> stack[i] < |left|
    requires stack != [] && left[stack[|stack| - 1]] < 0
    ensures Walk(left, right, stack, order, seen, parent)
         == Walk(left, right, stack[..|stack| - 1], order + [stack[|stack| - 1]], seen, parent)
  {
  }

  lemma InnerStep(left: seq<int>, right: seq<int>, stack: seq<nat>, order: seq<nat>, seen: seq<bool>, parent: seq<int>)
    requires Tables(left, right) && |seen| == |left| == |parent| && forall i :: 0 <= i < |stack| ==> stack[i] < |left|
    requires stack != [] && left[stack[|stack| - 1]] >= 0
    ensures var node, rest := stack[|stack| - 1], stack[..|stack| - 1];
            var l, r := left[node], right[node];
              Walk(left, right, stack, order, seen, parent)
              == if seen[r] then Err(r)
                 else if l == r || seen[l] then Err(l)
                 else Walk(left, right, rest + [r, l], order + [node], seen[r := true][l := true],
                           parent[r := node][l := node])
  {
  }

  /** A child met for the first time is marked, told its parent and put on the stack. */
  method Push(node: nat, child: nat, top: nat, stack: array<nat>, seen: array<bool>, parent: array<int>)
    returns (added: bool)
    requires child < seen.Length == parent.Length == stack.Length && Unseen(seen[..]) + top <= seen.Length
    modifies stack, seen, parent
    ensures added <==> !old(seen[child])
    ensures added ==> top < stack.Length && stack[..] == old(stack[..])[top := child]
    ensures added ==> seen[..] == old(seen[..])[child := true] && parent[..] == old(parent[..])[child := node]
    ensures added ==> Unseen(seen[..]) + 1 == Unseen(old(seen[..]))
  {
    if seen[child] { return false; }
    UnseenMarked(seen[..], child);
    seen[child] := true;
    parent[child] := node;
    stack[top] := child;
    assert seen[..] == old(seen[..])[child := true];
    return true;
  }

  /** Walks the tables from the root with a stack of waiting nodes. */
  method WalkTables(left: seq<int>, right: seq<int>, root: nat) returns (r: Result<Walked, WalkError>)
    requires Tables(left, right) && root < |left|
    ensures r == Verdict(|left|, WalkFrom(left, right, root))
    ensures r.Ok? <==> exists t :: IsTree(t, left, right, root)
    ensures forall t :: r.Ok? && IsTree(t, left, right, root) ==> WalkTells(r.value, t, |left|)
  {
    hide IsTree, WalkTells;
    WalkDecides(left, right, root);
    hide WalkFrom;
    r := WalkStack(left, right, root);
  }

  /** Room for every node: each one is unseen, waiting or listed. */
  ghost predicate Room(seen: seq<bool>, stack: seq<nat>, top: nat, reached: nat, n: nat) {
    && Unseen(seen) + top + reached == n == |seen| && top <= |stack| == n
    && forall i :: 0 <= i < top ==> stack[i] < n
  }

  /** Moves the top of the stack to the listing; the left child is pushed last and so is met next. */
  method VisitTop(left: seq<int>, right: seq<int>, top: nat, reached: nat, stack: array<nat>, order: array<nat>,
                  seen: array<bool>, parent: array<int>) returns (r: Result<nat, nat>)
    requires Tables(left, right) && top > 0 && order.Length == parent.Length == |left| && stack != order
    requires Room(seen[..], stack[..], top, reached, |left|)
    modifies stack, order, seen, parent
    ensures match r
            case Err(child) =>
              old(Walk(left, right, stack[..top], order[..reached], seen[..], parent[..])) == Err(child)
            case Ok(next) =>
              && Room(seen[..], stack[..], next, reached + 1, |left|)
              && (Unseen(seen[..]) < old(Unseen(seen[..])) || (Unseen(seen[..]) == old(Unseen(seen[..])) && next < top))
              && Walk(left, right, stack[..next], order[..reached + 1], seen[..], parent[..])
                 == old(Walk(left, right, stack[..top], order[..reached], seen[..], parent[..]))
  {
    hide Walk, Unseen;
    ghost var s0, o0, m0, p0 := stack[..top], order[..reached], seen[..], parent[..];
    var node := stack[top - 1];
    order[reached] := node;
    assert order[..reached + 1] == o0 + [node] && stack[..top - 1] == s0[..|s0| - 1] && s0[|s0| - 1] == node;
    if left[node] < 0 {
      LeafStep(left, right, s0, o0, m0, p0);
      return Ok(top - 1);
    }
    InnerStep(left, right, s0, o0, m0, p0);
    var second := Push(node, right[node], top - 1, stack, seen, parent);
    if !second { return Err(right[node]); }
    assert stack[..top] == s0[..|s0| - 1] + [right[node]];
    var first := Push(node, left[node], top, stack, seen, parent);
    if !first { return Err(left[node]); }
    assert stack[..top + 1] == s0[..|s0| - 1] + [right[node], left[node]];
    return Ok(top + 1);
  }

  method WalkStack(left: seq<int>, right: seq<int>, root: nat) returns (r: Result<Walked, WalkError>)
    requires Tables(left, right) && root < |left|
    ensures r == Verdict(|left|, WalkFrom(left, right, root))
  {
    hide Walk, Unseen;
    var n := |left|;
    var parent := new int[n](_ => -1);
    var order := new nat[n](_ => 0);
    var stack := new nat[n](_ => 0);
    var seen := new bool[n](_ => false);
    AllUnseen(seen[..]);
    UnseenMarked(seen[..], root);
    ghost var unmarked := seen[..];
    var top: nat, reached: nat := 1, 0;
    stack[0] := root;
    seen[root] := true;
    assert seen[..] == unmarked[root := true];
    assert seen[..] == Fresh(n, root) && parent[..] == NoParents(n) && stack[..1] == [root];
    while top > 0
      invariant Room(seen[..], stack[..], top, reached, n)
      invariant Walk(left, right, stack[..top], order[..reached], seen[..], parent[..]) == WalkFrom(left, right, root)
      decreases Unseen(seen[..]), top
    {
      var next := VisitTop(left, right, top, reached, stack, order, seen, parent);
      if next.Err? { return Err(ReachableTwice(next.error)); }
      top := next.value;
      reached := reached + 1;
    }
    WalkEnds(left, right, stack[..0], order[..reached], seen[..], parent[..]);
    if reached != n { return Err(Unreachable(n - reached)); }
    assert order[..reached] == order[..];
    return Ok(Walked(order[..], parent[..]));
  }

  lemma WalkEnds(left: seq<int>, right: seq<int>, stack: seq<nat>, order: seq<nat>, seen: seq<bool>, parent: seq<int>)
    requires Tables(left, right) && |seen| == |left| == |parent| && stack == []
    ensures Walk(left, right, stack, order, seen, parent) == Ok(Walked(order, parent))
  {
  }
}
