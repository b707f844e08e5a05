/** Binary trees over numbered nodes: preorder, the subtree standing at each place of it, and depths. */
module PlaneTrees {
  import opened Sequences

  datatype Tree = Leaf(id: nat) | Inner(id: nat, left: Tree, right: Tree)

  /** The node ids, a node before its children and the left child's before the right's. */
  function Preorder(t: Tree): (r: seq<nat>)
    ensures |r| > 0 && r[0] == t.id
  {
    match t
    case Leaf(id) => [id]
    case Inner(id, left, right) => [id] + (Preorder(left) + Preorder(right))
  }

  function Size(t: Tree): (r: nat)
    ensures r == |Preorder(t)|
  {
    match t
    case Leaf(_) => 1
    case Inner(_, left, right) => 1 + Size(left) + Size(right)
  }

  /** The leaves, left to right. */
  function LeafIds(t: Tree): (r: seq<nat>)
    ensures |r| > 0
  {
    match t
    case Leaf(id) => [id]
    case Inner(_, left, right) => LeafIds(left) + LeafIds(right)
  }

  function Height(t: Tree): nat {
    match t
    case Leaf(_) => 0
    case Inner(_, left, right) => 1 + if Height(left) < Height(right) then Height(right) else Height(left)
  }

  /** The subtree whose top is the `k`-th node in preorder. */
  function SubtreeAt(t: Tree, k: nat): Tree
    requires k < Size(t)
  {
    if k == 0 then t
    else if k - 1 < Size(t.left) then SubtreeAt(t.left, k - 1)
    else SubtreeAt(t.right, k - 1 - Size(t.left))
  }

  function DepthAt(t: Tree, k: nat): nat
    requires k < Size(t)
  {
    if k == 0 then 0
    else if k - 1 < Size(t.left) then 1 + DepthAt(t.left, k - 1)
    else 1 + DepthAt(t.right, k - 1 - Size(t.left))
  }

  /** `part` stands in `whole` from place `k` on. */
  ghost predicate StandsAt(whole: seq<nat>, k: nat, part: seq<nat>) {
    k + |part| <= |whole| && whole[k..k + |part|] == part
  }

  lemma StandsInLeft(id: nat, a: seq<nat>, b: seq<nat>, k: nat, part: seq<nat>)
    requires StandsAt(a, k, part)
    ensures StandsAt([id] + (a + b), k + 1, part)
  {
    assert ([id] + (a + b))[k + 1..k + 1 + |part|] == a[k..k + |part|];
  }

  lemma StandsInRight(id: nat, a: seq<nat>, b: seq<nat>, k: nat, part: seq<nat>)
    requires StandsAt(b, k, part)
    ensures StandsAt([id] + (a + b), k + 1 + |a|, part)
  {
    assert ([id] + (a + b))[k + 1 + |a|..k + 1 + |a| + |part|] == b[k..k + |part|];
  }

  /** A subtree fills a stretch of the preorder that starts at its top. */
  lemma {:induction false} StretchAt(t: Tree, k: nat)
    requires k < Size(t)
    ensures StandsAt(Preorder(t), k, Preorder(SubtreeAt(t, k)))
  {
    hide StandsAt;
    if k == 0 {
      WholeStands(Preorder(t));
    } else if k - 1 < Size(t.left) {
      StretchAt(t.left, k - 1);
      StandsInLeft(t.id, Preorder(t.left), Preorder(t.right), k - 1, Preorder(SubtreeAt(t.left, k - 1)));
    } else {
      var j := k - 1 - Size(t.left);
      StretchAt(t.right, j);
      StandsInRight(t.id, Preorder(t.left), Preorder(t.right), j, Preorder(SubtreeAt(t.right, j)));
    }
  }

  lemma WholeStands(s: seq<nat>)
    ensures StandsAt(s, 0, s)
  {
  }

  lemma TopAt(t: Tree, k: nat)
    requires k < Size(t)
    ensures Preorder(t)[k] == SubtreeAt(t, k).id && k + Size(SubtreeAt(t, k)) <= Size(t)
  {
    hide SubtreeAt, Preorder;
    StretchAt(t, k);
    var n := Size(SubtreeAt(t, k));
    assert Preorder(t)[k..k + n][0] == Preorder(t)[k];
  }

  /** `left` and `right` are the children of the node at place `k`, and stand where they should. */
  ghost predicate ChildrenStand(t: Tree, k: nat, left: Tree, right: Tree) {
    && k + 1 + Size(left) < Size(t)
    && SubtreeAt(t, k + 1) == left && SubtreeAt(t, k + 1 + Size(left)) == right
    && DepthAt(t, k + 1) == DepthAt(t, k) + 1 && DepthAt(t, k + 1 + Size(left)) == DepthAt(t, k) + 1
  }

  lemma SizePositive(t: Tree)
    ensures Size(t) > 0
  {
  }

  lemma ChildrenOfTop(t: Tree)
    requires t.Inner?
    ensures ChildrenStand(t, 0, t.left, t.right)
  {
    SizePositive(t.left);
    SizePositive(t.right);
    assert SubtreeAt(t, 1) == SubtreeAt(t.left, 0) && SubtreeAt(t, 1 + Size(t.left)) == SubtreeAt(t.right, 0);
    assert DepthAt(t, 1) == 1 + DepthAt(t.left, 0) && DepthAt(t, 1 + Size(t.left)) == 1 + DepthAt(t.right, 0);
  }

  lemma ChildrenInLeft(t: Tree, k: nat, left: Tree, right: Tree)
    requires t.Inner? && k < Size(t.left) && ChildrenStand(t.left, k, left, right)
    ensures ChildrenStand(t, k + 1, left, right)
  {
    hide Preorder;
  }

  lemma ChildrenInRight(t: Tree, k: nat, left: Tree, right: Tree)
    requires t.Inner? && k < Size(t.right) && ChildrenStand(t.right, k, left, right)
    ensures ChildrenStand(t, k + 1 + Size(t.left), left, right)
  {
    hide Preorder;
  }

  /** Where the two children of an inner node stand in the preorder. */
  lemma {:induction false} ChildrenAt(t: Tree, k: nat)
    requires k < Size(t) && SubtreeAt(t, k).Inner?
    ensures ChildrenStand(t, k, SubtreeAt(t, k).left, SubtreeAt(t, k).right)
  {
    hide ChildrenStand, Preorder;
    if k == 0 {
      ChildrenOfTop(t);
    } else if k - 1 < Size(t.left) {
      ChildrenAt(t.left, k - 1);
      ChildrenInLeft(t, k - 1, SubtreeAt(t, k).left, SubtreeAt(t, k).right);
    } else {
      ChildrenAt(t.right, k - 1 - Size(t.left));
      ChildrenInRight(t, k - 1 - Size(t.left), SubtreeAt(t, k).left, SubtreeAt(t, k).right);
    }
  }

  /** The places of the left subtree follow the top's, the right subtree's come after those. */
  lemma LeftAt(t: Tree, k: nat)
    requires t.Inner? && k < Size(t.left)
    ensures k + 1 < Size(t) && SubtreeAt(t, k + 1) == SubtreeAt(t.left, k)
              && DepthAt(t, k + 1) == 1 + DepthAt(t.left, k)
  {
  }

  lemma RightAt(t: Tree, k: nat)
    requires t.Inner? && k < Size(t.right)
    ensures k + 1 + Size(t.left) < Size(t) && SubtreeAt(t, k + 1 + Size(t.left)) == SubtreeAt(t.right, k)
    ensures DepthAt(t, k + 1 + Size(t.left)) == 1 + DepthAt(t.right, k)
  {
  }

  lemma TopIsWhole(t: Tree)
    ensures Size(t) > 0 && SubtreeAt(t, 0) == t && DepthAt(t, 0) == 0
  {
  }

  lemma SizeSplit(t: Tree)
    ensures if t.Inner? then Size(t) == 1 + Size(t.left) + Size(t.right) else Size(t) == 1
  {
  }

  /** The `k`-th node is a child of the `p`-th. */
  ghost predicate ChildOf(t: Tree, p: nat, k: nat) {
    && p < k < Size(t) && SubtreeAt(t, p).Inner? && (k == p + 1 || k == p + 1 + Size(SubtreeAt(t, p).left))
    && DepthAt(t, k) == DepthAt(t, p) + 1
  }

  lemma ChildInLeft(t: Tree, p: nat, k: nat)
    requires t.Inner? && ChildOf(t.left, p, k)
    ensures ChildOf(t, p + 1, k + 1)
  {
    hide Size, SubtreeAt, DepthAt;
    SizeSplit(t);
    LeftAt(t, p);
    LeftAt(t, k);
  }

  lemma ChildInRight(t: Tree, p: nat, k: nat)
    requires t.Inner? && ChildOf(t.right, p, k)
    ensures ChildOf(t, p + 1 + Size(t.left), k + 1 + Size(t.left))
  {
    hide Size, SubtreeAt, DepthAt;
    SizeSplit(t);
    RightAt(t, p);
    RightAt(t, k);
  }

  lemma ChildOfTop(t: Tree)
    requires t.Inner?
    ensures ChildOf(t, 0, 1) && ChildOf(t, 0, 1 + Size(t.left))
  {
    hide Size, SubtreeAt, DepthAt;
    SizeSplit(t);
    TopIsWhole(t);
    TopIsWhole(t.left);
    TopIsWhole(t.right);
    LeftAt(t, 0);
    RightAt(t, 0);
  }

  /** Every node but the top is the child of an earlier one. */
  lemma {:induction false} ParentAt(t: Tree, k: nat) returns (p: nat)
    requires 0 < k < Size(t)
    ensures ChildOf(t, p, k)
  {
    hide Size, SubtreeAt, DepthAt, ChildOf;
    SizeSplit(t);
    if k == 1 || k == 1 + Size(t.left) {
      p := 0;
      ChildOfTop(t);
    } else if k - 1 < Size(t.left) {
      var q := ParentAt(t.left, k - 1);
      p := q + 1;
      ChildInLeft(t, q, k - 1);
    } else {
      var q := ParentAt(t.right, k - 1 - Size(t.left));
      p := q + 1 + Size(t.left);
      ChildInRight(t, q, k - 1 - Size(t.left));
    }
  }

  /** The height is the depth of a deepest node. */
  lemma {:induction false} HeightReached(t: Tree) returns (k: nat)
    ensures k < Size(t) && DepthAt(t, k) == Height(t)
  {
    match t
    case Leaf(_) => k := 0;
    case Inner(_, left, right) =>
      if Height(left) < Height(right) {
        var j := HeightReached(right);
        k := j + 1 + Size(left);
      } else {
        var j := HeightReached(left);
        k := j + 1;
      }
  }

  lemma {:induction false} DepthBelowHeight(t: Tree, k: nat)
    requires k < Size(t)
    ensures DepthAt(t, k) <= Height(t)
  {
    if k > 0 {
      if k - 1 < Size(t.left) {
        DepthBelowHeight(t.left, k - 1);
      } else {
        DepthBelowHeight(t.right, k - 1 - Size(t.left));
      }
    }
  }

  ghost predicate DepthIs(t: Tree, k: nat, d: nat) { k < Size(t) && DepthAt(t, k) == d }

  ghost predicate NotDeeper(t: Tree, k: nat, d: nat) { k < Size(t) ==> DepthAt(t, k) <= d }

  /** `d` is the greatest depth of the first `k` nodes. */
  ghost predicate DeepestOf(t: Tree, k: nat, d: nat) {
    && (forall i: nat :: i < k ==> NotDeeper(t, i, d))
    && (d == 0 || exists i: nat :: i < k && DepthIs(t, i, d))
  }

  lemma DeepestNone(t: Tree)
    ensures DeepestOf(t, 0, 0)
  {
  }

  lemma DeepestNext(t: Tree, k: nat, d: nat)
    requires DeepestOf(t, k, d) && k < Size(t)
    ensures DeepestOf(t, k + 1, if DepthAt(t, k) > d then DepthAt(t, k) else d)
  {
    hide DepthAt, Size;
    var next := if DepthAt(t, k) > d then DepthAt(t, k) else d;
    assert DepthIs(t, k, DepthAt(t, k));
    forall i: nat | i < k + 1 ensures NotDeeper(t, i, next) {
      if i < k { assert NotDeeper(t, i, d); }
    }
  }

  lemma HeightIs(t: Tree, h: nat)
    requires DeepestOf(t, Size(t), h)
    ensures h == Height(t)
  {
    hide DepthAt, Height;
    var top := HeightReached(t);
    assert NotDeeper(t, top, h);
    if h > 0 {
      var k: nat :| k < Size(t) && DepthIs(t, k, h);
      DepthBelowHeight(t, k);
    }
  }

  /** In a sequence without repeats, a place holds an element of a stretch exactly when it is in it. */
  lemma InStretch(order: seq<nat>, k: nat, part: seq<nat>, j: nat)
    requires StandsAt(order, k, part) && j < |order| && Distinct(order)
    ensures order[j] in part <==> k <= j < k + |part|
  {
    if k <= j < k + |part| {
      assert order[k..k + |part|][j - k] == order[j];
    }
    if order[j] in part {
      var i :| 0 <= i < |part| && part[i] == order[j];
      assert order[k..k + |part|][i] == order[k + i];
    }
  }

  /** A node lies below the `k`-th one, or is it, exactly when it stands in that one's stretch. */
  lemma UnderIsStretch(t: Tree, k: nat, j: nat)
    requires k < Size(t) && j < Size(t) && Distinct(Preorder(t))
    ensures Preorder(t)[j] in Preorder(SubtreeAt(t, k)) <==> k <= j < k + Size(SubtreeAt(t, k))
  {
    hide Preorder, SubtreeAt;
    StretchAt(t, k);
    InStretch(Preorder(t), k, Preorder(SubtreeAt(t, k)), j);
  }

  // ---- a tree told by child tables ----

  /** The tree the tables describe below its top: a negative left child marks a leaf. */
  ghost predicate Matches(t: Tree, left: seq<int>, right: seq<int>)
    requires |left| == |right|
  {
    && t.id < |left|
    && (t.Leaf? <==> left[t.id] < 0)
    && (t.Inner? ==> left[t.id] == t.left.id && right[t.id] == t.right.id
                     && Matches(t.left, left, right) && Matches(t.right, left, right))
  }

  ghost predicate IdsBelow(t: Tree, n: nat) {
    t.id < n && (t.Inner? ==> IdsBelow(t.left, n) && IdsBelow(t.right, n))
  }

  lemma {:induction false} MatchedIds(t: Tree, left: seq<int>, right: seq<int>)
    requires |left| == |right| && Matches(t, left, right)
    ensures IdsBelow(t, |left|)
  {
    if t.Inner? {
      MatchedIds(t.left, left, right);
      MatchedIds(t.right, left, right);
    }
  }

  lemma {:induction false} MatchesAt(t: Tree, left: seq<int>, right: seq<int>, k: nat)
    requires |left| == |right| && Matches(t, left, right) && k < Size(t)
    ensures Matches(SubtreeAt(t, k), left, right)
  {
    if k > 0 {
      if k - 1 < Size(t.left) {
        MatchesAt(t.left, left, right, k - 1);
      } else {
        MatchesAt(t.right, left, right, k - 1 - Size(t.left));
      }
    }
  }

  /** The tables describe at most one tree below a node. */
  lemma {:induction false} MatchesUnique(s: Tree, t: Tree, left: seq<int>, right: seq<int>)
    requires |left| == |right| && Matches(s, left, right) && Matches(t, left, right) && s.id == t.id
    ensures s == t
  {
    if s.Inner? {
      MatchesUnique(s.left, t.left, left, right);
      MatchesUnique(s.right, t.right, left, right);
    }
  }

  /** Each child's parent entry names the node above it. */
  ghost predicate ParentsIn(t: Tree, parent: seq<int>) {
    t.Inner? ==>
      && t.left.id < |parent| && parent[t.left.id] == t.id && ParentsIn(t.left, parent)
      && t.right.id < |parent| && parent[t.right.id] == t.id && ParentsIn(t.right, parent)
  }

  lemma {:induction false} ParentsAt(t: Tree, parent: seq<int>, k: nat)
    requires k < Size(t) && ParentsIn(t, parent)
    ensures ParentsIn(SubtreeAt(t, k), parent)
  {
    if k > 0 {
      if k - 1 < Size(t.left) {
        ParentsAt(t.left, parent, k - 1);
      } else {
        ParentsAt(t.right, parent, k - 1 - Size(t.left));
      }
    }
  }

  /** The preorders of several trees one after the other. */
  function PreorderAll(ts: seq<Tree>): seq<nat> {
    if ts == [] then [] else Preorder(ts[0]) + PreorderAll(ts[1..])
  }

  lemma PreorderOfOne(t: Tree)
    ensures PreorderAll([t]) == Preorder(t)
  {
    assert [t][1..] == [];
  }

  /** An inner tree's nodes: its top, then its two children's. */
  lemma PreorderAllOpened(t: Tree, rest: seq<Tree>)
    requires t.Inner?
    ensures PreorderAll([t] + rest) == [t.id] + PreorderAll([t.left, t.right] + rest)
  {
    var after := [t.left, t.right] + rest;
    assert ([t] + rest)[1..] == rest && after[1..] == [t.right] + rest && after[1..][1..] == rest;
  }

  lemma PreorderAllLeaf(t: Tree, rest: seq<Tree>)
    requires t.Leaf?
    ensures PreorderAll([t] + rest) == [t.id] + PreorderAll(rest)
  {
    assert ([t] + rest)[1..] == rest;
  }

  function Numbers(n: nat): (r: seq<nat>)
    ensures |r| == n && forall i :: 0 <= i < n ==> r[i] == i
  {
    seq(n, (i: nat) => i)
  }

  /** Ids below `n` without repeats are all of them exactly when there are `n`. */
  lemma FullWhenDistinct(s: seq<nat>, n: nat)
    requires Distinct(s) && forall i :: i in s ==> i < n
    ensures |s| <= n
    ensures |s| == n ==> forall i: nat :: i < n ==> i in s
  {
    var all := Numbers(n);
    DistinctCardinality(s);
    DistinctCardinality(all);
    forall i | i in ToSet(s) ensures i in ToSet(all) { assert all[i] == i; }
    Subset(ToSet(s), ToSet(all));
    if |s| == n {
      forall i: nat | i < n ensures i in s {
        assert all[i] == i;
        assert i in ToSet(s);
      }
    }
  }

  lemma Subset(a: set<nat>, b: set<nat>)
    requires a <= b
    ensures |a| <= |b| && (|a| == |b| ==> a == b)
  {
    assert b == a + (b - a);
  }
}
