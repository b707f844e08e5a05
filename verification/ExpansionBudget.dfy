/** How far expanding below a node makes the drawing grow, and exactly when that stays within the budget. */
module ExpansionBudget {
  import opened Sequences
  import opened PlaneTrees
  import opened BreadthFirst
  import opened Expansion

  // ---- how far the drawing grows ----

  /** The drawing grows by what is reported and by every node that was hidden and no longer is. */
  lemma GrowthOfDrawing(t: Tree, before: Mask, after: Mask, budget: nat, added: nat, stopped: bool)
    requires IdsBelow(t, |before|) && |after| == |before| && Grew(t, before, after, budget, added, stopped)
    ensures Size(Prune(t, after)) == Size(Prune(t, before)) + added + 2 * (Hidden(t, before) - Hidden(t, after))
    ensures Hidden(t, before) == 0 ==> Size(Prune(t, after)) == Size(Prune(t, before)) + added
    ensures !stopped ==> Size(Prune(t, after)) == Size(t)
  {
    DrawnSize(t, before);
    DrawnSize(t, after);
    MarkedAtMost(t, after);
    SizeOfInner(t);
    if !stopped { AllMarkedHideNone(t, after); }
  }

  /** A collapsed node with an expanded child: marking it uncovers a node that is not counted. */
  ghost predicate Uncovers(s: Tree, before: Mask) {
    s.Inner? && (IsExpanded(s.left, before) || IsExpanded(s.right, before))
  }

  ghost predicate IsExpanded(s: Tree, expanded: Mask) {
    s.Inner? && s.id < |expanded| && expanded[s.id]
  }

  ghost predicate NewlyMarked(s: Tree, before: Mask, after: Mask) {
    s.Inner? && s.id < |before| && s.id < |after| && after[s.id] && !before[s.id]
  }

  /** No newly marked node of the tree uncovers an expanded one. */
  ghost predicate Quiet(t: Tree, before: Mask, after: Mask) {
    forall s :: Within(s, t) && NewlyMarked(s, before, after) ==> !Uncovers(s, before)
  }

  lemma {:induction false} NothingNewHides(t: Tree, before: Mask, after: Mask)
    requires IdsBelow(t, |before|) && |after| == |before| && NothingNew(t, before, after)
    ensures Marked(t, after) == Marked(t, before) && Hidden(t, after) == Hidden(t, before)
    ensures forall s :: Within(s, t) ==> !NewlyMarked(s, before, after)
  {
    if t.Inner? {
      NothingNewHides(t.left, before, after);
      NothingNewHides(t.right, before, after);
    }
  }

  /** All marks are hidden below a collapsed top or a leaf, and not all below an expanded one. */
  lemma AllHidden(t: Tree, before: Mask)
    requires IdsBelow(t, |before|)
    ensures Hidden(t, before) <= Marked(t, before)
    ensures Hidden(t, before) == Marked(t, before) <==> !IsExpanded(t, before)
  {
    MarkedAtMost(t, before);
    if t.Inner? {
      MarkedAtMost(t.left, before);
      MarkedAtMost(t.right, before);
    }
  }

  lemma QuietParts(t: Tree, before: Mask, after: Mask)
    requires t.Inner?
    ensures Quiet(t, before, after) <==>
              (NewlyMarked(t, before, after) ==> !Uncovers(t, before)) && Quiet(t.left, before, after)
                  && Quiet(t.right, before, after)
  {
    hide NewlyMarked, Uncovers;
    if Quiet(t, before, after) {
      assert Within(t, t);
      forall s | Within(s, t.left) && NewlyMarked(s, before, after) ensures !Uncovers(s, before) {
        assert Within(s, t);
      }
      forall s | Within(s, t.right) && NewlyMarked(s, before, after) ensures !Uncovers(s, before) {
        assert Within(s, t);
      }
    }
  }

  /** As much is hidden as before exactly when no new mark uncovers anything. */
  lemma {:induction false} HiddenUnlessUncovered(t: Tree, before: Mask, after: Mask)
    requires IdsBelow(t, |before|) && |after| == |before| && Opened(t, before, after)
    ensures Hidden(t, after) <= Hidden(t, before)
    ensures Hidden(t, after) == Hidden(t, before) <==> Quiet(t, before, after)
  {
    if t.Inner? {
      QuietParts(t, before, after);
      AllHidden(t.left, before);
      AllHidden(t.right, before);
      if after[t.id] {
        HiddenUnlessUncovered(t.left, before, after);
        HiddenUnlessUncovered(t.right, before, after);
      } else {
        NothingNewHides(t.left, before, after);
        NothingNewHides(t.right, before, after);
      }
    }
  }

  // ---- the condition before the call ----

  lemma {:induction false} AmongMembers(order: seq<Tree>, expanded: Mask)
    ensures forall s :: s in CollapsedAmong(order, expanded) <==> s in order && IsCollapsed(s, expanded)
  {
    if order != [] {
      AmongMembers(order[1..], expanded);
      assert order == [order[0]] + order[1..];
    }
  }

  ghost predicate WithinAny(s: Tree, ts: seq<Tree>) { exists k :: 0 <= k < |ts| && Within(s, ts[k]) }

  lemma {:induction false} NextLevelWithin(s: Tree, ts: seq<Tree>)
    ensures WithinAny(s, ts) <==> s in ts || WithinAny(s, NextLevel(ts))
  {
    if ts != [] {
      var kids, below := Kids(ts[0]), NextLevel(ts[1..]);
      NextLevelWithin(s, ts[1..]);
      WithinConcat(s, [ts[0]], ts[1..]);
      WithinConcat(s, kids, below);
      WithinOne(s, ts[0]);
      assert ts == [ts[0]] + ts[1..];
      if ts[0].Inner? {
        WithinOne(s, ts[0].left);
        WithinOne(s, ts[0].right);
        WithinConcat(s, [ts[0].left], [ts[0].right]);
        assert kids == [ts[0].left] + [ts[0].right];
      }
    }
  }

  lemma WithinOne(s: Tree, t: Tree)
    ensures WithinAny(s, [t]) <==> Within(s, t)
  {
    if Within(s, t) { assert Within(s, [t][0]); }
  }

  lemma WithinConcat(s: Tree, a: seq<Tree>, b: seq<Tree>)
    ensures WithinAny(s, a + b) <==> WithinAny(s, a) || WithinAny(s, b)
  {
    if WithinAny(s, a) {
      var k :| 0 <= k < |a| && Within(s, a[k]);
      assert Within(s, (a + b)[k]);
    }
    if WithinAny(s, b) {
      var k :| 0 <= k < |b| && Within(s, b[k]);
      assert Within(s, (a + b)[|a| + k]);
    }
  }

  /** The level order lists every subtree. */
  lemma {:induction false} LevelOrderMembers(s: Tree, ts: seq<Tree>)
    ensures s in LevelOrder(ts) <==> WithinAny(s, ts)
    decreases TotalSize(ts)
  {
    hide WithinAny;
    if ts == [] {
      WithinNone(s);
    } else {
      NextLevelSmaller(ts);
      NextLevelWithin(s, ts);
      LevelOrderMembers(s, NextLevel(ts));
    }
  }

  lemma WithinNone(s: Tree)
    ensures !WithinAny(s, [])
  {
  }

  /** Two subtrees with the same top node are the same. */
  lemma {:induction false} SameTop(a: Tree, b: Tree, t: Tree)
    requires Distinct(Preorder(t)) && Within(a, t) && Within(b, t) && a.id == b.id
    ensures a == b
  {
    if t.Inner? {
      SplitDistinct(t);
      if a != t { if Within(a, t.left) { WithinListed(a, t.left); } else { WithinListed(a, t.right); } }
      if b != t { if Within(b, t.left) { WithinListed(b, t.left); } else { WithinListed(b, t.right); } }
      if Within(a, t.left) && Within(b, t.left) {
        SameTop(a, b, t.left);
      } else if Within(a, t.right) && Within(b, t.right) {
        SameTop(a, b, t.right);
      }
    }
  }

  /** None of the first collapsed nodes the budget pays for has an expanded child. */
  ghost predicate NoneUncovers(t: Tree, before: Mask, k: nat) {
    forall s :: s in FirstCollapsed(t, before, k) ==> !Uncovers(s, before)
  }

  lemma FirstCollapsedMembers(t: Tree, before: Mask, k: nat, s: Tree)
    requires s in FirstCollapsed(t, before, k)
    ensures Within(s, t) && IsCollapsed(s, before)
  {
    hide LevelOrder, CollapsedAmong;
    AmongMembers(LevelOrder([t]), before);
    LevelOrderMembers(s, [t]);
    WithinOne(s, t);
    var all := CollapsedAmong(LevelOrder([t]), before);
    assert s in all;
  }

  /** The newly marked nodes are the first collapsed ones, so quietness can be read off before the call. */
  lemma QuietBeforehand(t: Tree, before: Mask, after: Mask, k: nat)
    requires IdsBelow(t, |before|) && Distinct(Preorder(t)) && MarksAre(before, after, FirstCollapsed(t, before, k))
    ensures Quiet(t, before, after) <==> NoneUncovers(t, before, k)
  {
    hide FirstCollapsed, Uncovers, Preorder;
    var first := FirstCollapsed(t, before, k);
    if Quiet(t, before, after) {
      forall s | s in first ensures !Uncovers(s, before) {
        FirstCollapsedMembers(t, before, k, s);
        var j :| 0 <= j < |first| && first[j] == s;
        assert NewlyMarked(s, before, after);
      }
    }
    if NoneUncovers(t, before, k) {
      forall s | Within(s, t) && NewlyMarked(s, before, after) ensures !Uncovers(s, before) {
        var j :| 0 <= j < |first| && first[j].id == s.id;
        FirstCollapsedMembers(t, before, k, first[j]);
        SameTop(s, first[j], t);
      }
    }
  }

  lemma BudgetCovers(t: Tree, before: Mask, after: Mask, budget: nat, added: nat, stopped: bool)
    requires IdsBelow(t, |before|) && |after| == |before| && Grew(t, before, after, budget, added, stopped)
    ensures Marked(t, before) <= InnerCount(t)
    ensures budget >= 2 * (InnerCount(t) - Marked(t, before)) ==>
              !stopped && added == 2 * (InnerCount(t) - Marked(t, before)) && Hidden(t, after) == 0
    ensures budget < 2 * (InnerCount(t) - Marked(t, before)) ==> stopped && budget <= added + 1
  {
    MarkedAtMost(t, before);
    MarkedAtMost(t, after);
    if !stopped { AllMarkedHideNone(t, after); }
  }

  /** For every budget: the drawing grows within it exactly when a condition holds that can be read before the call.
      A budget for every collapsed node must also pay for the hidden nodes; a smaller one is kept to exactly when
      none of the nodes it pays for, level by level, has an expanded child. */
  lemma WithinBudgetExactly(t: Tree, before: Mask, after: Mask, budget: nat, added: nat, stopped: bool)
    requires IdsBelow(t, |before|) && |after| == |before| && Distinct(Preorder(t))
              && Grew(t, before, after, budget, added, stopped)
    ensures Marked(t, before) <= InnerCount(t)
    ensures budget >= 2 * (InnerCount(t) - Marked(t, before)) ==>
              (Size(Prune(t, after)) <= Size(Prune(t, before)) + budget
               <==> 2 * (InnerCount(t) - Marked(t, before)) + 2 * Hidden(t, before) <= budget)
    ensures budget < 2 * (InnerCount(t) - Marked(t, before)) ==>
              (Size(Prune(t, after)) <= Size(Prune(t, before)) + budget <==> NoneUncovers(t, before, budget / 2))
  {
    hide Opened, MarksAre, FirstCollapsed, NoneUncovers, Quiet, Prune, Size, Preorder;
    BudgetCovers(t, before, after, budget, added, stopped);
    GrowthOfDrawing(t, before, after, budget, added, stopped);
    HiddenUnlessUncovered(t, before, after);
    QuietBeforehand(t, before, after, budget / 2);
  }

  lemma OvershootCounts(t: Tree, before: Mask)
    requires t == Inner(0, Inner(1, Leaf(2), Leaf(3)), Leaf(4)) && before == [false, true, false, false, false]
    ensures IdsBelow(t, |before|) && InnerCount(t) == 2 && Marked(t, before) == 1 && Hidden(t, before) == 1
  {
    var low := Inner(1, Leaf(2), Leaf(3));
    assert t.left == low && t.right == Leaf(4);
    assert IdsBelow(low.left, |before|) && IdsBelow(low.right, |before|) && IdsBelow(t.left, |before|);
    assert InnerCount(t.left) == 1 && Marked(t.left, before) == 1;
  }

  /** A node expanded below a collapsed one: a budget of two nodes draws four. */
  lemma OvershootExample(after: Mask, added: nat, stopped: bool)
    requires |after| == 5
    requires Grew(Inner(0, Inner(1, Leaf(2), Leaf(3)), Leaf(4)), [false, true, false, false, false], after, 2, added,
                  stopped)
    ensures added == 2
    ensures Size(Prune(Inner(0, Inner(1, Leaf(2), Leaf(3)), Leaf(4)), after))
         == Size(Prune(Inner(0, Inner(1, Leaf(2), Leaf(3)), Leaf(4)), [false, true, false, false, false])) + 4
  {
    var t, before := Inner(0, Inner(1, Leaf(2), Leaf(3)), Leaf(4)), [false, true, false, false, false];
    OvershootCounts(t, before);
    hide Marked, Hidden, InnerCount, Prune, MarksAre, Opened, FirstCollapsed, Preorder, Size;
    GrowthOfDrawing(t, before, after, 2, added, stopped);
    MarkedAtMost(t, after);
    AllMarkedHideNone(t, after);
  }
}
