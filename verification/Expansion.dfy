/** Which nodes of a drawn tree are expanded: the tree that is drawn, and how far expanding makes it grow. */
module Expansion {
  import opened Sequences
  import opened PlaneTrees
  import opened BreadthFirst

  type Mask = seq<bool>

  /** The drawn tree: a collapsed subtree is drawn as one node. */
  ghost function Prune(t: Tree, expanded: Mask): Tree
    requires IdsBelow(t, |expanded|)
  {
    if t.Leaf? || !expanded[t.id] then Leaf(t.id)
    else Inner(t.id, Prune(t.left, expanded), Prune(t.right, expanded))
  }

  /** How many inner nodes are marked expanded, drawn or not. */
  ghost function Marked(t: Tree, expanded: Mask): nat
    requires IdsBelow(t, |expanded|)
  {
    if t.Leaf? then 0
    else (if expanded[t.id] then 1 else 0) + Marked(t.left, expanded) + Marked(t.right, expanded)
  }

  /** How many marked nodes stand below a collapsed one, so are not drawn. */
  ghost function Hidden(t: Tree, expanded: Mask): nat
    requires IdsBelow(t, |expanded|)
  {
    if t.Leaf? then 0
    else if expanded[t.id] then Hidden(t.left, expanded) + Hidden(t.right, expanded)
    else Marked(t.left, expanded) + Marked(t.right, expanded)
  }

  ghost function InnerCount(t: Tree): nat { if t.Leaf? then 0 else 1 + InnerCount(t.left) + InnerCount(t.right) }

  lemma {:induction false} SizeOfInner(t: Tree)
    ensures Size(t) == 1 + 2 * InnerCount(t)
  {
    if t.Inner? {
      SizeOfInner(t.left);
      SizeOfInner(t.right);
    }
  }

  /** Each marked node that is not hidden adds its two children to the drawing. */
  lemma {:induction false} DrawnSize(t: Tree, expanded: Mask)
    requires IdsBelow(t, |expanded|)
    ensures Size(Prune(t, expanded)) + 2 * Hidden(t, expanded) == 1 + 2 * Marked(t, expanded)
  {
    if t.Inner? && expanded[t.id] {
      DrawnSize(t.left, expanded);
      DrawnSize(t.right, expanded);
    }
  }

  lemma {:induction false} MarkedAtMost(t: Tree, expanded: Mask)
    requires IdsBelow(t, |expanded|)
    ensures Hidden(t, expanded) <= Marked(t, expanded) <= InnerCount(t)
  {
    if t.Inner? {
      MarkedAtMost(t.left, expanded);
      MarkedAtMost(t.right, expanded);
    }
  }

  // ---- subtrees ----

  ghost predicate Within(s: Tree, t: Tree) {
    s == t || (t.Inner? && (Within(s, t.left) || Within(s, t.right)))
  }

  /** `s` is drawn: every node above it is expanded. */
  ghost predicate DrawnIn(s: Tree, t: Tree, expanded: Mask)
    requires IdsBelow(t, |expanded|)
  {
    s == t || (t.Inner? && expanded[t.id] && (DrawnIn(s, t.left, expanded) || DrawnIn(s, t.right, expanded)))
  }

  lemma {:induction false} DrawnWithin(s: Tree, t: Tree, expanded: Mask)
    requires IdsBelow(t, |expanded|) && DrawnIn(s, t, expanded)
    ensures Within(s, t) && IdsBelow(s, |expanded|)
  {
    if s != t {
      if DrawnIn(s, t.left, expanded) { DrawnWithin(s, t.left, expanded); } else { DrawnWithin(s, t.right, expanded); }
    }
  }

  lemma {:induction false} WithinListed(s: Tree, t: Tree)
    requires Within(s, t)
    ensures s.id in Preorder(t)
  {
    if s == t {
      assert Preorder(t)[0] == t.id;
    } else if Within(s, t.left) {
      WithinListed(s, t.left);
    } else {
      WithinListed(s, t.right);
    }
  }

  lemma {:induction false} WithinChildren(s: Tree, t: Tree)
    requires Within(s, t) && s.Inner?
    ensures Within(s.left, t) && Within(s.right, t)
  {
    if s != t {
      if Within(s, t.left) { WithinChildren(s, t.left); } else { WithinChildren(s, t.right); }
    }
  }

  lemma {:induction false} DrawnChildren(s: Tree, t: Tree, expanded: Mask)
    requires IdsBelow(t, |expanded|) && DrawnIn(s, t, expanded) && s.Inner? && s.id < |expanded| && expanded[s.id]
    ensures DrawnIn(s.left, t, expanded) && DrawnIn(s.right, t, expanded)
  {
    if s != t {
      if DrawnIn(s, t.left, expanded) {
        DrawnChildren(s, t.left, expanded);
      } else {
        DrawnChildren(s, t.right, expanded);
      }
    }
  }

  lemma {:induction false} DrawnStays(s: Tree, t: Tree, expanded: Mask, id: nat)
    requires IdsBelow(t, |expanded|) && DrawnIn(s, t, expanded) && id < |expanded|
    ensures DrawnIn(s, t, expanded[id := true])
  {
    if s != t {
      if DrawnIn(s, t.left, expanded) {
        DrawnStays(s, t.left, expanded, id);
      } else {
        DrawnStays(s, t.right, expanded, id);
      }
    }
  }

  lemma SplitDistinct(t: Tree)
    requires t.Inner? && Distinct(Preorder(t))
    ensures Distinct(Preorder(t.left)) && Distinct(Preorder(t.right))
    ensures t.id !in Preorder(t.left) && t.id !in Preorder(t.right)
    ensures forall i :: !(i in Preorder(t.left) && i in Preorder(t.right))
  {
    var a, b := Preorder(t.left), Preorder(t.right);
    var whole := Preorder(t);
    assert forall i :: 0 <= i < |a| ==> whole[i + 1] == a[i];
    assert forall i :: 0 <= i < |b| ==> whole[i + 1 + |a|] == b[i];
  }

  lemma {:induction false} MarkElsewhere(t: Tree, expanded: Mask, id: nat)
    requires IdsBelow(t, |expanded|) && id < |expanded| && id !in Preorder(t)
    ensures Marked(t, expanded[id := true]) == Marked(t, expanded)
    ensures Hidden(t, expanded[id := true]) == Hidden(t, expanded)
  {
    assert Preorder(t)[0] == t.id;
    if t.Inner? {
      MarkElsewhere(t.left, expanded, id);
      MarkElsewhere(t.right, expanded, id);
    }
  }

  /** Marking a collapsed inner node counts one more. */
  lemma {:induction false} MarkOne(t: Tree, expanded: Mask, s: Tree)
    requires IdsBelow(t, |expanded|) && Distinct(Preorder(t)) && Within(s, t) && s.Inner? && s.id < |expanded|
              && !expanded[s.id]
    ensures Marked(t, expanded[s.id := true]) == Marked(t, expanded) + 1
  {
    SplitDistinct(t);
    WithinListed(s, t);
    if s == t {
      MarkElsewhere(t.left, expanded, s.id);
      MarkElsewhere(t.right, expanded, s.id);
    } else if Within(s, t.left) {
      WithinListed(s, t.left);
      MarkOne(t.left, expanded, s);
      MarkElsewhere(t.right, expanded, s.id);
    } else {
      WithinListed(s, t.right);
      MarkOne(t.right, expanded, s);
      MarkElsewhere(t.left, expanded, s.id);
    }
  }

  /** Marking a drawn node hides nothing more: what it hid is told by its own children. */
  lemma {:induction false} MarkDrawn(t: Tree, expanded: Mask, s: Tree)
    requires IdsBelow(t, |expanded|) && Distinct(Preorder(t)) && DrawnIn(s, t, expanded) && s.Inner?
              && s.id < |expanded| && !expanded[s.id]
    ensures Hidden(t, expanded[s.id := true]) <= Hidden(t, expanded)
  {
    SplitDistinct(t);
    DrawnWithin(s, t, expanded);
    WithinListed(s, t);
    if s == t {
      MarkElsewhere(t.left, expanded, s.id);
      MarkElsewhere(t.right, expanded, s.id);
      MarkedAtMost(t.left, expanded);
      MarkedAtMost(t.right, expanded);
    } else if DrawnIn(s, t.left, expanded) {
      DrawnWithin(s, t.left, expanded);
      WithinListed(s, t.left);
      MarkDrawn(t.left, expanded, s);
      MarkElsewhere(t.right, expanded, s.id);
    } else {
      DrawnWithin(s, t.right, expanded);
      WithinListed(s, t.right);
      MarkDrawn(t.right, expanded, s);
      MarkElsewhere(t.left, expanded, s.id);
    }
  }

  // ---- breadth-first expansion ----

  /** The queue's nodes head these trees, each of them drawn. */
  ghost predicate Queued(queue: seq<nat>, ts: seq<Tree>, t: Tree, expanded: Mask, left: seq<int>, right: seq<int>,
                         head: nat)
    requires |left| == |right| && IdsBelow(t, |expanded|)
  {
    && |ts| == |queue| && head <= |ts| && (forall k :: 0 <= k < |ts| ==> ts[k].id == queue[k])
    && forall k :: head <= k < |ts| ==> Matches(ts[k], left, right) && DrawnIn(ts[k], t, expanded)
  }

  /** `s` is still to come: it lies in the tree of a waiting node. */
  ghost predicate Pending(s: Tree, ts: seq<Tree>, head: nat) {
    exists k :: head <= k < |ts| && Within(s, ts[k])
  }

  ghost predicate Covered(t: Tree, ts: seq<Tree>, expanded: Mask, head: nat)
    requires IdsBelow(t, |expanded|)
  {
    forall s :: Within(s, t) && s.Inner? && s.id < |expanded| && !expanded[s.id] ==> Pending(s, ts, head)
  }

  /** The head taken off, its children put at the end. */
  function Pushed(ts: seq<Tree>, head: nat): seq<Tree>
    requires head < |ts| && ts[head].Inner?
  {
    ts + [ts[head].left, ts[head].right]
  }

  lemma PushedSize(ts: seq<Tree>, head: nat)
    requires head < |ts| && ts[head].Inner?
    ensures TotalSize(Pushed(ts, head)[head + 1..]) + 1 == TotalSize(ts[head..])
  {
    TotalSizeSplit(ts, head);
    var s := ts[head];
    assert Pushed(ts, head)[head + 1..] == ts[head + 1..] + [s.left, s.right];
    TotalSizeTwo(ts[head + 1..], s.left, s.right);
  }

  lemma PendingPushed(s: Tree, ts: seq<Tree>, head: nat)
    requires head < |ts| && ts[head].Inner? && Pending(s, ts, head)
    ensures s == ts[head] || Pending(s, Pushed(ts, head), head + 1)
  {
    var ts' := Pushed(ts, head);
    var k :| head <= k < |ts| && Within(s, ts[k]);
    if k > head {
      assert Within(s, ts'[k]);
    } else if s != ts[head] {
      assert Within(s, ts'[|ts|]) || Within(s, ts'[|ts| + 1]);
    }
  }

  lemma CoveredPushed(t: Tree, ts: seq<Tree>, expanded: Mask, head: nat)
    requires IdsBelow(t, |expanded|) && Covered(t, ts, expanded, head)
    requires head < |ts| && ts[head].Inner? && ts[head].id < |expanded|
    ensures Covered(t, Pushed(ts, head), expanded[ts[head].id := true], head + 1)
  {
    var e' := expanded[ts[head].id := true];
    forall s | Within(s, t) && s.Inner? && s.id < |e'| && !e'[s.id] ensures Pending(s, Pushed(ts, head), head + 1) {
      PendingPushed(s, ts, head);
    }
  }

  lemma CoveredLeaf(t: Tree, ts: seq<Tree>, expanded: Mask, head: nat)
    requires IdsBelow(t, |expanded|) && Covered(t, ts, expanded, head) && head < |ts| && ts[head].Leaf?
    ensures Covered(t, ts, expanded, head + 1)
  {
    forall s | Within(s, t) && s.Inner? && s.id < |expanded| && !expanded[s.id] ensures Pending(s, ts, head + 1) {
      var k :| head <= k < |ts| && Within(s, ts[k]);
    }
  }

  lemma QueuedPushed(queue: seq<nat>, ts: seq<Tree>, t: Tree, expanded: Mask, left: seq<int>, right: seq<int>,
                     head: nat)
    requires |left| == |right| && IdsBelow(t, |expanded|) && Queued(queue, ts, t, expanded, left, right, head)
    requires head < |ts| && ts[head].Inner? && ts[head].id < |expanded|
    ensures left[ts[head].id] == ts[head].left.id && right[ts[head].id] == ts[head].right.id
    ensures Queued(queue + [ts[head].left.id, ts[head].right.id], Pushed(ts, head), t, expanded[ts[head].id := true],
                   left, right, head + 1)
  {
    var s, e' := ts[head], expanded[ts[head].id := true];
    DrawnStays(s, t, expanded, s.id);
    DrawnChildren(s, t, e');
    forall k | head < k < |ts| ensures DrawnIn(ts[k], t, e') { DrawnStays(ts[k], t, expanded, s.id); }
  }

  lemma {:induction false} AllMarked(t: Tree, expanded: Mask)
    requires IdsBelow(t, |expanded|)
    ensures Marked(t, expanded) == InnerCount(t)
           <==> forall s :: Within(s, t) && s.Inner? && s.id < |expanded| ==> expanded[s.id]
  {
    MarkedAtMost(t, expanded);
    if t.Inner? {
      AllMarked(t.left, expanded);
      AllMarked(t.right, expanded);
      MarkedAtMost(t.left, expanded);
      MarkedAtMost(t.right, expanded);
      if Marked(t, expanded) != InnerCount(t) && expanded[t.id] {
        if Marked(t.left, expanded) != InnerCount(t.left) {
          var s :| Within(s, t.left) && s.Inner? && s.id < |expanded| && !expanded[s.id];
          assert Within(s, t);
        } else {
          var s :| Within(s, t.right) && s.Inner? && s.id < |expanded| && !expanded[s.id];
          assert Within(s, t);
        }
      }
      if Marked(t, expanded) == InnerCount(t) {
        forall s | Within(s, t) && s.Inner? && s.id < |expanded| ensures expanded[s.id] {
          assert s == t || Within(s, t.left) || Within(s, t.right);
        }
      } else if !expanded[t.id] {
        assert Within(t, t);
      }
    }
  }

  lemma {:induction false} AllMarkedHideNone(t: Tree, expanded: Mask)
    requires IdsBelow(t, |expanded|) && Marked(t, expanded) == InnerCount(t)
    ensures Hidden(t, expanded) == 0
  {
    if t.Inner? {
      MarkedAtMost(t.left, expanded);
      MarkedAtMost(t.right, expanded);
      AllMarkedHideNone(t.left, expanded);
      AllMarkedHideNone(t.right, expanded);
    }
  }

  // ---- which nodes are marked ----

  /** The collapsed inner nodes among these trees' tops, in the same order. */
  ghost function CollapsedAmong(order: seq<Tree>, expanded: Mask): seq<Tree> {
    if order == [] then []
    else
      var rest := CollapsedAmong(order[1..], expanded);
      if IsCollapsed(order[0], expanded) then [order[0]] + rest else rest
  }

  ghost predicate IsCollapsed(s: Tree, expanded: Mask) {
    s.Inner? && s.id < |expanded| && !expanded[s.id]
  }

  /** The first `k` collapsed nodes below a node, level by level from the top and left to right. */
  ghost function FirstCollapsed(t: Tree, expanded: Mask, k: nat): seq<Tree> {
    var all := CollapsedAmong(LevelOrder([t]), expanded);
    if k < |all| then all[..k] else all
  }

  /** Exactly these nodes are newly marked. */
  ghost predicate MarksAre(before: Mask, after: Mask, marked: seq<Tree>) {
    && |before| == |after|
    && forall i: nat :: i < |before| ==> (after[i] <==> before[i] || exists k :: 0 <= k < |marked| && marked[k].id == i)
  }

  /** Every newly marked node has only expanded nodes above it. */
  ghost predicate Opened(t: Tree, before: Mask, after: Mask)
    requires IdsBelow(t, |before|) && |after| == |before|
  {
    t.Inner? ==>
      if after[t.id] then Opened(t.left, before, after) && Opened(t.right, before, after)
      else !before[t.id] && NothingNew(t.left, before, after) && NothingNew(t.right, before, after)
  }

  ghost predicate NothingNew(t: Tree, before: Mask, after: Mask)
    requires IdsBelow(t, |before|) && |after| == |before|
  {
    t.Inner? ==> after[t.id] == before[t.id] && NothingNew(t.left, before, after) && NothingNew(t.right, before, after)
  }

  lemma {:induction false} NothingNewOpened(t: Tree, before: Mask, after: Mask)
    requires IdsBelow(t, |before|) && |after| == |before| && NothingNew(t, before, after)
    ensures Opened(t, before, after)
  {
    if t.Inner? {
      NothingNewOpened(t.left, before, after);
      NothingNewOpened(t.right, before, after);
    }
  }

  lemma {:induction false} NothingNewAtFirst(t: Tree, before: Mask)
    requires IdsBelow(t, |before|)
    ensures NothingNew(t, before, before) && Opened(t, before, before)
  {
    if t.Inner? {
      NothingNewAtFirst(t.left, before);
      NothingNewAtFirst(t.right, before);
    }
  }

  lemma {:induction false} OpenedElsewhere(t: Tree, before: Mask, after: Mask, id: nat)
    requires IdsBelow(t, |before|) && |after| == |before| && id < |after| && id !in Preorder(t)
    ensures NothingNew(t, before, after) ==> NothingNew(t, before, after[id := true])
    ensures Opened(t, before, after) ==> Opened(t, before, after[id := true])
  {
    assert Preorder(t)[0] == t.id;
    if t.Inner? {
      OpenedElsewhere(t.left, before, after, id);
      OpenedElsewhere(t.right, before, after, id);
    }
  }

  /** Marking a drawn collapsed node keeps that. */
  lemma {:induction false} OpenedNext(t: Tree, before: Mask, after: Mask, s: Tree)
    requires IdsBelow(t, |before|) && |after| == |before| && Distinct(Preorder(t)) && Opened(t, before, after)
    requires DrawnIn(s, t, after) && IsCollapsed(s, after)
    ensures Opened(t, before, after[s.id := true])
  {
    SplitDistinct(t);
    DrawnWithin(s, t, after);
    WithinListed(s, t);
    if s == t {
      NothingNewOpened(t.left, before, after);
      NothingNewOpened(t.right, before, after);
      OpenedElsewhere(t.left, before, after, s.id);
      OpenedElsewhere(t.right, before, after, s.id);
    } else if DrawnIn(s, t.left, after) {
      DrawnWithin(s, t.left, after);
      WithinListed(s, t.left);
      OpenedNext(t.left, before, after, s);
      OpenedElsewhere(t.right, before, after, s.id);
    } else {
      DrawnWithin(s, t.right, after);
      WithinListed(s, t.right);
      OpenedNext(t.right, before, after, s);
      OpenedElsewhere(t.left, before, after, s.id);
    }
  }

  /** No node of one tree is a node of the other. */
  ghost predicate Apart(a: Tree, b: Tree) { forall i :: !(i in Preorder(a) && i in Preorder(b)) }

  lemma ApartSwapped(a: Tree, b: Tree)
    ensures Apart(a, b) <==> Apart(b, a)
  {
  }

  /** The marks so far are the first collapsed nodes; the rest of them are still waiting, in order. */
  ghost predicate InOrder(t: Tree, before: Mask, expanded: Mask, marked: seq<Tree>, waiting: seq<Tree>)
    requires IdsBelow(t, |before|) && |expanded| == |before|
  {
    && MarksAre(before, expanded, marked) && Opened(t, before, expanded) && StillAsBefore(waiting, before, expanded)
    && CollapsedAmong(LevelOrder([t]), before) == marked + CollapsedAmong(QueueOrder(waiting), before)
  }

  /** The waiting trees share no node, repeat none and hold no new mark. */
  ghost predicate StillAsBefore(waiting: seq<Tree>, before: Mask, expanded: Mask) {
    && (forall k :: 0 <= k < |waiting| ==> Unchanged(waiting[k], before, expanded))
    && (forall j, k :: 0 <= j < k < |waiting| ==> Apart(waiting[j], waiting[k]))
  }

  ghost predicate Unchanged(t: Tree, before: Mask, expanded: Mask) {
    && Distinct(Preorder(t)) && |before| == |expanded|
    && forall i :: i in Preorder(t) && i < |before| ==> expanded[i] == before[i]
  }

  lemma InOrderStarts(t: Tree, before: Mask)
    requires IdsBelow(t, |before|) && Distinct(Preorder(t))
    ensures InOrder(t, before, before, [], [t])
  {
    NothingNewAtFirst(t, before);
    QueueIsLevelOrder([t]);
    assert [] + CollapsedAmong(LevelOrder([t]), before) == CollapsedAmong(LevelOrder([t]), before);
  }

  lemma QueueTurns(waiting: seq<Tree>, before: Mask)
    requires waiting != []
    ensures CollapsedAmong(QueueOrder(waiting), before)
         == (if IsCollapsed(waiting[0], before) then [waiting[0]] else [])
             + CollapsedAmong(QueueOrder(Turn(waiting)), before)
  {
    hide IsCollapsed, Turn;
    var rest := QueueOrder(Turn(waiting));
    QueueFirst(waiting);
    assert ([waiting[0]] + rest)[1..] == rest;
    assert [] + CollapsedAmong(rest, before) == CollapsedAmong(rest, before);
  }

  lemma UnchangedKids(t: Tree, before: Mask, expanded: Mask, id: nat)
    requires t.Inner? && Unchanged(t, before, expanded) && id < |expanded| && (id == t.id || expanded[id])
    ensures Apart(t.left, t.right) && Unchanged(t.left, before, expanded[id := true])
              && Unchanged(t.right, before, expanded[id := true])
    ensures forall b :: Apart(b, t) ==> Apart(b, t.left) && Apart(b, t.right)
  {
    SplitDistinct(t);
  }

  lemma UnchangedApart(t: Tree, before: Mask, expanded: Mask, s: Tree)
    requires Unchanged(t, before, expanded) && Apart(s, t) && s.id < |expanded|
    ensures Unchanged(t, before, expanded[s.id := true])
  {
    assert Preorder(s)[0] == s.id;
  }

  /** Taking an inner node off the queue, marked now or before, leaves the others as they were. */
  lemma StillTurned(waiting: seq<Tree>, before: Mask, expanded: Mask)
    requires waiting != [] && waiting[0].Inner? && waiting[0].id < |expanded|
              && StillAsBefore(waiting, before, expanded)
    ensures StillAsBefore(Turn(waiting), before, expanded[waiting[0].id := true])
  {
    hide Preorder, Unchanged, Apart;
    var s, next := waiting[0], Turn(waiting);
    var e' := expanded[s.id := true];
    assert Unchanged(s, before, expanded);
    UnchangedKids(s, before, expanded, s.id);
    forall k | 0 <= k < |next| ensures Unchanged(next[k], before, e') {
      if k + 1 < |waiting| {
        assert next[k] == waiting[k + 1] && Unchanged(waiting[k + 1], before, expanded);
        UnchangedApart(waiting[k + 1], before, expanded, s);
      }
    }
    forall j, k | 0 <= j < k < |next| ensures Apart(next[j], next[k]) {
      if k + 1 >= |waiting| && j + 1 < |waiting| {
        assert next[j] == waiting[j + 1];
        ApartSwapped(s, waiting[j + 1]);
      } else if k + 1 < |waiting| {
        assert next[j] == waiting[j + 1] && next[k] == waiting[k + 1];
      }
    }
  }

  /** Only the marks themselves change. */
  lemma TopUnchanged(waiting: seq<Tree>, before: Mask, expanded: Mask)
    requires waiting != [] && waiting[0].id < |expanded| && StillAsBefore(waiting, before, expanded)
    ensures |before| == |expanded| && (IsCollapsed(waiting[0], before) <==> IsCollapsed(waiting[0], expanded))
  {
    assert Unchanged(waiting[0], before, expanded);
    assert Preorder(waiting[0])[0] == waiting[0].id;
  }

  lemma InOrderLeaf(t: Tree, before: Mask, expanded: Mask, marked: seq<Tree>, waiting: seq<Tree>)
    requires IdsBelow(t, |before|) && |expanded| == |before| && InOrder(t, before, expanded, marked, waiting)
    requires waiting != [] && waiting[0].Leaf?
    ensures InOrder(t, before, expanded, marked, waiting[1..])
  {
    hide MarksAre, Opened, LevelOrder, QueueOrder, CollapsedAmong, Unchanged, Apart;
    QueueTurns(waiting, before);
    assert Turn(waiting) == waiting[1..];
    var rest := CollapsedAmong(QueueOrder(waiting[1..]), before);
    assert marked + ([] + rest) == marked + rest;
  }

  lemma MarksMore(before: Mask, expanded: Mask, marked: seq<Tree>, s: Tree)
    requires MarksAre(before, expanded, marked) && s.id < |expanded|
    ensures MarksAre(before, expanded[s.id := true], marked + [s])
    ensures expanded[s.id] ==> MarksAre(before, expanded[s.id := true], marked)
  {
    var after, more := expanded[s.id := true], marked + [s];
    forall i: nat | i < |before| ensures after[i] <==> before[i] || exists k :: 0 <= k < |more| && more[k].id == i {
      if exists k :: 0 <= k < |marked| && marked[k].id == i {
        var k :| 0 <= k < |marked| && marked[k].id == i;
        assert more[k].id == i;
      }
      assert more[|marked|].id == s.id;
    }
    if expanded[s.id] { assert after == expanded; }
  }

  lemma InOrderInner(t: Tree, before: Mask, expanded: Mask, marked: seq<Tree>, waiting: seq<Tree>)
    requires IdsBelow(t, |before|) && |expanded| == |before| && Distinct(Preorder(t))
              && InOrder(t, before, expanded, marked, waiting)
    requires waiting != [] && waiting[0].Inner? && waiting[0].id < |expanded| && DrawnIn(waiting[0], t, expanded)
    ensures InOrder(t, before, expanded[waiting[0].id := true],
                    if expanded[waiting[0].id] then marked else marked + [waiting[0]], Turn(waiting))
  {
    hide MarksAre, Opened, LevelOrder, QueueOrder, CollapsedAmong, StillAsBefore, Preorder, Turn, DrawnIn;
    var s, rest := waiting[0], CollapsedAmong(QueueOrder(Turn(waiting)), before);
    QueueTurns(waiting, before);
    TopUnchanged(waiting, before, expanded);
    StillTurned(waiting, before, expanded);
    MarksMore(before, expanded, marked, s);
    if expanded[s.id] {
      assert expanded[s.id := true] == expanded;
      assert marked + ([] + rest) == marked + rest;
    } else {
      OpenedNext(t, before, expanded, s);
      assert marked + ([s] + rest) == marked + [s] + rest;
    }
  }

  /** Stopped by the budget or run dry, the marks are the first ones the budget pays for. */
  lemma InOrderEnds(t: Tree, before: Mask, expanded: Mask, marked: seq<Tree>, waiting: seq<Tree>, budget: nat)
    requires IdsBelow(t, |before|) && |expanded| == |before| && InOrder(t, before, expanded, marked, waiting)
    requires 2 * |marked| <= budget && (waiting == [] || 2 * |marked| + 2 > budget)
    ensures MarksAre(before, expanded, FirstCollapsed(t, before, budget / 2)) && Opened(t, before, expanded)
  {
    hide MarksAre, Opened, LevelOrder, StillAsBefore;
    var all := CollapsedAmong(LevelOrder([t]), before);
    if waiting == [] { assert all == marked; }
    if |marked| <= |all| { assert all[..|marked|] == marked; }
    assert waiting != [] ==> |marked| == budget / 2;
    if budget / 2 == |all| { assert all[..|all|] == all; }
  }

  /** What expanding below a node did: what it marked, what that drew, and whether anything is left. */
  ghost predicate Grew(t: Tree, before: Mask, after: Mask, budget: nat, added: nat, stopped: bool)
    requires IdsBelow(t, |before|) && |after| == |before|
  {
    && added <= budget && 2 * Marked(t, after) == 2 * Marked(t, before) + added && Hidden(t, after) <= Hidden(t, before)
    && (stopped <==> Marked(t, after) < InnerCount(t)) && (stopped ==> added + 2 > budget)
    && MarksAre(before, after, FirstCollapsed(t, before, budget / 2)) && Opened(t, before, after)
    && forall i: nat :: i < |before| ==> (before[i] ==> after[i]) && (i !in Preorder(t) ==> after[i] == before[i])
  }

  /** Marks below `top`, breadth first; `added` counts two nodes for each. */
  method ExpandBelow(left: seq<int>, right: seq<int>, expanded: array<bool>, top: nat, budget: nat, ghost t: Tree)
    returns (added: nat, stopped: bool)
    requires |left| == |right| == expanded.Length && Matches(t, left, right) && t.id == top
    requires IdsBelow(t, expanded.Length) && Distinct(Preorder(t))
    modifies expanded
    ensures Grew(t, old(expanded[..]), expanded[..], budget, added, stopped)
  {
    hide Matches, DrawnIn, Within, Preorder, Marked, Hidden, InnerCount, Covered, TotalSize, Queued, InOrder,
         FirstCollapsed, MarksAre, Opened;
    var queue: seq<nat> := [top];
    ghost var ts, before, marked: seq<Tree> := [t], expanded[..], [];
    var head := 0;
    added, stopped := 0, false;
    ExpandStarts(t, before, left, right);
    InOrderStarts(t, before);
    assert [t][0..] == [t];
    while head < |queue|
      invariant head <= |queue| == |ts| && Queued(queue, ts, t, expanded[..], left, right, head)
      invariant Covered(t, ts, expanded[..], head) && MarkedSoFar(t, before, expanded[..], budget, added)
      invariant InOrder(t, before, expanded[..], marked, ts[head..]) && 2 * |marked| == added
      decreases TotalSize(ts[head..])
    {
      ghost var s, e := ts[head], expanded[..];
      QueuedHead(queue, ts, t, e, left, right, head);
      var node := queue[head];
      if left[node] < 0 {
        TotalSizeSplit(ts, head);
        SizePositive(s);
        CoveredLeaf(t, ts, e, head);
        QueuedLeaf(queue, ts, t, e, left, right, head);
        InOrderLeaf(t, before, e, marked, ts[head..]);
        assert ts[head..][1..] == ts[head + 1..];
      } else {
        InOrderInner(t, before, e, marked, ts[head..]);
        PushedTurns(ts, head);
        if !expanded[node] {
          if added + 2 > budget {
            StoppedShort(t, e, s);
            InOrderEnds(t, before, e, marked, ts[head..], budget);
            return added, true;
          }
          MarkedNext(t, before, e, budget, added, s);
          expanded[node] := true;
          added := added + 2;
          marked := marked + [s];
        }
        assert expanded[..] == e[node := true];
        QueuedPushed(queue, ts, t, e, left, right, head);
        CoveredPushed(t, ts, e, head);
        PushedSize(ts, head);
        queue := queue + [left[node], right[node]];
        ts := Pushed(ts, head);
      }
      head := head + 1;
    }
    NothingPending(t, ts, expanded[..], head);
    InOrderEnds(t, before, expanded[..], marked, ts[head..], budget);
  }

  lemma PushedTurns(ts: seq<Tree>, head: nat)
    requires head < |ts| && ts[head].Inner?
    ensures Pushed(ts, head)[head + 1..] == Turn(ts[head..])
  {
  }

  /** What the marks so far come to. */
  ghost predicate MarkedSoFar(t: Tree, before: Mask, after: Mask, budget: nat, added: nat)
    requires IdsBelow(t, |before|)
  {
    && |after| == |before| && added <= budget
    && 2 * Marked(t, after) == 2 * Marked(t, before) + added && Hidden(t, after) <= Hidden(t, before)
    && forall i: nat :: i < |before| ==> (before[i] ==> after[i]) && (i !in Preorder(t) ==> after[i] == before[i])
  }

  lemma ExpandStarts(t: Tree, before: Mask, left: seq<int>, right: seq<int>)
    requires IdsBelow(t, |before|) && |left| == |right| && Matches(t, left, right)
    ensures Queued([t.id], [t], t, before, left, right, 0) && Covered(t, [t], before, 0)
  {
    forall s | Within(s, t) ensures Pending(s, [t], 0) { assert Within(s, [t][0]); }
  }

  lemma QueuedHead(queue: seq<nat>, ts: seq<Tree>, t: Tree, expanded: Mask, left: seq<int>, right: seq<int>, head: nat)
    requires |left| == |right| && IdsBelow(t, |expanded|) && Queued(queue, ts, t, expanded, left, right, head)
              && head < |ts|
    ensures ts[head].id == queue[head] < |left| && (ts[head].Leaf? <==> left[queue[head]] < 0)
    ensures DrawnIn(ts[head], t, expanded) && Within(ts[head], t)
    ensures ts[head].Inner? ==> 0 <= left[queue[head]] && 0 <= right[queue[head]]
  {
    DrawnWithin(ts[head], t, expanded);
  }

  lemma QueuedLeaf(queue: seq<nat>, ts: seq<Tree>, t: Tree, expanded: Mask, left: seq<int>, right: seq<int>, head: nat)
    requires |left| == |right| && IdsBelow(t, |expanded|) && Queued(queue, ts, t, expanded, left, right, head)
              && head < |ts|
    ensures Queued(queue, ts, t, expanded, left, right, head + 1)
  {
  }

  lemma StoppedShort(t: Tree, expanded: Mask, s: Tree)
    requires IdsBelow(t, |expanded|) && Within(s, t) && s.Inner? && s.id < |expanded| && !expanded[s.id]
    ensures Marked(t, expanded) < InnerCount(t)
  {
    AllMarked(t, expanded);
    MarkedAtMost(t, expanded);
  }

  lemma MarkedNext(t: Tree, before: Mask, e: Mask, budget: nat, added: nat, s: Tree)
    requires IdsBelow(t, |before|) && MarkedSoFar(t, before, e, budget, added) && added + 2 <= budget
    requires Distinct(Preorder(t)) && Within(s, t) && DrawnIn(s, t, e) && s.Inner? && s.id < |e| && !e[s.id]
    ensures MarkedSoFar(t, before, e[s.id := true], budget, added + 2)
  {
    hide Preorder, Marked, Hidden, DrawnIn, Within;
    MarkOne(t, e, s);
    MarkDrawn(t, e, s);
    WithinListed(s, t);
  }

  lemma NothingPending(t: Tree, ts: seq<Tree>, expanded: Mask, head: nat)
    requires IdsBelow(t, |expanded|) && Covered(t, ts, expanded, head) && head >= |ts|
    ensures Marked(t, expanded) == InnerCount(t)
  {
    AllMarked(t, expanded);
    assert forall s :: !Pending(s, ts, head);
  }

  // ---- the expansion a drawing starts with ----

  /** A waiting tree none of whose nodes is marked. */
  ghost predicate Untouched(t: Tree, expanded: Mask) {
    IdsBelow(t, |expanded|) && Distinct(Preorder(t)) && Marked(t, expanded) == 0
  }

  ghost predicate WaitingClear(ts: seq<Tree>, expanded: Mask, head: nat) {
    && (forall k :: head <= k < |ts| ==> Untouched(ts[k], expanded))
    && (forall j, k :: head <= j < k < |ts| ==> Apart(ts[j], ts[k]))
  }

  lemma UntouchedChildren(t: Tree, expanded: Mask)
    requires t.Inner? && Untouched(t, expanded)
    ensures !expanded[t.id] && Apart(t.left, t.right)
    ensures Untouched(t.left, expanded[t.id := true]) && Untouched(t.right, expanded[t.id := true])
    ensures forall b :: (Apart(b, t) ==> Apart(b, t.left) && Apart(b, t.right))
  {
    SplitDistinct(t);
    MarkElsewhere(t.left, expanded, t.id);
    MarkElsewhere(t.right, expanded, t.id);
  }

  lemma UntouchedApart(t: Tree, expanded: Mask, s: Tree)
    requires Untouched(t, expanded) && Apart(s, t) && s.id < |expanded|
    ensures Untouched(t, expanded[s.id := true])
  {
    assert Preorder(s)[0] == s.id;
    MarkElsewhere(t, expanded, s.id);
  }

  lemma ClearPushed(ts: seq<Tree>, expanded: Mask, head: nat)
    requires WaitingClear(ts, expanded, head) && head < |ts| && ts[head].Inner?
    ensures ts[head].id < |expanded| && !expanded[ts[head].id]
    ensures WaitingClear(Pushed(ts, head), expanded[ts[head].id := true], head + 1)
  {
    hide Preorder, Untouched, Apart;
    var s, ts' := ts[head], Pushed(ts, head);
    assert Untouched(s, expanded);
    TopBelow(s, expanded);
    var e' := expanded[s.id := true];
    UntouchedChildren(s, expanded);
    forall k | head + 1 <= k < |ts'| ensures Untouched(ts'[k], e') {
      if k < |ts| {
        assert Untouched(ts[k], expanded);
        UntouchedApart(ts[k], expanded, s);
      }
    }
    forall j, k | head + 1 <= j < k < |ts'| ensures Apart(ts'[j], ts'[k]) {
      if k >= |ts| && j < |ts| { ApartSwapped(s, ts[j]); }
    }
  }

  lemma TopBelow(t: Tree, expanded: Mask)
    requires Untouched(t, expanded)
    ensures t.id < |expanded|
  {
  }

  /** The depth table below a node at depth `d`. */
  ghost predicate DepthsIn(t: Tree, d: nat, depth: seq<nat>) {
    && t.id < |depth| && depth[t.id] == d
    && (t.Inner? ==> DepthsIn(t.left, d + 1, depth) && DepthsIn(t.right, d + 1, depth))
  }

  lemma {:induction false} DeeperWithin(s: Tree, t: Tree, d: nat, depth: seq<nat>)
    requires Within(s, t) && DepthsIn(t, d, depth)
    ensures s.id < |depth| && depth[s.id] >= d
  {
    if s != t {
      if Within(s, t.left) { DeeperWithin(s, t.left, d + 1, depth); } else { DeeperWithin(s, t.right, d + 1, depth); }
    }
  }

  /** The queue lists nodes by depth, at most one depth past the head's waiting. */
  ghost predicate ByDepth(ts: seq<Tree>, depth: seq<nat>, head: nat) {
    && (forall k :: 0 <= k < |ts| ==> ts[k].id < |depth| && DepthsIn(ts[k], depth[ts[k].id], depth))
    && (forall j, k :: 0 <= j < k < |ts| ==> depth[ts[j].id] <= depth[ts[k].id])
    && (forall k :: 0 <= k < |ts| && head < |ts| ==> depth[ts[k].id] <= depth[ts[head].id] + 1)
  }

  lemma ByDepthPushed(ts: seq<Tree>, depth: seq<nat>, head: nat)
    requires ByDepth(ts, depth, head) && head < |ts| && ts[head].Inner?
    ensures ByDepth(Pushed(ts, head), depth, head + 1)
  {
    var s, ts' := ts[head], Pushed(ts, head);
    assert DepthsIn(s, depth[s.id], depth);
    assert DepthsIn(s.left, depth[s.id] + 1, depth) && DepthsIn(s.right, depth[s.id] + 1, depth);
    assert depth[s.left.id] == depth[s.id] + 1 && depth[s.right.id] == depth[s.id] + 1;
    forall j, k | 0 <= j < k < |ts'| ensures depth[ts'[j].id] <= depth[ts'[k].id] {
      if k >= |ts| && j < |ts| { assert depth[ts[j].id] <= depth[s.id] + 1; }
    }
  }

  lemma ByDepthLeaf(ts: seq<Tree>, depth: seq<nat>, head: nat)
    requires ByDepth(ts, depth, head) && head < |ts|
    ensures ByDepth(ts, depth, head + 1)
  {
  }

  /** Only processed nodes are marked. */
  ghost predicate MarksProcessed(ts: seq<Tree>, expanded: Mask, head: nat) {
    forall i: nat :: i < |expanded| && expanded[i] ==> exists k :: 0 <= k < head && k < |ts| && ts[k].id == i
  }

  lemma ProcessedPushed(ts: seq<Tree>, expanded: Mask, head: nat)
    requires MarksProcessed(ts, expanded, head) && head < |ts| && ts[head].Inner? && ts[head].id < |expanded|
    ensures MarksProcessed(Pushed(ts, head), expanded[ts[head].id := true], head + 1)
  {
    var ts', e' := Pushed(ts, head), expanded[ts[head].id := true];
    forall i: nat | i < |e'| && e'[i] ensures exists k :: 0 <= k < head + 1 && k < |ts'| && ts'[k].id == i {
      if i == ts[head].id {
        assert ts'[head].id == i;
      } else {
        var k :| 0 <= k < head && k < |ts| && ts[k].id == i;
        assert ts'[k].id == i;
      }
    }
  }

  /** A collapsed inner node of the tree. */
  ghost predicate Collapsed(s: Tree, t: Tree, expanded: Mask) {
    Within(s, t) && s.Inner? && s.id < |expanded| && !expanded[s.id]
  }

  /** No expanded node is deeper than a collapsed one. */
  ghost predicate Even(t: Tree, expanded: Mask, depth: seq<nat>) {
    forall i: nat, s: Tree | i < |expanded| && expanded[i] && Collapsed(s, t, expanded) ::
      i < |depth| && s.id < |depth| ==> depth[i] <= depth[s.id]
  }

  lemma EvenSoFar(t: Tree, ts: seq<Tree>, expanded: Mask, depth: seq<nat>, head: nat)
    requires IdsBelow(t, |expanded|) && Covered(t, ts, expanded, head) && ByDepth(ts, depth, head)
              && MarksProcessed(ts, expanded, head)
    ensures Even(t, expanded, depth)
  {
    forall i: nat, s: Tree | i < |expanded| && expanded[i] && Collapsed(s, t, expanded) && i < |depth| && s.id < |depth|
      ensures depth[i] <= depth[s.id]
    {
      assert Pending(s, ts, head);
      var k :| head <= k < |ts| && Within(s, ts[k]);
      var j :| 0 <= j < head && j < |ts| && ts[j].id == i;
      DeeperWithin(s, ts[k], depth[ts[k].id], depth);
    }
  }

  /** The start of a drawing: within budget, the top of the tree evenly, all of it when it fits. */
  ghost predicate StartsWithin(t: Tree, expanded: Mask, budget: nat, depth: seq<nat>)
    requires IdsBelow(t, |expanded|)
  {
    && Size(Prune(t, expanded)) <= (if budget < 1 then 1 else budget)
    && (Marked(t, expanded) == InnerCount(t) <==> Size(t) <= (if budget < 1 then 1 else budget))
    && Hidden(t, expanded) == 0 && Even(t, expanded, depth)
  }

  /** Nothing expanded. */
  ghost function Unmarked(n: nat): (r: Mask)
    ensures |r| == n && forall i :: 0 <= i < n ==> !r[i]
  {
    seq(n, _ => false)
  }

  /** The nodes a budget pays for beside the root. */
  function PaidFor(budget: nat): nat { if budget < 1 then 0 else budget - 1 }

  /** The first inner nodes the budget pays for, level by level, and no other. */
  method InitialExpansion(left: seq<int>, right: seq<int>, root: nat, budget: nat, ghost t: Tree, ghost depth: seq<nat>)
    returns (expanded: array<bool>)
    requires |left| == |right| == Size(t) && Matches(t, left, right) && t.id == root && Distinct(Preorder(t))
              && DepthsIn(t, 0, depth)
    ensures fresh(expanded) && expanded.Length == |left|
    ensures IdsBelow(t, |left|) && StartsWithin(t, expanded[..], budget, depth)
    ensures var none := Unmarked(|left|);
            MarksAre(none, expanded[..], FirstCollapsed(t, none, PaidFor(budget) / 2))
  {
    hide Matches, DrawnIn, Within, Preorder, Marked, Hidden, InnerCount, Covered, TotalSize, Queued, WaitingClear,
         ByDepth, MarksProcessed, DepthsIn, StartsWithin, Size, InitialSoFar, IdsBelow, InOrder, FirstCollapsed,
         MarksAre, Opened, Unmarked;
    MatchedIds(t, left, right);
    var n := |left|;
    expanded := new bool[n](_ => false);
    var queue := new nat[n](_ => 0);
    InitialState(t, expanded[..], left, right, depth);
    var tail, drawn, head := 1, 1, 0;
    queue[0] := root;
    ghost var ts, none, marked: seq<Tree> := [t], Unmarked(n), [];
    assert queue[..1] == [root] && expanded[..] == none && [t][0..] == [t];
    InOrderStarts(t, none);
    while head < tail
      invariant head <= tail == |ts| && head + TotalSize(ts[head..]) == n
      invariant InitialSoFar(t, queue[..], tail, ts, expanded[..], left, right, depth, head, drawn)
      invariant drawn <= (if budget < 1 then 1 else budget)
      invariant InOrder(t, none, expanded[..], marked, ts[head..]) && drawn == 1 + 2 * |marked|
      decreases n - head
    {
      ghost var q, e, s := queue[..], expanded[..], ts[head];
      QueueRoom(ts, head);
      var node := queue[head];
      HeadSoFar(t, q, tail, ts, e, left, right, depth, head, drawn);
      if left[node] < 0 {
        TotalSizeSplit(ts, head);
        LeafSize(s);
        LeafSoFar(t, q, tail, ts, e, left, right, depth, head, drawn);
        InOrderLeaf(t, none, e, marked, ts[head..]);
        assert ts[head..][1..] == ts[head + 1..];
      } else {
        if drawn + 2 > budget {
          StopsEarly(t, q, tail, ts, e, left, right, depth, head, drawn, budget);
          InOrderEnds(t, none, e, marked, ts[head..], PaidFor(budget));
          return;
        }
        PushedSize(ts, head);
        PushedRoom(ts, head, n);
        InnerSoFar(t, q, tail, ts, e, left, right, depth, head, drawn);
        InOrderInner(t, none, e, marked, ts[head..]);
        PushedTurns(ts, head);
        MarkAndQueue(expanded, queue, tail, node, left[node], right[node]);
        drawn := drawn + 2;
        tail := tail + 2;
        marked := marked + [s];
        ts := Pushed(ts, head);
      }
      head := head + 1;
    }
    EndsWhole(t, queue[..], tail, ts, expanded[..], left, right, depth, head, drawn, budget);
    assert ts[head..] == [];
    InOrderEnds(t, none, expanded[..], marked, ts[head..], PaidFor(budget));
  }

  method MarkAndQueue(expanded: array<bool>, queue: array<nat>, tail: nat, node: nat, l: nat, r: nat)
    requires node < expanded.Length && tail + 2 <= queue.Length
    modifies expanded, queue
    ensures expanded[..] == old(expanded[..])[node := true] && queue[..tail + 2] == old(queue[..tail]) + [l, r]
  {
    expanded[node] := true;
    queue[tail] := l;
    queue[tail + 1] := r;
  }

  lemma LeafSize(s: Tree)
    requires s.Leaf?
    ensures Size(s) == 1
  {
  }

  lemma QueueRoom(ts: seq<Tree>, head: nat)
    requires head < |ts|
    ensures |ts| <= head + TotalSize(ts[head..])
  {
    TotalAtLeast(ts[head..]);
  }

  lemma PushedRoom(ts: seq<Tree>, head: nat, n: nat)
    requires head < |ts| && ts[head].Inner? && head + TotalSize(ts[head..]) == n
    ensures |ts| + 2 <= n
  {
    PushedSize(ts, head);
    TotalAtLeast(Pushed(ts, head)[head + 1..]);
  }

  /** The loop's state: queue, trees and marks agree, and the count is the drawing's size. */
  ghost predicate InitialSoFar(t: Tree, queue: seq<nat>, tail: nat, ts: seq<Tree>, expanded: Mask, left: seq<int>,
                               right: seq<int>, depth: seq<nat>, head: nat, drawn: nat)
    requires |left| == |right| && IdsBelow(t, |expanded|)
  {
    && tail <= |queue| == |left| == |expanded| && Queued(queue[..tail], ts, t, expanded, left, right, head)
    && Covered(t, ts, expanded, head) && WaitingClear(ts, expanded, head) && ByDepth(ts, depth, head)
        && MarksProcessed(ts, expanded, head)
    && drawn == 1 + 2 * Marked(t, expanded) && Hidden(t, expanded) == 0
  }

  lemma {:induction false} NoneMarked(t: Tree, expanded: Mask)
    requires IdsBelow(t, |expanded|) && forall i :: 0 <= i < |expanded| ==> !expanded[i]
    ensures Marked(t, expanded) == 0 && Hidden(t, expanded) == 0
  {
    if t.Inner? {
      NoneMarked(t.left, expanded);
      NoneMarked(t.right, expanded);
    }
  }

  lemma InitialState(t: Tree, expanded: Mask, left: seq<int>, right: seq<int>, depth: seq<nat>)
    requires |left| == |right| == |expanded| == Size(t) && Matches(t, left, right) && Distinct(Preorder(t))
              && DepthsIn(t, 0, depth)
    requires IdsBelow(t, |expanded|) && forall i :: 0 <= i < |expanded| ==> !expanded[i]
    ensures |left| > 0 && TotalSize([t][0..]) == |left|
    ensures forall queue: seq<nat> :: |queue| == |left| && queue[..1] == [t.id]
              ==> InitialSoFar(t, queue, 1, [t], expanded, left, right, depth, 0, 1)
  {
    hide Matches, DrawnIn, Within, Preorder, Covered, Queued;
    NoneMarked(t, expanded);
    ExpandStarts(t, expanded, left, right);
    SizePositive(t);
    TotalSizeSplit([t], 0);
    assert [t][1..] == [];
  }

  lemma HeadSoFar(t: Tree, queue: seq<nat>, tail: nat, ts: seq<Tree>, e: Mask, left: seq<int>, right: seq<int>,
                  depth: seq<nat>, head: nat, drawn: nat)
    requires |left| == |right| && IdsBelow(t, |e|)
              && InitialSoFar(t, queue, tail, ts, e, left, right, depth, head, drawn)
    requires head < tail == |ts|
    ensures tail <= |queue| == |left| == |e| && ts[head].id == queue[head] < |left|
              && (ts[head].Leaf? <==> left[queue[head]] < 0)
    ensures ts[head].Inner? ==> 0 <= left[queue[head]] && 0 <= right[queue[head]]
    ensures DrawnIn(ts[head], t, e)
  {
    hide Matches, DrawnIn, Within, Covered, WaitingClear, ByDepth, MarksProcessed, Marked, Hidden;
    QueuedHead(queue[..tail], ts, t, e, left, right, head);
  }

  lemma LeafSoFar(t: Tree, queue: seq<nat>, tail: nat, ts: seq<Tree>, e: Mask, left: seq<int>, right: seq<int>,
                  depth: seq<nat>, head: nat, drawn: nat)
    requires |left| == |right| && IdsBelow(t, |e|)
              && InitialSoFar(t, queue, tail, ts, e, left, right, depth, head, drawn)
    requires head < tail == |ts| && ts[head].Leaf?
    ensures InitialSoFar(t, queue, tail, ts, e, left, right, depth, head + 1, drawn)
  {
    hide Matches, DrawnIn, Within, Covered, ByDepth, Marked, Hidden, Untouched, Apart, Queued;
    QueuedLeaf(queue[..tail], ts, t, e, left, right, head);
    CoveredLeaf(t, ts, e, head);
    ByDepthLeaf(ts, depth, head);
  }

  lemma InnerSoFar(t: Tree, queue: seq<nat>, tail: nat, ts: seq<Tree>, e: Mask, left: seq<int>, right: seq<int>,
                   depth: seq<nat>, head: nat, drawn: nat)
    requires |left| == |right| && IdsBelow(t, |e|)
              && InitialSoFar(t, queue, tail, ts, e, left, right, depth, head, drawn)
    requires head < tail == |ts| && ts[head].Inner? && tail + 2 <= |queue| && Distinct(Preorder(t))
    ensures ts[head].id == queue[head] < |e| && !e[queue[head]] && 0 <= left[queue[head]] && 0 <= right[queue[head]]
    ensures forall q: seq<nat> ::
              |q| == |queue| && q[..tail + 2] == queue[..tail] + [ts[head].left.id, ts[head].right.id]
              ==> InitialSoFar(t, q, tail + 2, Pushed(ts, head), e[ts[head].id := true], left, right, depth, head + 1,
                               drawn + 2)
    ensures left[queue[head]] == ts[head].left.id && right[queue[head]] == ts[head].right.id
  {
    hide Matches, DrawnIn, Within, Covered, WaitingClear, ByDepth, MarksProcessed, Marked, Hidden, Preorder, Queued;
    var s := ts[head];
    QueuedHead(queue[..tail], ts, t, e, left, right, head);
    ClearPushed(ts, e, head);
    QueuedPushed(queue[..tail], ts, t, e, left, right, head);
    CoveredPushed(t, ts, e, head);
    ByDepthPushed(ts, depth, head);
    ProcessedPushed(ts, e, head);
    MarkOne(t, e, s);
    MarkDrawn(t, e, s);
  }

  lemma StopsEarly(t: Tree, queue: seq<nat>, tail: nat, ts: seq<Tree>, e: Mask, left: seq<int>, right: seq<int>,
                   depth: seq<nat>, head: nat, drawn: nat, budget: nat)
    requires |left| == |right| && IdsBelow(t, |e|)
              && InitialSoFar(t, queue, tail, ts, e, left, right, depth, head, drawn)
    requires head < tail == |ts| && ts[head].Inner? && drawn + 2 > budget && drawn <= (if budget < 1 then 1 else budget)
    ensures StartsWithin(t, e, budget, depth)
  {
    hide Matches, DrawnIn, Within, Covered, WaitingClear, ByDepth, MarksProcessed, Preorder, Queued, Even;
    QueuedHead(queue[..tail], ts, t, e, left, right, head);
    ClearPushed(ts, e, head);
    StoppedShort(t, e, ts[head]);
    EvenSoFar(t, ts, e, depth, head);
    DrawnSize(t, e);
    SizeOfInner(t);
  }

  lemma EndsWhole(t: Tree, queue: seq<nat>, tail: nat, ts: seq<Tree>, e: Mask, left: seq<int>, right: seq<int>,
                  depth: seq<nat>, head: nat, drawn: nat, budget: nat)
    requires |left| == |right| && IdsBelow(t, |e|)
              && InitialSoFar(t, queue, tail, ts, e, left, right, depth, head, drawn)
    requires head >= tail == |ts| && drawn <= (if budget < 1 then 1 else budget)
    ensures StartsWithin(t, e, budget, depth)
  {
    hide Matches, DrawnIn, Within, Covered, WaitingClear, ByDepth, MarksProcessed, Preorder, Queued, Even;
    NothingPending(t, ts, e, head);
    EvenSoFar(t, ts, e, depth, head);
    DrawnSize(t, e);
    SizeOfInner(t);
  }
}
