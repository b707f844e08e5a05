/** Breadth-first order of a tree, level by level and as a queue visits it. */
module BreadthFirst {
  import opened PlaneTrees

  // ---- sizes of waiting trees ----

  ghost function TotalSize(ts: seq<Tree>): nat {
    if ts == [] then 0 else TotalSize(ts[..|ts| - 1]) + Size(ts[|ts| - 1])
  }

  lemma {:induction false} TotalSizeSplit(ts: seq<Tree>, head: nat)
    requires head < |ts|
    ensures TotalSize(ts[head..]) == Size(ts[head]) + TotalSize(ts[head + 1..])
    decreases |ts|
  {
    if head == |ts| - 1 {
      assert ts[head..] == [ts[head]] && ts[head + 1..] == [];
      assert [ts[head]][..0] == [];
    } else {
      var front := ts[..|ts| - 1];
      TotalSizeSplit(front, head);
      assert ts[head..][..|ts| - 1 - head] == front[head..] && ts[head + 1..][..|ts| - 2 - head] == front[head + 1..];
    }
  }

  lemma TotalSizeTwo(ts: seq<Tree>, a: Tree, b: Tree)
    ensures TotalSize(ts + [a, b]) == TotalSize(ts) + Size(a) + Size(b)
  {
    hide Size;
    assert (ts + [a, b])[..|ts| + 1] == ts + [a] && (ts + [a])[..|ts|] == ts;
  }

  lemma {:induction false} TotalAtLeast(ts: seq<Tree>)
    ensures |ts| <= TotalSize(ts)
  {
    if ts != [] { TotalAtLeast(ts[..|ts| - 1]); }
  }

  lemma {:induction false} TotalSizeConcat(a: seq<Tree>, b: seq<Tree>)
    ensures TotalSize(a + b) == TotalSize(a) + TotalSize(b)
  {
    if b == [] {
      assert a + b == a;
    } else {
      TotalSizeConcat(a, b[..|b| - 1]);
      assert (a + b)[..|a + b| - 1] == a + b[..|b| - 1];
    }
  }

  lemma TotalSizeFirst(ts: seq<Tree>)
    requires ts != []
    ensures TotalSize(ts) == Size(ts[0]) + TotalSize(ts[1..])
  {
    TotalSizeSplit(ts, 0);
    assert ts[0..] == ts;
  }

  // ---- level by level ----

  function Kids(t: Tree): seq<Tree> { if t.Leaf? then [] else [t.left, t.right] }

  lemma KidsSmaller(t: Tree)
    ensures TotalSize(Kids(t)) < Size(t)
  {
    if t.Inner? {
      TotalSizeTwo([], t.left, t.right);
      assert [] + [t.left, t.right] == Kids(t);
      SizeSplit(t);
    } else {
      SizePositive(t);
    }
  }

  /** The children of a level, left to right. */
  function NextLevel(ts: seq<Tree>): seq<Tree> {
    if ts == [] then [] else Kids(ts[0]) + NextLevel(ts[1..])
  }

  lemma {:induction false} NextLevelSmaller(ts: seq<Tree>)
    ensures TotalSize(NextLevel(ts)) + |ts| <= TotalSize(ts)
  {
    if ts != [] {
      NextLevelSmaller(ts[1..]);
      KidsSmaller(ts[0]);
      TotalSizeFirst(ts);
      TotalSizeConcat(Kids(ts[0]), NextLevel(ts[1..]));
    }
  }

  /** A level, then the level of its children, and so on down. */
  ghost function LevelOrder(ts: seq<Tree>): seq<Tree>
    decreases TotalSize(ts)
  {
    if ts == [] then []
    else
      NextLevelSmaller(ts);
      ts + LevelOrder(NextLevel(ts))
  }

  // ---- as a queue ----

  /** The head taken off and its children put at the end. */
  function Turn(ts: seq<Tree>): seq<Tree>
    requires ts != []
  {
    ts[1..] + Kids(ts[0])
  }

  lemma TurnSmaller(ts: seq<Tree>)
    requires ts != []
    ensures TotalSize(Turn(ts)) < TotalSize(ts)
  {
    KidsSmaller(ts[0]);
    TotalSizeFirst(ts);
    TotalSizeConcat(ts[1..], Kids(ts[0]));
  }

  /** The trees in the order a queue takes them. */
  ghost function QueueOrder(ts: seq<Tree>): seq<Tree>
    decreases TotalSize(ts)
  {
    if ts == [] then []
    else
      TurnSmaller(ts);
      [ts[0]] + QueueOrder(Turn(ts))
  }

  lemma QueueFirst(waiting: seq<Tree>)
    requires waiting != []
    ensures QueueOrder(waiting) == [waiting[0]] + QueueOrder(Turn(waiting))
  {
  }

  lemma LevelFirst(ts: seq<Tree>)
    requires ts != []
    ensures NextLevel(ts) == Kids(ts[0]) + NextLevel(ts[1..])
  {
  }

  lemma NoLevel(ts: seq<Tree>)
    requires ts == []
    ensures NextLevel(ts) == []
  {
  }

  /** A queue finishes the level it is in and leaves the next one behind what was waiting. */
  lemma {:induction false} LevelThenNext(level: seq<Tree>, waiting: seq<Tree>)
    ensures QueueOrder(level + waiting) == level + QueueOrder(waiting + NextLevel(level))
    decreases |level|
  {
    hide QueueOrder, NextLevel, Kids;
    if level == [] {
      NoLevel(level);
      assert level + waiting == waiting && waiting + NextLevel(level) == waiting;
    } else {
      var t, rest := level[0], level[1..];
      LevelThenNext(rest, waiting + Kids(t));
      QueueFirst(level + waiting);
      LevelFirst(level);
      assert Turn(level + waiting) == rest + (waiting + Kids(t));
      assert waiting + Kids(t) + NextLevel(rest) == waiting + NextLevel(level);
    }
  }

  /** A queue visits level by level. */
  lemma {:induction false} QueueIsLevelOrder(ts: seq<Tree>)
    ensures QueueOrder(ts) == LevelOrder(ts)
    decreases TotalSize(ts)
  {
    if ts != [] {
      NextLevelSmaller(ts);
      LevelThenNext(ts, []);
      assert ts + [] == ts && [] + NextLevel(ts) == NextLevel(ts);
      QueueIsLevelOrder(NextLevel(ts));
    }
  }
}
