/** Where the drawn nodes of a tree stand, row by row, and which of them a point is nearest to. */
module TreeLayout {
  import opened Wrappers
  import opened Sequences
  import opened PlaneTrees
  import opened TreeWalk
  import opened BreadthFirst
  import opened Expansion
  import opened FlatIndex
  import opened VtreeText

  const ROW: real := 64.0
  const LEAF_HEIGHT: real := 20.0
  const STUB_HEIGHT: real := 26.0

  /** Slot sizes on the page: for a leaf, and for a subtree drawn closed. */
  datatype Sizes = Sizes(slot: real, stub: real)

  ghost predicate Positive(z: Sizes) { z.slot > 0.0 && z.stub > 0.0 }

  function SlotWidth(left: seq<int>, z: Sizes, id: nat): real { if id < |left| && left[id] < 0 then z.slot else z.stub }

  // ---- places ----

  ghost function Width(p: Tree, left: seq<int>, z: Sizes): real {
    if p.Leaf? then SlotWidth(left, z, p.id) else Width(p.left, left, z) + Width(p.right, left, z)
  }

  /** The top of a drawn tree that starts at `at`: over its slot's middle, or midway over its two children. */
  ghost function Centre(p: Tree, left: seq<int>, z: Sizes, at: real): real {
    if p.Leaf? then at + SlotWidth(left, z, p.id) / 2.0
    else (Centre(p.left, left, z, at) + Centre(p.right, left, z, at + Width(p.left, left, z))) / 2.0
  }

  /** The places of all nodes, in preorder. */
  ghost function Places(p: Tree, left: seq<int>, z: Sizes, at: real): (r: seq<real>)
    ensures |r| == Size(p)
  {
    if p.Leaf? then [Centre(p, left, z, at)]
    else
      [Centre(p, left, z, at)]
      + (Places(p.left, left, z, at) + Places(p.right, left, z, at + Width(p.left, left, z)))
  }

  lemma {:induction false} CentreInside(p: Tree, left: seq<int>, z: Sizes, at: real)
    requires Positive(z)
    ensures at < Centre(p, left, z, at) < at + Width(p, left, z)
  {
    if p.Inner? {
      CentreInside(p.left, left, z, at);
      CentreInside(p.right, left, z, at + Width(p.left, left, z));
    }
  }

  lemma PlaceInLeft(p: Tree, left: seq<int>, z: Sizes, at: real, k: nat)
    requires p.Inner? && k < Size(p.left)
    ensures k + 1 < Size(p) && Places(p, left, z, at)[k + 1] == Places(p.left, left, z, at)[k]
  {
    hide Centre, Width;
  }

  lemma PlaceInRight(p: Tree, left: seq<int>, z: Sizes, at: real, k: nat)
    requires p.Inner? && k < Size(p.right)
    ensures k + 1 + Size(p.left) < Size(p)
    ensures Places(p, left, z, at)[k + 1 + Size(p.left)] == Places(p.right, left, z, at + Width(p.left, left, z))[k]
  {
    hide Centre, Width;
  }

  lemma WidthSplit(p: Tree, left: seq<int>, z: Sizes)
    requires Positive(z)
    ensures Width(p, left, z) > 0.0
    ensures p.Inner? ==> Width(p, left, z) == Width(p.left, left, z) + Width(p.right, left, z)
  {
    CentreInside(p, left, z, 0.0);
  }

  /** Every node stands strictly inside its tree's own stretch. */
  lemma {:induction false} PlacesInside(p: Tree, left: seq<int>, z: Sizes, at: real, k: nat)
    requires Positive(z) && k < Size(p)
    ensures at < Places(p, left, z, at)[k] < at + Width(p, left, z)
  {
    hide Size, Places, Centre, Width;
    SizeSplit(p);
    if k == 0 {
      CentreInside(p, left, z, at);
      TopPlace(p, left, z, at);
    } else {
      WidthSplit(p, left, z);
      WidthSplit(p.left, left, z);
      WidthSplit(p.right, left, z);
      if k - 1 < Size(p.left) {
        PlacesInside(p.left, left, z, at, k - 1);
        PlaceInLeft(p, left, z, at, k - 1);
      } else {
        PlacesInside(p.right, left, z, at + Width(p.left, left, z), k - 1 - Size(p.left));
        PlaceInRight(p, left, z, at, k - 1 - Size(p.left));
      }
    }
  }

  /** Everything in the left subtree stands left of everything in the right one. */
  lemma LeftOfRight(p: Tree, left: seq<int>, z: Sizes, at: real, j: nat, k: nat)
    requires Positive(z) && p.Inner? && j < Size(p.left) && k < Size(p.right)
    ensures j + 1 < Size(p) && k + 1 + Size(p.left) < Size(p)
    ensures Places(p, left, z, at)[j + 1] < Places(p, left, z, at)[k + 1 + Size(p.left)]
  {
    hide Size, Places, Centre, Width;
    PlacesInside(p.left, left, z, at, j);
    PlacesInside(p.right, left, z, at + Width(p.left, left, z), k);
    PlaceInLeft(p, left, z, at, j);
    PlaceInRight(p, left, z, at, k);
  }

  lemma TopAlone(p: Tree, k: nat)
    requires 0 < k < Size(p)
    ensures DepthAt(p, k) > 0 && DepthAt(p, 0) == 0
  {
  }

  /** Of two nodes of one depth, the later in preorder stands further right. */
  lemma {:induction false} RowsGoRight(p: Tree, left: seq<int>, z: Sizes, at: real, j: nat, k: nat)
    requires Positive(z) && j < k < Size(p) && DepthAt(p, j) == DepthAt(p, k)
    ensures Places(p, left, z, at)[j] < Places(p, left, z, at)[k]
  {
    hide Size, Places, Centre, Width, DepthAt, SubtreeAt;
    SizeSplit(p);
    TopAlone(p, k);
    var n := Size(p.left);
    if k - 1 < n {
      LeftAt(p, j - 1);
      LeftAt(p, k - 1);
      RowsGoRight(p.left, left, z, at, j - 1, k - 1);
      PlaceInLeft(p, left, z, at, j - 1);
      PlaceInLeft(p, left, z, at, k - 1);
    } else if j - 1 < n {
      LeftOfRight(p, left, z, at, j - 1, k - 1 - n);
    } else {
      RightAt(p, j - 1 - n);
      RightAt(p, k - 1 - n);
      RowsGoRight(p.right, left, z, at + Width(p.left, left, z), j - 1 - n, k - 1 - n);
      PlaceInRight(p, left, z, at, j - 1 - n);
      PlaceInRight(p, left, z, at, k - 1 - n);
    }
  }

  /** An inner node stands midway over its two children. */
  ghost predicate Midway(p: Tree, left: seq<int>, z: Sizes, at: real, k: nat)
    requires k < Size(p) && SubtreeAt(p, k).Inner?
  {
    var a, b := k + 1, k + 1 + Size(SubtreeAt(p, k).left);
    b < Size(p) && Places(p, left, z, at)[k] == (Places(p, left, z, at)[a] + Places(p, left, z, at)[b]) / 2.0
  }

  lemma TopPlace(p: Tree, left: seq<int>, z: Sizes, at: real)
    ensures Size(p) > 0 && Places(p, left, z, at)[0] == Centre(p, left, z, at)
  {
  }

  lemma MidwayTop(p: Tree, left: seq<int>, z: Sizes, at: real)
    requires p.Inner?
    ensures Midway(p, left, z, at, 0)
  {
    hide Centre, Preorder;
    SizePositive(p.left);
    SizePositive(p.right);
    TopPlace(p.left, left, z, at);
    TopPlace(p.right, left, z, at + Width(p.left, left, z));
    assert Places(p, left, z, at)[1] == Places(p.left, left, z, at)[0];
    assert Places(p, left, z, at)[1 + Size(p.left)] == Places(p.right, left, z, at + Width(p.left, left, z))[0];
    CentreOfInner(p, left, z, at);
    TopPlace(p, left, z, at);
  }

  lemma CentreOfInner(p: Tree, left: seq<int>, z: Sizes, at: real)
    requires p.Inner?
    ensures Centre(p, left, z, at)
         == (Centre(p.left, left, z, at) + Centre(p.right, left, z, at + Width(p.left, left, z))) / 2.0
  {
  }

  lemma {:induction false} MidwayAt(p: Tree, left: seq<int>, z: Sizes, at: real, k: nat)
    requires k < Size(p) && SubtreeAt(p, k).Inner?
    ensures Midway(p, left, z, at, k)
  {
    hide Size, Places, Width, Midway, SubtreeAt, DepthAt;
    SizeSplit(p);
    TopIsWhole(p);
    if k == 0 {
      MidwayTop(p, left, z, at);
    } else if k - 1 < Size(p.left) {
      LeftAt(p, k - 1);
      MidwayAt(p.left, left, z, at, k - 1);
      MidwayInLeft(p, left, z, at, k - 1);
    } else {
      RightAt(p, k - 1 - Size(p.left));
      MidwayAt(p.right, left, z, at + Width(p.left, left, z), k - 1 - Size(p.left));
      MidwayInRight(p, left, z, at, k - 1 - Size(p.left));
    }
  }

  lemma MidwayInLeft(p: Tree, left: seq<int>, z: Sizes, at: real, k: nat)
    requires p.Inner? && k < Size(p.left) && SubtreeAt(p.left, k).Inner? && Midway(p.left, left, z, at, k)
    ensures SubtreeAt(p, k + 1).Inner? && Midway(p, left, z, at, k + 1)
  {
    hide Centre, Preorder, Width, Places, SubtreeAt, DepthAt, Size;
    var b := k + 1 + Size(SubtreeAt(p.left, k).left);
    SizeSplit(p);
    LeftAt(p, k);
    PlaceInLeft(p, left, z, at, k);
    PlaceInLeft(p, left, z, at, k + 1);
    PlaceInLeft(p, left, z, at, b);
  }

  lemma MidwayInRight(p: Tree, left: seq<int>, z: Sizes, at: real, k: nat)
    requires p.Inner? && k < Size(p.right) && SubtreeAt(p.right, k).Inner?
    requires Midway(p.right, left, z, at + Width(p.left, left, z), k)
    ensures SubtreeAt(p, k + 1 + Size(p.left)).Inner? && Midway(p, left, z, at, k + 1 + Size(p.left))
  {
    hide Centre, Preorder, Width, Places, SubtreeAt, DepthAt, Size;
    var b := k + 1 + Size(SubtreeAt(p.right, k).left);
    SizeSplit(p);
    RightAt(p, k);
    PlaceInRight(p, left, z, at, k);
    PlaceInRight(p, left, z, at, k + 1);
    PlaceInRight(p, left, z, at, b);
  }

  // ---- the drawn tree's depths ----

  lemma {:induction false} PrunedDepths(t: Tree, d: nat, depth: seq<nat>, expanded: Mask)
    requires IdsBelow(t, |expanded|) && DepthsIn(t, d, depth)
    ensures DepthsIn(Prune(t, expanded), d, depth)
  {
    if t.Inner? && expanded[t.id] {
      PrunedDepths(t.left, d + 1, depth, expanded);
      PrunedDepths(t.right, d + 1, depth, expanded);
    }
  }

  lemma {:induction false} DepthOf(p: Tree, d: nat, depth: seq<nat>, k: nat)
    requires DepthsIn(p, d, depth) && k < Size(p)
    ensures Preorder(p)[k] < |depth| && depth[Preorder(p)[k]] == d + DepthAt(p, k)
  {
    if k > 0 {
      if k - 1 < Size(p.left) {
        DepthOf(p.left, d + 1, depth, k - 1);
      } else {
        DepthOf(p.right, d + 1, depth, k - 1 - Size(p.left));
      }
    }
  }

  lemma {:induction false} PrunedIds(t: Tree, expanded: Mask)
    requires IdsBelow(t, |expanded|)
    ensures forall i :: i in Preorder(Prune(t, expanded)) ==> i in Preorder(t) && i < |expanded|
  {
    assert Preorder(t)[0] == t.id;
    if t.Inner? && expanded[t.id] {
      PrunedIds(t.left, expanded);
      PrunedIds(t.right, expanded);
    }
  }

  lemma {:induction false} PrunedDistinct(t: Tree, expanded: Mask)
    requires IdsBelow(t, |expanded|) && Distinct(Preorder(t))
    ensures Distinct(Preorder(Prune(t, expanded)))
  {
    if t.Inner? && expanded[t.id] {
      SplitDistinct(t);
      PrunedDistinct(t.left, expanded);
      PrunedDistinct(t.right, expanded);
      PrunedIds(t.left, expanded);
      PrunedIds(t.right, expanded);
      JoinDistinct(t.id, Preorder(Prune(t.left, expanded)), Preorder(Prune(t.right, expanded)));
    }
  }

  lemma JoinDistinct(id: nat, a: seq<nat>, b: seq<nat>)
    requires Distinct(a) && Distinct(b) && id !in a && id !in b && forall i :: !(i in a && i in b)
    ensures Distinct([id] + (a + b))
  {
    var s := [id] + (a + b);
    forall i, j | 0 <= i < j < |s| ensures s[i] != s[j] {
      if i == 0 { assert s[j] in a || s[j] in b; } else if i - 1 < |a| <= j - 1 { assert s[i] in a && s[j] in b; }
    }
  }

  /** A node is drawn with its children when the tables give it two and it is marked. */
  ghost predicate Drawing(p: Tree, left: seq<int>, right: seq<int>, expanded: Mask)
    requires |left| == |right| == |expanded|
  {
    && p.id < |left| && (p.Inner? <==> left[p.id] >= 0 && expanded[p.id])
    && (p.Inner? ==> left[p.id] == p.left.id && right[p.id] == p.right.id
                     && Drawing(p.left, left, right, expanded) && Drawing(p.right, left, right, expanded))
  }

  lemma {:induction false} PrunedDrawing(t: Tree, left: seq<int>, right: seq<int>, expanded: Mask)
    requires |left| == |right| == |expanded| && Matches(t, left, right) && IdsBelow(t, |expanded|)
    ensures Drawing(Prune(t, expanded), left, right, expanded)
  {
    if t.Inner? && expanded[t.id] {
      PrunedDrawing(t.left, left, right, expanded);
      PrunedDrawing(t.right, left, right, expanded);
    }
  }

  lemma {:induction false} DrawingAt(p: Tree, left: seq<int>, right: seq<int>, expanded: Mask, k: nat)
    requires |left| == |right| == |expanded| && Drawing(p, left, right, expanded) && k < Size(p)
    ensures Drawing(SubtreeAt(p, k), left, right, expanded)
  {
    if k > 0 {
      if k - 1 < Size(p.left) {
        DrawingAt(p.left, left, right, expanded, k - 1);
      } else {
        DrawingAt(p.right, left, right, expanded, k - 1 - Size(p.left));
      }
    }
  }

  /** The depths a read tree is measured with are the ones the drawing is laid out by. */
  lemma {:induction false} MeasuredDepths(m: Measures, t: Tree, n: nat, k: nat)
    requires Measured(m, t, n) && k < Size(t)
    ensures DepthsIn(SubtreeAt(t, k), DepthAt(t, k), m.depth)
    decreases Size(SubtreeAt(t, k))
  {
    hide Preorder, SubtreeAt, DepthAt;
    TopAt(t, k);
    assert DepthTold(t, k, m.pre, m.depth);
    var s := SubtreeAt(t, k);
    if s.Inner? {
      ChildrenAt(t, k);
      SplitCounts(s);
      SizePositive(s.left);
      SizePositive(s.right);
      MeasuredDepths(m, t, n, k + 1);
      MeasuredDepths(m, t, n, k + 1 + Size(s.left));
    }
  }

  // ---- the walk that gives each drawn leaf its slot ----

  ghost function PlacesAll(ts: seq<Tree>, left: seq<int>, z: Sizes, at: real): seq<real> {
    if ts == [] then []
    else Places(ts[0], left, z, at) + PlacesAll(ts[1..], left, z, at + Width(ts[0], left, z))
  }

  lemma PlacesOpened(s: Tree, rest: seq<Tree>, left: seq<int>, z: Sizes, at: real)
    requires s.Inner?
    ensures PlacesAll([s] + rest, left, z, at)
         == [Centre(s, left, z, at)] + PlacesAll([s.left, s.right] + rest, left, z, at)
  {
    var after := [s.left, s.right] + rest;
    assert ([s] + rest)[1..] == rest && after[1..] == [s.right] + rest && after[1..][1..] == rest;
    assert at + Width(s, left, z) == at + Width(s.left, left, z) + Width(s.right, left, z);
  }

  lemma PlacesLeaf(s: Tree, rest: seq<Tree>, left: seq<int>, z: Sizes, at: real)
    requires s.Leaf?
    ensures PlacesAll([s] + rest, left, z, at)
         == [at + SlotWidth(left, z, s.id) / 2.0] + PlacesAll(rest, left, z, at + SlotWidth(left, z, s.id))
  {
    assert ([s] + rest)[1..] == rest;
  }

  ghost function WidthAll(ts: seq<Tree>, left: seq<int>, z: Sizes): real {
    if ts == [] then 0.0 else Width(ts[0], left, z) + WidthAll(ts[1..], left, z)
  }

  lemma WidthOpened(s: Tree, rest: seq<Tree>, left: seq<int>, z: Sizes)
    ensures s.Inner? ==> WidthAll([s] + rest, left, z) == WidthAll([s.left, s.right] + rest, left, z)
    ensures s.Leaf? ==> WidthAll([s] + rest, left, z) == SlotWidth(left, z, s.id) + WidthAll(rest, left, z)
  {
    assert ([s] + rest)[1..] == rest;
    if s.Inner? {
      var after := [s.left, s.right] + rest;
      assert after[1..] == [s.right] + rest && after[1..][1..] == rest;
    }
  }

  /** What is drawn so far and what waits on the stack make up the whole drawing. */
  ghost predicate Laying(p: Tree, order: seq<nat>, ts: seq<Tree>, cursor: real, left: seq<int>, z: Sizes) {
    && Preorder(p) == order + PreorderAll(ts)
    && |order| <= Size(p) && Places(p, left, z, 0.0)[|order|..] == PlacesAll(ts, left, z, cursor)
    && cursor + WidthAll(ts, left, z) == Width(p, left, z)
    && |order| + TotalSize(ts) == Size(p)
  }

  lemma LayingStarts(p: Tree, left: seq<int>, z: Sizes)
    ensures Laying(p, [], [p], 0.0, left, z)
  {
    hide Preorder, Places, Width;
    PreorderOfOne(p);
    assert [p][1..] == [] && [p][..0] == [];
    assert PlacesAll([p], left, z, 0.0)
        == Places(p, left, z, 0.0) + PlacesAll([p][1..], left, z, 0.0 + Width(p, left, z));
    assert WidthAll([p], left, z) == Width(p, left, z) + WidthAll([p][1..], left, z);
    TotalSizeSplit([p], 0);
    assert [p][0..] == [p];
    assert Places(p, left, z, 0.0)[0..] == Places(p, left, z, 0.0);
  }

  lemma LayingInner(p: Tree, order: seq<nat>, ts: seq<Tree>, cursor: real, left: seq<int>, z: Sizes)
    requires Laying(p, order, ts, cursor, left, z) && ts != [] && ts[0].Inner?
    ensures Laying(p, order + [ts[0].id], [ts[0].left, ts[0].right] + ts[1..], cursor, left, z)
  {
    hide Preorder, Places, Width, Centre, PlacesAll, WidthAll, PreorderAll;
    var s, rest := ts[0], ts[1..];
    assert ts == [s] + rest;
    PreorderAllOpened(s, rest);
    PlacesOpened(s, rest, left, z, cursor);
    WidthOpened(s, rest, left, z);
    SizeOpened(ts);
    NextPlaces(Places(p, left, z, 0.0), |order|, PlacesAll([s.left, s.right] + rest, left, z, cursor));
  }

  lemma LayingLeaf(p: Tree, order: seq<nat>, ts: seq<Tree>, cursor: real, left: seq<int>, z: Sizes)
    requires Laying(p, order, ts, cursor, left, z) && ts != [] && ts[0].Leaf?
    ensures Laying(p, order + [ts[0].id], ts[1..], cursor + SlotWidth(left, z, ts[0].id), left, z)
    ensures |order| < Size(p) && Places(p, left, z, 0.0)[|order|] == cursor + SlotWidth(left, z, ts[0].id) / 2.0
  {
    hide Preorder, Places, Width, Centre, PlacesAll, WidthAll, PreorderAll, SlotWidth;
    var s, rest := ts[0], ts[1..];
    assert ts == [s] + rest;
    PreorderAllLeaf(s, rest);
    PlacesLeaf(s, rest, left, z, cursor);
    WidthOpened(s, rest, left, z);
    SizeOpened(ts);
    NextPlaces(Places(p, left, z, 0.0), |order|, PlacesAll(rest, left, z, cursor + SlotWidth(left, z, s.id)));
  }

  lemma SizeOpened(ts: seq<Tree>)
    requires ts != []
    ensures TotalSize(ts) > TotalSize(ts[1..])
    ensures ts[0].Leaf? ==> TotalSize(ts) == 1 + TotalSize(ts[1..])
    ensures ts[0].Inner? ==> TotalSize(ts) == 1 + TotalSize([ts[0].left, ts[0].right] + ts[1..])
  {
    TotalSizeSplit(ts, 0);
    SizePositive(ts[0]);
    assert ts[0..] == ts;
    if ts[0].Inner? {
      var after := [ts[0].left, ts[0].right] + ts[1..];
      TotalSizeSplit(after, 0);
      TotalSizeSplit(after, 1);
      assert after[0..] == after && after[2..] == ts[1..];
    }
  }

  lemma NextPlaces(whole: seq<real>, k: nat, rest: seq<real>)
    requires k < |whole| && |whole[k..]| > 0 && whole[k..] == [whole[k..][0]] + rest
    ensures whole[k + 1..] == rest
  {
  }

  /** Drawn leaves before place `k` stand where they should. */
  ghost predicate LeavesPlaced(p: Tree, x: seq<real>, left: seq<int>, z: Sizes, k: nat) {
    forall i: nat :: i < k && i < Size(p) && SubtreeAt(p, i).Leaf? ==> PlacedAt(p, x, left, z, i)
  }

  ghost predicate PlacedAt(p: Tree, x: seq<real>, left: seq<int>, z: Sizes, i: nat)
    requires i < Size(p)
  {
    Preorder(p)[i] < |x| && x[Preorder(p)[i]] == Places(p, left, z, 0.0)[i]
  }

  lemma PlacedStays(p: Tree, x: seq<real>, left: seq<int>, z: Sizes, i: nat, k: nat, v: real)
    requires i < Size(p) && k < Size(p) && i != k && Distinct(Preorder(p)) && PlacedAt(p, x, left, z, i)
              && Preorder(p)[k] < |x|
    ensures PlacedAt(p, x[Preorder(p)[k] := v], left, z, i)
  {
  }

  function CountCollapsed(order: seq<nat>, left: seq<int>, expanded: Mask): nat
    requires |left| == |expanded| && forall i :: 0 <= i < |order| ==> order[i] < |left|
  {
    if order == [] then 0
    else
      var id := order[|order| - 1];
      CountCollapsed(order[..|order| - 1], left, expanded) + if left[id] >= 0 && !expanded[id] then 1 else 0
  }

  ghost predicate AllDrawing(ts: seq<Tree>, left: seq<int>, right: seq<int>, expanded: Mask)
    requires |left| == |right| == |expanded|
  {
    forall i :: 0 <= i < |ts| ==> Drawing(ts[i], left, right, expanded)
  }

  /** The walk's state: what is drawn, what waits, and the places given so far. */
  ghost predicate SlotState(p: Tree, left: seq<int>, right: seq<int>, expanded: Mask, z: Sizes, order: seq<nat>,
                            stack: seq<nat>, ts: seq<Tree>, cursor: real, x: seq<real>)
    requires |left| == |right| == |expanded|
  {
    && Laying(p, order, ts, cursor, left, z) && Rooted(ts, stack) && AllDrawing(ts, left, right, expanded)
    && LeavesPlaced(p, x, left, z, |order|)
  }

  lemma TopOfStack(p: Tree, left: seq<int>, right: seq<int>, expanded: Mask, z: Sizes, order: seq<nat>, stack: seq<nat>,
                   ts: seq<Tree>, cursor: real, x: seq<real>, depth: seq<nat>)
    requires |left| == |right| == |expanded| && SlotState(p, left, right, expanded, z, order, stack, ts, cursor, x)
    requires stack != [] && DepthsIn(p, 0, depth)
    ensures |order| < Size(p) && |order| + |stack| <= Size(p) && ts != []
              && stack[|stack| - 1] == ts[0].id == Preorder(p)[|order|]
    ensures ts[0].id < |depth| && depth[ts[0].id] == DepthAt(p, |order|)
    ensures ts[0].id < |left| && (ts[0].Inner? <==> left[ts[0].id] >= 0 && expanded[ts[0].id])
    ensures ts[0].Inner? ==> left[ts[0].id] == ts[0].left.id && right[ts[0].id] == ts[0].right.id
  {
    hide DepthsIn, Preorder, LeavesPlaced, DepthAt, Laying;
    TopDrawn(p, order, ts, cursor, left, z);
    DepthOf(p, 0, depth, |order|);
    assert Drawing(ts[0], left, right, expanded);
  }

  lemma TopDrawn(p: Tree, order: seq<nat>, ts: seq<Tree>, cursor: real, left: seq<int>, z: Sizes)
    requires Laying(p, order, ts, cursor, left, z) && ts != []
    ensures |order| < Size(p) && |order| + |ts| <= Size(p) && Preorder(p)[|order|] == ts[0].id
  {
    hide Preorder, Places, Width, PlacesAll, WidthAll, PreorderAll, TotalSize;
    SizeOpened(ts);
    TotalAtLeast(ts);
    TopOfForest(ts);
  }

  lemma TopOfForest(ts: seq<Tree>)
    requires ts != []
    ensures |PreorderAll(ts)| > 0 && PreorderAll(ts)[0] == ts[0].id
  {
  }

  lemma InnerLaid(p: Tree, left: seq<int>, right: seq<int>, expanded: Mask, z: Sizes, order: seq<nat>, stack: seq<nat>,
                  ts: seq<Tree>, cursor: real, x: seq<real>)
    requires |left| == |right| == |expanded| && SlotState(p, left, right, expanded, z, order, stack, ts, cursor, x)
    requires Drawing(p, left, right, expanded) && ts != [] && ts[0].Inner?
    ensures SlotState(p, left, right, expanded, z, order + [ts[0].id],
                      stack[..|stack| - 1] + [ts[0].right.id, ts[0].left.id],
                      [ts[0].left, ts[0].right] + ts[1..], cursor, x)
  {
    hide Laying, PlacedAt, SubtreeAt;
    assert Drawing(ts[0], left, right, expanded);
    LayingInner(p, order, ts, cursor, left, z);
    SameKind(p, left, right, expanded, order, ts, cursor, z);
  }

  /** The node now drawn is of the kind its waiting tree is. */
  lemma SameKind(p: Tree, left: seq<int>, right: seq<int>, expanded: Mask, order: seq<nat>, ts: seq<Tree>, cursor: real,
                 z: Sizes)
    requires |left| == |right| == |expanded| && Laying(p, order, ts, cursor, left, z) && ts != []
    requires Drawing(p, left, right, expanded) && Drawing(ts[0], left, right, expanded)
    ensures |order| < Size(p) && Preorder(p)[|order|] == ts[0].id && (SubtreeAt(p, |order|).Leaf? <==> ts[0].Leaf?)
  {
    hide Preorder, Places, Width, PlacesAll, WidthAll, SubtreeAt;
    SizeOpened(ts);
    TopOfForest(ts);
    TopAt(p, |order|);
    DrawingAt(p, left, right, expanded, |order|);
  }

  lemma LeavesPlacedNext(p: Tree, x: seq<real>, left: seq<int>, z: Sizes, k: nat, v: real)
    requires k < Size(p) && Distinct(Preorder(p)) && Preorder(p)[k] < |x| && v == Places(p, left, z, 0.0)[k]
    requires LeavesPlaced(p, x, left, z, k)
    ensures LeavesPlaced(p, x[Preorder(p)[k] := v], left, z, k + 1)
  {
    hide SubtreeAt, Preorder, Places, PlacedAt, Size;
    var x' := x[Preorder(p)[k] := v];
    PlacedHere(p, x, left, z, k, v);
    forall i: nat | i < k + 1 && i < Size(p) && SubtreeAt(p, i).Leaf? ensures PlacedAt(p, x', left, z, i) {
      if i < k { PlacedStays(p, x, left, z, i, k, v); }
    }
  }

  lemma LeafLaid(p: Tree, left: seq<int>, right: seq<int>, expanded: Mask, z: Sizes, order: seq<nat>, stack: seq<nat>,
                 ts: seq<Tree>, cursor: real, x: seq<real>)
    requires |left| == |right| == |expanded| == |x|
              && SlotState(p, left, right, expanded, z, order, stack, ts, cursor, x)
    requires Drawing(p, left, right, expanded) && Distinct(Preorder(p)) && ts != [] && ts[0].Leaf? && ts[0].id < |left|
    ensures SlotState(p, left, right, expanded, z, order + [ts[0].id], stack[..|stack| - 1], ts[1..],
                      cursor + SlotWidth(left, z, ts[0].id), x[ts[0].id := cursor + SlotWidth(left, z, ts[0].id) / 2.0])
  {
    hide Laying, SubtreeAt, Preorder, Places, SlotWidth, LeavesPlaced, Drawing, Size;
    LayingLeaf(p, order, ts, cursor, left, z);
    SameKind(p, left, right, expanded, order, ts, cursor, z);
    LeavesPlacedNext(p, x, left, z, |order|, cursor + SlotWidth(left, z, ts[0].id) / 2.0);
  }

  lemma PlacedHere(p: Tree, x: seq<real>, left: seq<int>, z: Sizes, k: nat, v: real)
    requires k < Size(p) && Preorder(p)[k] < |x| && v == Places(p, left, z, 0.0)[k]
    ensures PlacedAt(p, x[Preorder(p)[k] := v], left, z, k)
  {
  }

  /** The drawn nodes are nodes of the tables, and the collapsed ones among them are counted. */
  ghost predicate Tallied(order: seq<nat>, left: seq<int>, expanded: Mask, collapsed: nat)
    requires |left| == |expanded|
  {
    (forall i :: 0 <= i < |order| ==> order[i] < |left|) && collapsed == CountCollapsed(order, left, expanded)
  }

  lemma NothingTallied(left: seq<int>, expanded: Mask)
    requires |left| == |expanded|
    ensures Tallied([], left, expanded, 0)
  {
  }

  lemma TalliedNext(order: seq<nat>, left: seq<int>, expanded: Mask, collapsed: nat, id: nat)
    requires |left| == |expanded| && id < |left| && Tallied(order, left, expanded, collapsed)
    ensures Tallied(order + [id], left, expanded, collapsed + if left[id] >= 0 && !expanded[id] then 1 else 0)
  {
    assert (order + [id])[..|order|] == order;
  }

  /** Draws the nodes depth first, left child first, giving each drawn leaf the next slot. */
  method PlaceSlots(left: seq<int>, right: seq<int>, depth: seq<nat>, root: nat, expanded: Mask, z: Sizes,
                    x: array<real>, ghost p: Tree)
    returns (nodes: seq<nat>, width: real, collapsed: nat, deepest: nat)
    requires |left| == |right| == |expanded| == |depth| == x.Length && Drawing(p, left, right, expanded) && p.id == root
    requires Distinct(Preorder(p)) && Size(p) <= |left| && DepthsIn(p, 0, depth)
    modifies x
    ensures nodes == Preorder(p) && width == Width(p, left, z) && deepest == Height(p)
    ensures LeavesPlaced(p, x[..], left, z, |nodes|)
    ensures Tallied(nodes, left, expanded, collapsed)
  {
    hide Laying, Drawing, DepthsIn, LeavesPlaced, Rooted, AllDrawing, SlotState, DeepestOf, Tallied, DepthAt, Preorder,
         Size, Width, Height;
    var n := |left|;
    var drawnNodes := new nat[n](_ => 0);
    var stack := new nat[n + 1](_ => 0);
    var top: nat, drawn: nat, cursor := 1, 0, 0.0;
    collapsed, deepest := 0, 0;
    stack[0] := root;
    ghost var ts := [p];
    SlotsStart(p, left, right, expanded, z, x[..]);
    NothingTallied(left, expanded);
    assert stack[..1] == [root] && drawnNodes[..0] == [];
    while top > 0
      invariant top <= n + 1 && drawn <= n
      invariant SlotState(p, left, right, expanded, z, drawnNodes[..drawn], stack[..top], ts, cursor, x[..])
      invariant DeepestOf(p, drawn, deepest)
      invariant Tallied(drawnNodes[..drawn], left, expanded, collapsed)
      decreases n - drawn
    {
      ghost var order, s0, x0 := drawnNodes[..drawn], stack[..top], x[..];
      TopOfStack(p, left, right, expanded, z, order, s0, ts, cursor, x0, depth);
      top := top - 1;
      var node := stack[top];
      drawnNodes[drawn] := node;
      drawn := drawn + 1;
      assert drawnNodes[..drawn] == order + [node] && stack[..top] == s0[..|s0| - 1];
      DeepestNext(p, drawn - 1, deepest);
      TalliedNext(order, left, expanded, collapsed, node);
      if depth[node] > deepest { deepest := depth[node]; }
      if left[node] >= 0 && expanded[node] {
        InnerLaid(p, left, right, expanded, z, order, s0, ts, cursor, x0);
        stack[top] := right[node];
        stack[top + 1] := left[node];
        top := top + 2;
        assert stack[..top] == s0[..|s0| - 1] + [right[node], left[node]];
        ts := [ts[0].left, ts[0].right] + ts[1..];
      } else {
        LeafLaid(p, left, right, expanded, z, order, s0, ts, cursor, x0);
        var slot := if left[node] < 0 then z.slot else z.stub;
        if left[node] >= 0 { collapsed := collapsed + 1; }
        x[node] := cursor + slot / 2.0;
        cursor := cursor + slot;
        assert x[..] == x0[node := x[node]];
        ts := ts[1..];
      }
    }
    SlotsEnd(p, left, right, expanded, z, drawnNodes[..drawn], stack[..0], ts, cursor, x[..], deepest);
    return drawnNodes[..drawn], cursor, collapsed, deepest;
  }

  lemma SlotsStart(p: Tree, left: seq<int>, right: seq<int>, expanded: Mask, z: Sizes, x: seq<real>)
    requires |left| == |right| == |expanded| && Drawing(p, left, right, expanded)
    ensures SlotState(p, left, right, expanded, z, [], [p.id], [p], 0.0, x) && DeepestOf(p, 0, 0)
  {
    hide Laying;
    DeepestNone(p);
    LayingStarts(p, left, z);
  }

  lemma SlotsEnd(p: Tree, left: seq<int>, right: seq<int>, expanded: Mask, z: Sizes, order: seq<nat>, stack: seq<nat>,
                 ts: seq<Tree>, cursor: real, x: seq<real>, deepest: nat)
    requires |left| == |right| == |expanded| && SlotState(p, left, right, expanded, z, order, stack, ts, cursor, x)
              && stack == []
    requires DeepestOf(p, |order|, deepest)
    ensures order == Preorder(p) && cursor == Width(p, left, z) && LeavesPlaced(p, x, left, z, |order|)
              && deepest == Height(p)
  {
    hide Preorder, Width, Height, DepthAt, Places, LeavesPlaced;
    assert order + [] == order;
    assert |order| == Size(p);
    HeightIs(p, deepest);
  }

  // ---- inner nodes over their children ----

  /** Every drawn node stands where it should. */
  ghost predicate AllPlaced(p: Tree, x: seq<real>, left: seq<int>, z: Sizes, from: nat) {
    forall i: nat :: from <= i < Size(p) ==> PlacedAt(p, x, left, z, i)
  }

  /** Places the inner nodes last to first, so both children stand before their parent. */
  method PlaceInners(left: seq<int>, right: seq<int>, expanded: Mask, nodes: seq<nat>, z: Sizes, x: array<real>,
                     ghost p: Tree)
    requires |left| == |right| == |expanded| == x.Length && Drawing(p, left, right, expanded) && Distinct(Preorder(p))
    requires nodes == Preorder(p) && (forall i :: 0 <= i < |nodes| ==> nodes[i] < |left|)
              && LeavesPlaced(p, x[..], left, z, |nodes|)
    modifies x
    ensures AllPlaced(p, x[..], left, z, 0)
  {
    hide Drawing, Preorder, SubtreeAt, PlacedAt, Size, AllPlaced, LeavesPlaced;
    var i: nat := |nodes|;
    NoneFrom(p, x[..], left, z);
    while i > 0
      invariant i <= |nodes| && AllPlaced(p, x[..], left, z, i) && LeavesPlaced(p, x[..], left, z, i)
    {
      i := i - 1;
      var node := nodes[i];
      ghost var x0 := x[..];
      KindAt(p, left, right, expanded, i);
      if left[node] >= 0 && expanded[node] {
        ghost var a, b := ChildPlaces(p, left, right, expanded, i);
        InnerPlace(p, left, z, x0, i, a, b, (x[left[node]] + x[right[node]]) / 2.0);
        x[node] := (x[left[node]] + x[right[node]]) / 2.0;
        assert x[..] == x0[node := x[node]];
      } else {
        LeafPlace(p, x0, left, z, i);
      }
    }
  }

  lemma NoneFrom(p: Tree, x: seq<real>, left: seq<int>, z: Sizes)
    ensures AllPlaced(p, x, left, z, |Preorder(p)|)
  {
  }

  lemma KindAt(p: Tree, left: seq<int>, right: seq<int>, expanded: Mask, k: nat)
    requires |left| == |right| == |expanded| && Drawing(p, left, right, expanded) && k < Size(p)
    ensures Preorder(p)[k] < |left|
    ensures SubtreeAt(p, k).Inner? <==> left[Preorder(p)[k]] >= 0 && expanded[Preorder(p)[k]]
  {
    hide Preorder, SubtreeAt;
    DrawingAt(p, left, right, expanded, k);
    TopAt(p, k);
  }

  lemma LeafPlace(p: Tree, x: seq<real>, left: seq<int>, z: Sizes, k: nat)
    requires k < Size(p) && SubtreeAt(p, k).Leaf? && AllPlaced(p, x, left, z, k + 1)
              && LeavesPlaced(p, x, left, z, k + 1)
    ensures AllPlaced(p, x, left, z, k) && LeavesPlaced(p, x, left, z, k)
  {
    hide Preorder, SubtreeAt, PlacedAt, Size;
    assert PlacedAt(p, x, left, z, k);
  }

  lemma InnerPlace(p: Tree, left: seq<int>, z: Sizes, x: seq<real>, k: nat, a: nat, b: nat, v: real)
    requires Distinct(Preorder(p)) && k < Size(p) && Preorder(p)[k] < |x| && SubtreeAt(p, k).Inner?
    requires a == k + 1 && b == a + Size(SubtreeAt(p, k).left) && a < b < Size(p)
    requires AllPlaced(p, x, left, z, k + 1) && LeavesPlaced(p, x, left, z, k + 1)
    requires Preorder(p)[a] < |x| && Preorder(p)[b] < |x| && v == (x[Preorder(p)[a]] + x[Preorder(p)[b]]) / 2.0
    ensures AllPlaced(p, x[Preorder(p)[k] := v], left, z, k) && LeavesPlaced(p, x[Preorder(p)[k] := v], left, z, k)
  {
    hide Preorder, SubtreeAt, PlacedAt, Places, Size, LeavesPlaced;
    assert PlacedAt(p, x, left, z, a) && PlacedAt(p, x, left, z, b);
    hide AllPlaced;
    PlaceRead(p, x, left, z, a);
    PlaceRead(p, x, left, z, b);
    MidwayValue(p, left, z, k, a, b);
    PlacedHere(p, x, left, z, k, v);
    AllPlacedNext(p, x, left, z, k, v);
  }

  lemma MidwayValue(p: Tree, left: seq<int>, z: Sizes, k: nat, a: nat, b: nat)
    requires k < Size(p) && SubtreeAt(p, k).Inner? && a == k + 1 && b == a + Size(SubtreeAt(p, k).left)
              && a < b < Size(p)
    ensures Places(p, left, z, 0.0)[k] == (Places(p, left, z, 0.0)[a] + Places(p, left, z, 0.0)[b]) / 2.0
  {
    hide SubtreeAt, Places, Size;
    MidwayAt(p, left, z, 0.0, k);
  }

  lemma PlaceRead(p: Tree, x: seq<real>, left: seq<int>, z: Sizes, k: nat)
    requires k < Size(p) && PlacedAt(p, x, left, z, k)
    ensures Preorder(p)[k] < |x| && x[Preorder(p)[k]] == Places(p, left, z, 0.0)[k]
  {
  }

  lemma AllPlacedNext(p: Tree, x: seq<real>, left: seq<int>, z: Sizes, k: nat, v: real)
    requires k < Size(p) && Distinct(Preorder(p)) && Preorder(p)[k] < |x|
              && PlacedAt(p, x[Preorder(p)[k] := v], left, z, k)
    requires SubtreeAt(p, k).Inner? && AllPlaced(p, x, left, z, k + 1) && LeavesPlaced(p, x, left, z, k + 1)
    ensures AllPlaced(p, x[Preorder(p)[k] := v], left, z, k) && LeavesPlaced(p, x[Preorder(p)[k] := v], left, z, k)
  {
    hide Preorder, SubtreeAt, PlacedAt, Places, Size;
    var x' := x[Preorder(p)[k] := v];
    forall i: nat | k <= i < Size(p) ensures PlacedAt(p, x', left, z, i) {
      if i > k { PlacedStays(p, x, left, z, i, k, v); }
    }
    forall i: nat | i < k && i < Size(p) && SubtreeAt(p, i).Leaf? ensures PlacedAt(p, x', left, z, i) {
      PlacedStays(p, x, left, z, i, k, v);
    }
  }

  /** Where a drawn inner node's children stand in the preorder, by its table entries. */
  lemma ChildPlaces(p: Tree, left: seq<int>, right: seq<int>, expanded: Mask, k: nat) returns (a: nat, b: nat)
    requires |left| == |right| == |expanded| && Drawing(p, left, right, expanded) && k < Size(p)
              && SubtreeAt(p, k).Inner?
    ensures a == k + 1 && b == a + Size(SubtreeAt(p, k).left) && a < b < Size(p)
    ensures Preorder(p)[k] < |left| && Preorder(p)[a] < |left| && Preorder(p)[b] < |left|
    ensures left[Preorder(p)[k]] == Preorder(p)[a] && right[Preorder(p)[k]] == Preorder(p)[b]
  {
    hide Preorder, SubtreeAt, Size, DepthAt;
    DrawingAt(p, left, right, expanded, k);
    TopAt(p, k);
    ChildrenAt(p, k);
    SizePositive(SubtreeAt(p, k).left);
    a, b := k + 1, k + 1 + Size(SubtreeAt(p, k).left);
    TopAt(p, a);
    TopAt(p, b);
  }

  // ---- the places told without the tree ----

  /** What a drawn node takes of the width: a leaf its slot, a closed subtree its stub, an expanded node nothing. */
  function Taking(left: seq<int>, expanded: Mask, z: Sizes, id: nat): real
    requires |left| == |expanded|
  {
    if id >= |left| then 0.0 else if left[id] < 0 then z.slot else if expanded[id] then 0.0 else z.stub
  }

  ghost function Taken(order: seq<nat>, left: seq<int>, expanded: Mask, z: Sizes): real
    requires |left| == |expanded|
  {
    if order == [] then 0.0 else Taking(left, expanded, z, order[0]) + Taken(order[1..], left, expanded, z)
  }

  lemma {:induction false} TakenTogether(a: seq<nat>, b: seq<nat>, left: seq<int>, expanded: Mask, z: Sizes)
    requires |left| == |expanded|
    ensures Taken(a + b, left, expanded, z) == Taken(a, left, expanded, z) + Taken(b, left, expanded, z)
  {
    hide Taking;
    if a == [] {
      assert a + b == b;
    } else {
      TakenTogether(a[1..], b, left, expanded, z);
      assert (a + b)[1..] == a[1..] + b;
    }
  }

  lemma TakenUnder(id: nat, a: seq<nat>, b: seq<nat>, left: seq<int>, expanded: Mask, z: Sizes)
    requires |left| == |expanded| && Taking(left, expanded, z, id) == 0.0
    ensures Taken([id] + (a + b), left, expanded, z) == Taken(a, left, expanded, z) + Taken(b, left, expanded, z)
  {
    hide Taking;
    TakenTogether(a, b, left, expanded, z);
    assert ([id] + (a + b))[1..] == a + b;
  }

  lemma PreorderSplit(p: Tree)
    ensures p.Leaf? ==> Preorder(p) == [p.id]
    ensures p.Inner? ==> Preorder(p) == [p.id] + (Preorder(p.left) + Preorder(p.right))
  {
  }

  /** The drawing is as wide as its slots and stubs together. */
  lemma {:induction false} WidthIsTaken(p: Tree, left: seq<int>, right: seq<int>, expanded: Mask, z: Sizes)
    requires |left| == |right| == |expanded| && Drawing(p, left, right, expanded)
    ensures Width(p, left, z) == Taken(Preorder(p), left, expanded, z)
  {
    hide Preorder;
    PreorderSplit(p);
    if p.Inner? {
      WidthIsTaken(p.left, left, right, expanded, z);
      WidthIsTaken(p.right, left, right, expanded, z);
      TakenUnder(p.id, Preorder(p.left), Preorder(p.right), left, expanded, z);
    } else {
      assert [p.id][1..] == [];
    }
  }

  /** A drawn leaf stands over the middle of its own width, after all that is taken before it. */
  lemma {:induction false} SlotsInOrder(p: Tree, left: seq<int>, right: seq<int>, expanded: Mask, z: Sizes, at: real,
                                        k: nat)
    requires |left| == |right| == |expanded| && Drawing(p, left, right, expanded)
    requires k < Size(p) && SubtreeAt(p, k).Leaf?
    ensures Places(p, left, z, at)[k] == at + Taken(Preorder(p)[..k], left, expanded, z)
                                         + Taking(left, expanded, z, Preorder(p)[k]) / 2.0
    decreases p
  {
    hide Preorder, Places, Taking, Width, Taken, Centre;
    PreorderSplit(p);
    SizeSplit(p);
    if p.Leaf? {
      TopPlace(p, left, z, at);
      LeafTop(p, left, right, expanded, z, at);
      assert Preorder(p)[..0] == [];
    } else if k - 1 < Size(p.left) {
      SlotsInOrder(p.left, left, right, expanded, z, at, k - 1);
      PlaceInLeft(p, left, z, at, k - 1);
      InnerTakes(p, left, right, expanded, z);
      TakenUnder(p.id, Preorder(p.left)[..k - 1], [], left, expanded, z);
      NothingTaken(left, expanded, z);
      assert Preorder(p)[..k] == [p.id] + (Preorder(p.left)[..k - 1] + []);
    } else {
      var j := k - 1 - Size(p.left);
      SlotsInOrder(p.right, left, right, expanded, z, at + Width(p.left, left, z), j);
      PlaceInRight(p, left, z, at, j);
      InnerTakes(p, left, right, expanded, z);
      TakenUnder(p.id, Preorder(p.left), Preorder(p.right)[..j], left, expanded, z);
      WidthIsTaken(p.left, left, right, expanded, z);
      assert Preorder(p)[..k] == [p.id] + (Preorder(p.left) + Preorder(p.right)[..j]);
    }
  }

  lemma NothingTaken(left: seq<int>, expanded: Mask, z: Sizes)
    requires |left| == |expanded|
    ensures Taken([], left, expanded, z) == 0.0
  {
  }

  lemma InnerTakes(p: Tree, left: seq<int>, right: seq<int>, expanded: Mask, z: Sizes)
    requires |left| == |right| == |expanded| && Drawing(p, left, right, expanded) && p.Inner?
    ensures Taking(left, expanded, z, p.id) == 0.0
    ensures Drawing(p.left, left, right, expanded) && Drawing(p.right, left, right, expanded)
  {
  }

  lemma LeafTop(p: Tree, left: seq<int>, right: seq<int>, expanded: Mask, z: Sizes, at: real)
    requires |left| == |right| == |expanded| && Drawing(p, left, right, expanded) && p.Leaf?
    ensures Centre(p, left, z, at) == at + Taken([], left, expanded, z) + Taking(left, expanded, z, p.id) / 2.0
  {
  }

  /** An expanded node midway over its children, any other over the middle of its own width. */
  ghost predicate Settled(nodes: seq<nat>, x: seq<real>, left: seq<int>, right: seq<int>, expanded: Mask, z: Sizes,
                          k: nat)
    requires |left| == |right| == |expanded| == |x| && k < |nodes|
  {
    var node := nodes[k];
    && node < |x|
    && if left[node] >= 0 && expanded[node]
       then 0 <= left[node] < |x| && 0 <= right[node] < |x| && x[node] == (x[left[node]] + x[right[node]]) / 2.0
       else x[node] == Taken(nodes[..k], left, expanded, z) + Taking(left, expanded, z, node) / 2.0
  }

  lemma NodeSettled(p: Tree, x: seq<real>, left: seq<int>, right: seq<int>, expanded: Mask, z: Sizes, k: nat)
    requires |left| == |right| == |expanded| == |x| && Drawing(p, left, right, expanded) && AllPlaced(p, x, left, z, 0)
    requires k < Size(p)
    ensures Settled(Preorder(p), x, left, right, expanded, z, k)
  {
    hide Preorder, Places, Taking, Taken, Drawing, SubtreeAt, DepthAt;
    KindAt(p, left, right, expanded, k);
    assert PlacedAt(p, x, left, z, k);
    PlaceRead(p, x, left, z, k);
    if SubtreeAt(p, k).Inner? {
      var a, b := ChildPlaces(p, left, right, expanded, k);
      assert PlacedAt(p, x, left, z, a) && PlacedAt(p, x, left, z, b);
      PlaceRead(p, x, left, z, a);
      PlaceRead(p, x, left, z, b);
      MidwayValue(p, left, z, k, a, b);
    } else {
      SlotsInOrder(p, left, right, expanded, z, 0.0, k);
    }
  }

  // ---- rows ----

  /** Each drawn node filed under its depth. */
  function Filed(nodes: seq<nat>, depth: seq<nat>): (r: seq<Item>)
    requires forall i :: 0 <= i < |nodes| ==> nodes[i] < |depth|
    ensures |r| == |nodes| && forall i :: 0 <= i < |r| ==> r[i] == (depth[nodes[i]], nodes[i])
  {
    seq(|nodes|, i requires 0 <= i < |nodes| => (depth[nodes[i]], nodes[i]))
  }

  /** Counts the nodes of each depth, sums, and files them with a copy of the starts. */
  method BuildRows(nodes: seq<nat>, depth: seq<nat>, deepest: nat) returns (rowStart: seq<nat>, rows: seq<nat>)
    requires forall i :: 0 <= i < |nodes| ==> nodes[i] < |depth| && depth[nodes[i]] <= deepest
    ensures IsIndex(rowStart, rows, Filed(nodes, depth), deepest + 1)
  {
    var items := Filed(nodes, depth);
    var starts := CountKeys(items, deepest + 1);
    SumStarts(starts, items, deepest + 1);
    var fill := new nat[starts.Length](i requires 0 <= i < starts.Length reads starts => starts[i]);
    assert fill[..] == starts[..];
    var flat := new nat[starts[deepest + 1]](_ => 0);
    NothingFilled(fill[..], flat[..], items, deepest + 1);
    rowStart := starts[..];
    Fill(fill, flat, items, deepest + 1);
    rows := flat[..];
    FilledIsIndex(rowStart, fill[..], rows, items, deepest + 1);
  }

  lemma FilledIsIndex(starts: seq<nat>, fill: seq<nat>, flat: seq<nat>, items: seq<Item>, numKeys: nat)
    requires KeysBelow(items, numKeys) && Filled(fill, flat, items, numKeys, |items|)
              && Summed(starts, items, numKeys, numKeys + 1)
    ensures IsIndex(starts, flat, items, numKeys)
  {
    assert items[..|items|] == items;
    forall k: nat | k < numKeys ensures KeySlice(starts, flat, items, k) {
      assert FilledKey(fill[k], flat, items, k, |items|);
    }
  }

  // ---- the whole layout ----

  datatype Layout = Layout(nodes: seq<nat>, collapsed: nat, deepest: nat, rowStart: seq<nat>, rows: seq<nat>,
                           width: real, height: real)

  /** The drawing of `p`: every node in its place, and the rows by depth. */
  ghost predicate LaidOut(l: Layout, x: seq<real>, p: Tree, left: seq<int>, depth: seq<nat>, z: Sizes) {
    && l.nodes == Preorder(p) && l.width == Width(p, left, z) && l.deepest == Height(p)
    && AllPlaced(p, x, left, z, 0) && DepthsIn(p, 0, depth)
    && (forall i :: 0 <= i < |l.nodes| ==> l.nodes[i] < |depth| && depth[l.nodes[i]] <= l.deepest)
    && IsIndex(l.rowStart, l.rows, Filed(l.nodes, depth), l.deepest + 1)
  }

  method LayoutTree(left: seq<int>, right: seq<int>, depth: seq<nat>, root: nat, expanded: Mask, z: Sizes,
                    x: array<real>, ghost t: Tree)
    returns (l: Layout)
    requires |left| == |right| == |expanded| == |depth| == x.Length && Matches(t, left, right) && t.id == root
    requires IdsBelow(t, |left|) && Distinct(Preorder(t)) && DepthsIn(t, 0, depth)
    modifies x
    ensures LaidOut(l, x[..], Prune(t, expanded), left, depth, z)
    ensures l.height == l.deepest as real * ROW + STUB_HEIGHT + LEAF_HEIGHT
              && Tallied(l.nodes, left, expanded, l.collapsed)
    ensures l.width == Taken(l.nodes, left, expanded, z)
    ensures forall k: nat :: k < |l.nodes| ==> Settled(l.nodes, x[..], left, right, expanded, z, k)
  {
    hide Matches, DepthsIn, Preorder, Prune, Width, Height, LeavesPlaced, AllPlaced, Drawing, Settled, Taken;
    ghost var p := Prune(t, expanded);
    DrawnTree(t, left, right, depth, expanded);
    var nodes, width, collapsed, deepest := PlaceSlots(left, right, depth, root, expanded, z, x, p);
    PlaceInners(left, right, expanded, nodes, z, x, p);
    forall i | 0 <= i < |nodes| ensures nodes[i] < |depth| && depth[nodes[i]] <= deepest {
      DepthOf(p, 0, depth, i);
      DepthBelowHeight(p, i);
    }
    var rowStart, rows := BuildRows(nodes, depth, deepest);
    l := Layout(nodes, collapsed, deepest, rowStart, rows, width, deepest as real * ROW + STUB_HEIGHT + LEAF_HEIGHT);
    WidthIsTaken(p, left, right, expanded, z);
    forall k: nat | k < |nodes| ensures Settled(nodes, x[..], left, right, expanded, z, k) {
      NodeSettled(p, x[..], left, right, expanded, z, k);
    }
  }

  lemma DrawnTree(t: Tree, left: seq<int>, right: seq<int>, depth: seq<nat>, expanded: Mask)
    requires |left| == |right| == |expanded| == |depth| && Matches(t, left, right)
    requires IdsBelow(t, |left|) && Distinct(Preorder(t)) && DepthsIn(t, 0, depth)
    ensures var p := Prune(t, expanded);
            p.id == t.id && Drawing(p, left, right, expanded) && Distinct(Preorder(p)) && Size(p) <= |left|
                && DepthsIn(p, 0, depth)
  {
    hide Matches, Preorder, DepthsIn, Drawing, Size;
    PrunedDrawing(t, left, right, expanded);
    PrunedDepths(t, 0, depth, expanded);
    PrunedDistinct(t, expanded);
    PrunedIds(t, expanded);
    FullWhenDistinct(Preorder(Prune(t, expanded)), |left|);
  }

  // ---- every row goes right ----

  ghost predicate GoesRight(x: seq<real>, row: seq<nat>) {
    && (forall i :: 0 <= i < |row| ==> row[i] < |x|)
    && forall i, j :: 0 <= i < j < |row| ==> x[row[i]] < x[row[j]]
  }

  lemma DrawnOrder(l: Layout, x: seq<real>, p: Tree, left: seq<int>, depth: seq<nat>, z: Sizes, i: nat, j: nat)
    requires LaidOut(l, x, p, left, depth, z) && Positive(z) && i < j < |l.nodes|
              && depth[l.nodes[i]] == depth[l.nodes[j]]
    ensures l.nodes[i] < |x| && l.nodes[j] < |x| && x[l.nodes[i]] < x[l.nodes[j]]
  {
    hide DepthsIn, Preorder, Places, Width, Height, DepthAt, IsIndex, PlacedAt;
    DepthOf(p, 0, depth, i);
    DepthOf(p, 0, depth, j);
    RowsGoRight(p, left, z, 0.0, i, j);
    assert PlacedAt(p, x, left, z, i) && PlacedAt(p, x, left, z, j);
    PlaceRead(p, x, left, z, i);
    PlaceRead(p, x, left, z, j);
  }

  lemma {:induction false} ValuesGoRight(l: Layout, x: seq<real>, p: Tree, left: seq<int>, depth: seq<nat>, z: Sizes,
                                         d: nat, k: nat)
    requires LaidOut(l, x, p, left, depth, z) && Positive(z) && k <= |l.nodes|
    ensures GoesRight(x, ValuesOf(Filed(l.nodes, depth)[..k], d))
  {
    hide DepthsIn, Preorder, Width, Height, IsIndex, AllPlaced;
    var items := Filed(l.nodes, depth);
    if k == 0 {
      assert items[..0] == [];
    } else {
      ValuesGoRight(l, x, p, left, depth, z, d, k - 1);
      CountNext(items, k - 1, d);
      if depth[l.nodes[k - 1]] == d {
        var row := ValuesOf(items[..k - 1], d);
        OneDrawn(l, x, p, left, depth, z, k - 1);
        forall w | w in row ensures w < |x| && x[w] < x[l.nodes[k - 1]] {
          ValuesMembers(items[..k - 1], d);
          var i :| 0 <= i < k - 1 && items[i] == (d, w);
          DrawnOrder(l, x, p, left, depth, z, i, k - 1);
        }
      }
    }
  }

  lemma OneDrawn(l: Layout, x: seq<real>, p: Tree, left: seq<int>, depth: seq<nat>, z: Sizes, i: nat)
    requires LaidOut(l, x, p, left, depth, z) && i < |l.nodes|
    ensures l.nodes[i] < |x|
  {
    assert PlacedAt(p, x, left, z, i);
  }

  /** The drawn nodes of one depth, as the layout lists them. */
  function Row(rowStart: seq<nat>, rows: seq<nat>, d: nat): seq<nat> {
    if d + 1 < |rowStart| && rowStart[d] <= rowStart[d + 1] <= |rows| then rows[rowStart[d]..rowStart[d + 1]] else []
  }

  /** A row lists exactly the drawn nodes of its depth, each further right than the one before. */
  lemma RowIsDepth(l: Layout, x: seq<real>, p: Tree, left: seq<int>, depth: seq<nat>, z: Sizes, d: nat)
    requires LaidOut(l, x, p, left, depth, z) && Positive(z) && d <= l.deepest
    ensures GoesRight(x, Row(l.rowStart, l.rows, d))
    ensures forall node: nat ::
              node in Row(l.rowStart, l.rows, d) <==> node in Preorder(p) && node < |depth| && depth[node] == d
  {
    hide DepthsIn, Preorder, Width, Height, AllPlaced, GoesRight;
    var items := Filed(l.nodes, depth);
    assert KeySlice(l.rowStart, l.rows, items, d);
    assert items[..|items|] == items;
    ValuesGoRight(l, x, p, left, depth, z, d, |l.nodes|);
    ValuesMembers(items, d);
    forall node: nat ensures node in ValuesOf(items, d) <==> node in l.nodes && node < |depth| && depth[node] == d {
      if node in l.nodes && node < |depth| && depth[node] == d {
        var i :| 0 <= i < |l.nodes| && l.nodes[i] == node;
        assert items[i] == (d, node);
      }
      if (d, node) in items {
        var i :| 0 <= i < |items| && items[i] == (d, node);
        assert l.nodes[i] == node;
      }
    }
  }

  // ---- the node under a point ----

  function RowNear(wy: real): int { (wy / ROW + 0.5).Floor }

  predicate OffRow(dy: real, reach: real) { dy < -LEAF_HEIGHT / 2.0 - reach || dy > STUB_HEIGHT + 6.0 + reach }

  function Distance(a: real, b: real): real { if a < b then b - a else a - b }

  /** The point lies beside a row of the drawing. */
  predicate OnRow(deepest: nat, wy: real, reach: real) {
    var d := RowNear(wy);
    0 <= d <= deepest && !OffRow(wy - d as real * ROW, reach)
  }

  /** `node` is the nearest of a row, the left one of two as near. */
  ghost predicate Nearest(x: seq<real>, row: seq<nat>, wx: real, node: nat) {
    && node in row && node < |x|
    && forall m :: m in row && m < |x| ==>
         Distance(x[node], wx) <= Distance(x[m], wx)
             && (Distance(x[node], wx) == Distance(x[m], wx) ==> x[node] <= x[m])
  }

  /** The first place of a row that is not left of the point. */
  method SearchRow(row: seq<nat>, x: seq<real>, wx: real) returns (low: nat)
    requires GoesRight(x, row)
    ensures low <= |row|
    ensures forall i :: 0 <= i < low ==> x[row[i]] < wx
    ensures forall i :: low <= i < |row| ==> x[row[i]] >= wx
  {
    low := 0;
    var high := |row|;
    while low < high
      invariant low <= high <= |row|
      invariant forall i :: 0 <= i < low ==> x[row[i]] < wx
      invariant forall i :: high <= i < |row| ==> x[row[i]] >= wx
    {
      var mid := (low + high) / 2;
      if x[row[mid]] < wx { low := mid + 1; } else { high := mid; }
    }
  }

  /** The nearest drawn node of the row a point lies beside, when it is within reach. */
  method NodeAt(rowStart: seq<nat>, rows: seq<nat>, deepest: nat, x: seq<real>, wx: real, wy: real, reach: real)
    returns (r: Option<nat>)
    requires forall d: nat :: d <= deepest ==> GoesRight(x, Row(rowStart, rows, d))
    ensures !OnRow(deepest, wy, reach) ==> r.None?
    ensures OnRow(deepest, wy, reach) ==>
      (r.Some? <==> exists m :: m in Row(rowStart, rows, RowNear(wy)) && m < |x| && Distance(x[m], wx) <= 16.0 + reach)
    ensures r.Some? ==> OnRow(deepest, wy, reach) && Nearest(x, Row(rowStart, rows, RowNear(wy)), wx, r.value)
  {
    var d := RowNear(wy);
    if d < 0 || d > deepest { return None; }
    var dy := wy - d as real * ROW;
    if OffRow(dy, reach) { return None; }
    var row := Row(rowStart, rows, d);
    assert GoesRight(x, row);
    r := NearestInRow(row, x, wx);
    if r.Some? && Distance(x[r.value], wx) > 16.0 + reach { r := None; }
  }

  method NearestInRow(row: seq<nat>, x: seq<real>, wx: real) returns (best: Option<nat>)
    requires GoesRight(x, row)
    ensures best.None? <==> row == []
    ensures best.Some? ==> Nearest(x, row, wx, best.value)
  {
    var low := SearchRow(row, x, wx);
    best := None;
    if 0 < low { best := Some(row[low - 1]); }
    if low < |row| && (best.None? || Distance(x[row[low]], wx) < Distance(x[best.value], wx)) {
      best := Some(row[low]);
    }
    forall m | best.Some? && m in row && m < |x|
      ensures Distance(x[best.value], wx) <= Distance(x[m], wx)
      ensures Distance(x[best.value], wx) == Distance(x[m], wx) ==> x[best.value] <= x[m]
    {
      var i :| 0 <= i < |row| && row[i] == m;
      if i < low {
        assert i < low - 1 ==> x[row[i]] < x[row[low - 1]];
      } else {
        assert low < i ==> x[row[low]] < x[row[i]];
      }
    }
  }

  /** A point beside a row of a finished layout is given its nearest node there, of all the nodes
      drawn at that depth. */
  lemma LayoutAnswers(l: Layout, x: seq<real>, p: Tree, left: seq<int>, depth: seq<nat>, z: Sizes)
    requires LaidOut(l, x, p, left, depth, z) && Positive(z)
    ensures forall d: nat :: d <= l.deepest ==> GoesRight(x, Row(l.rowStart, l.rows, d))
  {
    hide LaidOut;
    forall d: nat | d <= l.deepest ensures GoesRight(x, Row(l.rowStart, l.rows, d)) {
      RowIsDepth(l, x, p, left, depth, z, d);
    }
  }

  // ---- the first leaves of a subtree ----

  ghost function LeafIdsAll(ts: seq<Tree>): seq<nat> {
    if ts == [] then [] else LeafIds(ts[0]) + LeafIdsAll(ts[1..])
  }

  function NamesOf(ids: seq<nat>, variable: seq<nat>): (r: seq<nat>)
    requires forall i :: 0 <= i < |ids| ==> ids[i] < |variable|
    ensures |r| == |ids| && forall i :: 0 <= i < |r| ==> r[i] == variable[ids[i]]
  {
    seq(|ids|, i requires 0 <= i < |ids| => variable[ids[i]])
  }

  lemma LeafIdsSplit(t: Tree)
    ensures LeafIds(t) == if t.Leaf? then [t.id] else LeafIds(t.left) + LeafIds(t.right)
  {
  }

  lemma LeafIdsFirst(ts: seq<Tree>)
    requires ts != []
    ensures LeafIdsAll(ts) == LeafIds(ts[0]) + LeafIdsAll(ts[1..])
  {
  }

  lemma LeafIdsOpened(ts: seq<Tree>)
    requires ts != []
    ensures ts[0].Leaf? ==> LeafIdsAll(ts) == [ts[0].id] + LeafIdsAll(ts[1..])
    ensures ts[0].Inner? ==> LeafIdsAll(ts) == LeafIdsAll([ts[0].left, ts[0].right] + ts[1..])
  {
    hide LeafIds, LeafIdsAll;
    LeafIdsSplit(ts[0]);
    LeafIdsFirst(ts);
    if ts[0].Inner? {
      var l, r, after := ts[0].left, ts[0].right, [ts[0].left, ts[0].right] + ts[1..];
      LeafIdsFirst(after);
      LeafIdsFirst(after[1..]);
      assert after[1..][0] == r && after[1..][1..] == ts[1..];
      assert LeafIds(l) + (LeafIds(r) + LeafIdsAll(ts[1..])) == LeafIds(l) + LeafIds(r) + LeafIdsAll(ts[1..]);
    }
  }

  lemma {:induction false} LeafIdsMatch(t: Tree, left: seq<int>, right: seq<int>)
    requires |left| == |right| && Matches(t, left, right)
    ensures forall i :: i in LeafIds(t) ==> i < |left|
  {
    if t.Inner? {
      LeafIdsMatch(t.left, left, right);
      LeafIdsMatch(t.right, left, right);
    }
  }

  /** The variables of a subtree's first leaves, left to right, and whether those are all of them. */
  method LeafVariables(left: seq<int>, right: seq<int>, variable: seq<nat>, leafCount: nat, top: nat, limit: nat,
                       ghost t: Tree)
    returns (found: seq<nat>, all: bool)
    requires |left| == |right| == |variable| && Matches(t, left, right) && t.id == top && leafCount == |LeafIds(t)|
    ensures forall i :: 0 <= i < |LeafIds(t)| ==> LeafIds(t)[i] < |variable|
    ensures |found| == (if |LeafIds(t)| < limit then |LeafIds(t)| else limit) && found <= NamesOf(LeafIds(t), variable)
    ensures all <==> found == NamesOf(LeafIds(t), variable)
  {
    hide LeafIds, TotalSize;
    LeafIdsMatch(t, left, right);
    forall i | 0 <= i < |LeafIds(t)| ensures LeafIds(t)[i] < |variable| { assert LeafIds(t)[i] in LeafIds(t); }
    found := [];
    var stack: seq<nat> := [top];
    ghost var ts := [t];
    LeavesOfOne(t);
    ghost var names := NamesOf(LeafIds(t), variable);
    while |stack| > 0 && |found| < limit
      invariant Rooted(ts, stack) && AllMatch(ts, left, right) && |found| <= limit
      invariant |found| <= |LeafIds(t)| && LeafIds(t)[|found|..] == LeafIdsAll(ts) && found == names[..|found|]
      decreases TotalSize(ts)
    {
      var node := stack[|stack| - 1];
      stack := stack[..|stack| - 1];
      ghost var s := ts[0];
      assert Matches(s, left, right) && s.id == node;
      LeafIdsOpened(ts);
      SizeOpened(ts);
      if left[node] < 0 {
        assert LeafIds(t)[|found|..][0] == LeafIds(t)[|found|] == node;
        found := found + [variable[node]];
        assert LeafIds(t)[|found|..] == LeafIds(t)[|found| - 1..][1..];
        ts := ts[1..];
      } else {
        assert left[node] == s.left.id && right[node] == s.right.id;
        stack := stack + [right[node], left[node]];
        ts := [s.left, s.right] + ts[1..];
      }
    }
    if |stack| == 0 { assert LeafIdsAll(ts) == [] && |found| == |LeafIds(t)|; }
    if |stack| > 0 { LeavesLeft(ts); }
    all := leafCount <= limit;
  }

  lemma LeavesOfOne(t: Tree)
    ensures LeafIdsAll([t]) == LeafIds(t)
  {
    assert [t][1..] == [];
  }

  lemma LeavesLeft(ts: seq<Tree>)
    requires ts != []
    ensures |LeafIdsAll(ts)| > 0
  {
  }
}
