/** The page's reader of the `.vtree` text: node tables, the tree they describe, and its measures. */
module VtreeText {
  import opened Wrappers
  import opened Sequences
  import opened Rationals
  import opened PlaneTrees
  import opened TreeWalk

  /** The whitespace-separated fields of one line. */
  type Fields = seq<string>

  const MOST_NODES: nat := 0x800_0000
  const MOST_VARIABLE: nat := 0x7FFF_FFFF

  datatype VtreeError =
    | EmptyFile
    | NotAHeader
    | NoNodes
    | TooManyNodes(declared: nat)
    | NotALeafLine(line: nat)
    | NotAnInnerLine(line: nat)
    | NeitherLine(line: nat)
    | NotANumber(line: nat)
    | OutOfRange(line: nat, id: nat)
    | VariableZero(line: nat)
    | VariableTooLarge(line: nat)
    | VariableTwice(v: nat, first: nat, second: nat)
    | NotListed(id: nat)
    | NotATree(why: WalkError)

  /** Digits after an optional plus sign. */
  function ReadCount(s: string): Option<nat> {
    if s != [] && s[0] == '-' then None
    else
      match ParseInt(s)
      case None => None
      case Some(i) => Some(i)
  }

  function HeaderCount(header: Fields): Result<nat, VtreeError> {
    if header == [] then Err(EmptyFile)
    else if |header| != 2 || header[0] != "vtree" then Err(NotAHeader)
    else
      match ReadCount(header[1])
      case None => Err(NotAHeader)
      case Some(n) => if n < 1 then Err(NoNodes) else if n > MOST_NODES then Err(TooManyNodes(n)) else Ok(n)
  }

  function NodeId(token: string, line: nat, n: nat): (r: Result<nat, VtreeError>)
    ensures r.Ok? ==> r.value < n
  {
    match ReadCount(token)
    case None => Err(NotANumber(line))
    case Some(id) => if id >= n then Err(OutOfRange(line, id)) else Ok(id)
  }

  // ---- the node lines ----

  /** What the lines so far have said beside the tables: who carries each variable, the last node,
      the widest variable. */
  datatype Tally = Tally(leafOf: map<nat, nat>, root: int, maxVariable: nat)

  datatype Listing = Listing(left: seq<int>, right: seq<int>, variable: seq<nat>, listed: seq<bool>, tally: Tally)

  predicate Sized(st: Listing, n: nat) { |st.left| == |st.right| == |st.variable| == |st.listed| == n }

  function Blank(n: nat): (st: Listing)
    ensures Sized(st, n)
  {
    Listing(seq(n, i => -1), seq(n, i => -1), seq(n, i => 0), seq(n, i => false), Tally(map[], -1, 0))
  }

  function Max(a: nat, b: nat): nat { if a < b then b else a }

  function AddLeaf(st: Listing, id: nat, v: nat): (r: Listing)
    requires Sized(st, |st.left|) && id < |st.left|
    ensures Sized(r, |st.left|)
  {
    Listing(st.left[id := -1], st.right[id := -1], st.variable[id := v], st.listed[id := true],
            Tally(st.tally.leafOf[v := id], id, Max(st.tally.maxVariable, v)))
  }

  function AddInner(st: Listing, id: nat, l: nat, r: nat): (st': Listing)
    requires Sized(st, |st.left|) && id < |st.left|
    ensures Sized(st', |st.left|)
  {
    Listing(st.left[id := l], st.right[id := r], st.variable[id := 0], st.listed[id := true],
            Tally(st.tally.leafOf, id, st.tally.maxVariable))
  }

  /** What one line adds, its children's names still unread. */
  datatype Entry = Skip | LeafEntry(id: nat, v: nat) | InnerEntry(id: nat, l: nat, r: nat)

  function ReadLeaf(fields: Fields, line: nat, n: nat, tally: Tally): (r: Result<Entry, VtreeError>)
    ensures r.Ok? ==>
              r.value.LeafEntry? && r.value.id < n && 1 <= r.value.v <= MOST_VARIABLE && r.value.v !in tally.leafOf
  {
    if |fields| != 3 then Err(NotALeafLine(line))
    else
      match NodeId(fields[1], line, n)
      case Err(e) => Err(e)
      case Ok(id) =>
        match ReadCount(fields[2])
        case None => Err(NotANumber(line))
        case Some(v) =>
          if v == 0 then Err(VariableZero(line))
          else if v > MOST_VARIABLE then Err(VariableTooLarge(line))
          else if v in tally.leafOf then Err(VariableTwice(v, tally.leafOf[v], id))
          else Ok(LeafEntry(id, v))
  }

  function ReadInner(fields: Fields, line: nat, n: nat): (r: Result<Entry, VtreeError>)
    ensures r.Ok? ==> r.value.InnerEntry? && r.value.id < n && r.value.l < n && r.value.r < n
  {
    if |fields| != 4 then Err(NotAnInnerLine(line))
    else
      match NodeId(fields[1], line, n)
      case Err(e) => Err(e)
      case Ok(id) =>
        match NodeId(fields[2], line, n)
        case Err(e) => Err(e)
        case Ok(l) =>
          match NodeId(fields[3], line, n)
          case Err(e) => Err(e)
          case Ok(r) => Ok(InnerEntry(id, l, r))
  }

  function ReadEntry(fields: Fields, line: nat, n: nat, tally: Tally): (r: Result<Entry, VtreeError>)
    ensures r.Ok? && r.value.LeafEntry? ==>
              r.value.id < n && 1 <= r.value.v <= MOST_VARIABLE && r.value.v !in tally.leafOf
    ensures r.Ok? && r.value.InnerEntry? ==> r.value.id < n && r.value.l < n && r.value.r < n
  {
    if fields == [] then Ok(Skip)
    else if fields[0] == "L" then ReadLeaf(fields, line, n, tally)
    else if fields[0] == "I" then ReadInner(fields, line, n)
    else Err(NeitherLine(line))
  }

  function Enter(st: Listing, e: Entry): (r: Listing)
    requires Sized(st, |st.left|) && (e.Skip? || e.id < |st.left|)
    ensures Sized(r, |st.left|)
  {
    match e
    case Skip => st
    case LeafEntry(id, v) => AddLeaf(st, id, v)
    case InnerEntry(id, l, r) => AddInner(st, id, l, r)
  }

  function ReadNodes(lines: seq<Fields>, line: nat, st: Listing): Result<Listing, VtreeError>
    requires Sized(st, |st.left|)
    decreases |lines|
  {
    if lines == [] then Ok(st)
    else
      match ReadEntry(lines[0], line, |st.left|, st.tally)
      case Err(e) => Err(e)
      case Ok(e) => ReadNodes(lines[1..], line + 1, Enter(st, e))
  }

  // ---- what listed tables keep ----

  /** A listed leaf is the one its variable is told to be on; a listed inner node has two children in range. */
  ghost predicate NodeKept(st: Listing, n: nat, i: nat)
    requires Sized(st, n) && i < n
  {
    if st.left[i] < 0 then
      st.listed[i] ==> && st.variable[i] in st.tally.leafOf && st.tally.leafOf[st.variable[i]] == i
                       && 1 <= st.variable[i] <= st.tally.maxVariable <= MOST_VARIABLE
    else st.left[i] < n && 0 <= st.right[i] < n
  }

  ghost predicate Kept(st: Listing, n: nat) {
    && Sized(st, n) && (forall i: nat :: i < n ==> NodeKept(st, n, i))
    && -1 <= st.tally.root < n && st.tally.maxVariable <= MOST_VARIABLE
    && (st.tally.root < 0 ==> forall i :: 0 <= i < n ==> !st.listed[i])
  }

  lemma BlankKept(n: nat)
    ensures Kept(Blank(n), n)
  {
  }

  lemma LeafKept(st: Listing, n: nat, id: nat, v: nat)
    requires Kept(st, n) && id < n && 1 <= v <= MOST_VARIABLE && v !in st.tally.leafOf
    ensures Kept(AddLeaf(st, id, v), n)
  {
    var st' := AddLeaf(st, id, v);
    forall i: nat | i < n ensures NodeKept(st', n, i) { assert NodeKept(st, n, i); }
  }

  lemma InnerKept(st: Listing, n: nat, id: nat, l: nat, r: nat)
    requires Kept(st, n) && id < n && l < n && r < n
    ensures Kept(AddInner(st, id, l, r), n)
  {
    var st' := AddInner(st, id, l, r);
    forall i: nat | i < n ensures NodeKept(st', n, i) { assert NodeKept(st, n, i); }
  }

  lemma {:induction false} NodesKept(lines: seq<Fields>, line: nat, st: Listing)
    requires Kept(st, |st.left|)
    ensures ReadNodes(lines, line, st).Ok? ==> Kept(ReadNodes(lines, line, st).value, |st.left|)
    decreases |lines|
  {
    hide Kept, AddLeaf, AddInner, ReadEntry;
    KeptSized(st, |st.left|);
    if lines != [] {
      match ReadEntry(lines[0], line, |st.left|, st.tally)
      case Err(_) =>
      case Ok(e) =>
        match e {
          case Skip =>
          case LeafEntry(id, v) => LeafKept(st, |st.left|, id, v);
          case InnerEntry(id, l, r) => InnerKept(st, |st.left|, id, l, r);
        }
        NodesKept(lines[1..], line + 1, Enter(st, e));
    }
  }

  lemma KeptSized(st: Listing, n: nat)
    requires Kept(st, n)
    ensures Sized(st, n)
  {
  }

  ghost predicate AllListed(st: Listing) { forall i :: 0 <= i < |st.listed| ==> st.listed[i] }

  /** A full listing's tables can be walked, and no variable is on two leaves. */
  lemma FullListing(st: Listing, n: nat)
    requires Kept(st, n) && AllListed(st) && n > 0
    ensures Tables(st.left, st.right) && 0 <= st.tally.root < n
    ensures forall i, j :: 0 <= i < j < n && st.left[i] < 0 && st.left[j] < 0 ==> st.variable[i] != st.variable[j]
    ensures forall i :: 0 <= i < n && st.left[i] < 0 ==> 1 <= st.variable[i] <= st.tally.maxVariable
  {
    assert st.listed[0];
    forall i: nat | i < n ensures st.left[i] >= 0 ==> st.left[i] < n && 0 <= st.right[i] < n {
      assert NodeKept(st, n, i);
    }
    forall i: nat | i < n && st.left[i] < 0
      ensures 1 <= st.variable[i] <= st.tally.maxVariable && st.variable[i] in st.tally.leafOf
                && st.tally.leafOf[st.variable[i]] == i
    {
      assert NodeKept(st, n, i) && st.listed[i];
    }
  }

  // ---- reading into the tables ----

  method ReadInto(lines: seq<Fields>, n: nat, left: array<int>, right: array<int>, variable: array<nat>,
                  listed: array<bool>)
    returns (r: Result<Tally, VtreeError>)
    requires left.Length == right.Length == variable.Length == listed.Length == n && left != right
    requires Listing(left[..], right[..], variable[..], listed[..], Tally(map[], -1, 0)) == Blank(n)
    modifies left, right, variable, listed
    ensures match ReadNodes(lines, 2, Blank(n))
            case Err(e) => r == Err(e)
            case Ok(st) => r.Ok? && Listing(left[..], right[..], variable[..], listed[..], r.value) == st
  {
    hide ReadEntry, Enter, Blank;
    var tally := Tally(map[], -1, 0);
    ghost var st := Blank(n);
    for k := 0 to |lines|
      invariant st == Listing(left[..], right[..], variable[..], listed[..], tally) && Sized(st, n)
      invariant ReadNodes(lines, 2, Blank(n)) == ReadNodes(lines[k..], k + 2, st)
    {
      assert lines[k..][0] == lines[k] && lines[k..][1..] == lines[k + 1..];
      var entry := ReadEntry(lines[k], k + 2, n, tally);
      if entry.Err? { return Err(entry.error); }
      tally := EnterInto(entry.value, tally, left, right, variable, listed);
      st := Enter(st, entry.value);
    }
    assert lines[|lines|..] == [];
    return Ok(tally);
  }

  method EnterInto(e: Entry, tally: Tally, left: array<int>, right: array<int>, variable: array<nat>,
                   listed: array<bool>)
    returns (next: Tally)
    requires left.Length == right.Length == variable.Length == listed.Length && left != right
              && (e.Skip? || e.id < left.Length)
    modifies left, right, variable, listed
    ensures Listing(left[..], right[..], variable[..], listed[..], next)
         == Enter(Listing(old(left[..]), old(right[..]), old(variable[..]), old(listed[..]), tally), e)
  {
    match e
    case Skip => next := tally;
    case LeafEntry(id, v) =>
      next := Tally(tally.leafOf[v := id], id, Max(tally.maxVariable, v));
      variable[id] := v;
      left[id] := -1;
      right[id] := -1;
      listed[id] := true;
    case InnerEntry(id, l, r) =>
      next := Tally(tally.leafOf, id, tally.maxVariable);
      variable[id] := 0;
      left[id] := l;
      right[id] := r;
      listed[id] := true;
  }

  // ---- the measures of a tree ----

  datatype Measures = Measures(pre: seq<nat>, last: seq<nat>, leaves: seq<nat>, depth: seq<nat>, height: nat)

  ghost predicate DepthTold(t: Tree, k: nat, pre: seq<nat>, depth: seq<nat>)
    requires k < Size(t)
  {
    var node := Preorder(t)[k];
    node < |pre| && node < |depth| && pre[node] == k && depth[node] == DepthAt(t, k)
  }

  ghost predicate SubtreeTold(t: Tree, k: nat, last: seq<nat>, leaves: seq<nat>)
    requires k < Size(t)
  {
    var node := Preorder(t)[k];
    && node < |last| && node < |leaves|
    && last[node] + 1 == k + Size(SubtreeAt(t, k)) && leaves[node] == |LeafIds(SubtreeAt(t, k))|
  }

  /** Each node's place in the preorder, its last descendant's, its leaf count and depth, and the tree's height. */
  ghost predicate Measured(m: Measures, t: Tree, n: nat) {
    && |m.pre| == |m.last| == |m.leaves| == |m.depth| == n && m.height == Height(t)
    && (forall k: nat :: k < Size(t) ==> DepthTold(t, k, m.pre, m.depth))
    && (forall k: nat :: k < Size(t) ==> SubtreeTold(t, k, m.last, m.leaves))
  }

  /** A node's parent entry names the node above it, which comes earlier and is one shallower. */
  lemma ParentEntry(t: Tree, k: nat, parent: seq<int>) returns (p: nat)
    requires 0 < k < Size(t) && ParentsIn(t, parent)
    ensures p < k && Preorder(t)[k] < |parent| && parent[Preorder(t)[k]] == Preorder(t)[p]
    ensures DepthAt(t, k) == DepthAt(t, p) + 1
  {
    hide Preorder, DepthAt, SubtreeAt;
    p := ParentAt(t, k);
    ParentsAt(t, parent, p);
    ChildrenAt(t, p);
    TopAt(t, p);
    TopAt(t, k);
  }

  lemma PreorderPlace(t: Tree, left: seq<int>, right: seq<int>, k: nat)
    requires |left| == |right| && Matches(t, left, right) && k < Size(t)
    ensures Preorder(t)[k] < |left|
  {
    MatchesBounded(t, left, right);
    assert Preorder(t)[k] in Preorder(t);
  }

  /** Writing the `k`-th node's entries leaves those of the other nodes. */
  lemma DepthsKept(t: Tree, k: nat, pre: seq<nat>, depth: seq<nat>, p: nat, d: nat, j: nat)
    requires j < Size(t) && k < Size(t) && j != k && Distinct(Preorder(t)) && DepthTold(t, j, pre, depth)
    requires Preorder(t)[k] < |pre| && Preorder(t)[k] < |depth|
    ensures DepthTold(t, j, pre[Preorder(t)[k] := p], depth[Preorder(t)[k] := d])
  {
  }

  lemma SubtreesKept(t: Tree, k: nat, last: seq<nat>, leaves: seq<nat>, z: nat, c: nat, j: nat)
    requires j < Size(t) && k < Size(t) && j != k && Distinct(Preorder(t)) && SubtreeTold(t, j, last, leaves)
    requires Preorder(t)[k] < |last| && Preorder(t)[k] < |leaves|
    ensures SubtreeTold(t, j, last[Preorder(t)[k] := z], leaves[Preorder(t)[k] := c])
  {
  }

  /** Places and depths, parents first. */
  method MeasureDepths(w: Walked, n: nat, ghost t: Tree) returns (pre: seq<nat>, depth: seq<nat>, height: nat)
    requires WalkTells(w, t, n) && Distinct(Preorder(t)) && forall k :: 0 <= k < n ==> w.order[k] < n
    ensures |pre| == |depth| == n && height == Height(t)
    ensures forall k: nat :: k < Size(t) ==> DepthTold(t, k, pre, depth)
  {
    hide DepthTold, Preorder, DepthAt, Height, ParentsIn, DeepestOf;
    DeepestNone(t);
    var places := new nat[n](_ => 0);
    var depths := new nat[n](_ => 0);
    height := 0;
    for i := 0 to n
      invariant forall k: nat :: k < i ==> DepthTold(t, k, places[..], depths[..])
      invariant forall k: nat :: i <= k < n ==> depths[w.order[k]] == 0
      invariant DeepestOf(t, i, height)
    {
      ghost var p0, d0 := places[..], depths[..];
      ghost var place: nat := i;
      DeepestNext(t, i, height);
      var node := w.order[i];
      places[node] := i;
      if w.parent[node] >= 0 {
        ghost var p := ParentBefore(t, w, i);
        DepthRead(t, p, p0, d0);
        depths[node] := depths[w.parent[node]] + 1;
        if depths[node] > height { height := depths[node]; }
      } else {
        TopHasNone(t, w, i);
      }
      assert places[..] == p0[node := place] && depths[..] == d0[node := DepthAt(t, i)];
      DepthEntered(t, i, p0, d0);
      forall k: nat | k < i ensures DepthTold(t, k, places[..], depths[..]) {
        DepthsKept(t, i, p0, d0, i, DepthAt(t, i), k);
      }
    }
    HeightIs(t, height);
    return places[..], depths[..], height;
  }

  lemma ParentBefore(t: Tree, w: Walked, i: nat) returns (p: nat)
    requires WalkTells(w, t, |w.order|) && i < |w.order| && w.order[i] < |w.parent| && w.parent[w.order[i]] >= 0
    ensures p < i && w.parent[w.order[i]] == w.order[p] && DepthAt(t, i) == DepthAt(t, p) + 1
  {
    hide Preorder, DepthAt, ParentsIn;
    p := ParentEntry(t, i, w.parent);
  }

  lemma TopHasNone(t: Tree, w: Walked, i: nat)
    requires WalkTells(w, t, |w.order|) && i < |w.order| && w.order[i] < |w.parent| && w.parent[w.order[i]] < 0
    ensures i == 0 && DepthAt(t, i) == 0
  {
    hide Preorder, ParentsIn;
    if i > 0 { var p := ParentEntry(t, i, w.parent); }
  }

  lemma DepthRead(t: Tree, k: nat, pre: seq<nat>, depth: seq<nat>)
    requires k < Size(t) && DepthTold(t, k, pre, depth)
    ensures Preorder(t)[k] < |depth| && depth[Preorder(t)[k]] == DepthAt(t, k)
  {
  }

  lemma DepthEntered(t: Tree, k: nat, pre: seq<nat>, depth: seq<nat>)
    requires k < Size(t) && Preorder(t)[k] < |pre| && Preorder(t)[k] < |depth|
    ensures DepthTold(t, k, pre[Preorder(t)[k] := k], depth[Preorder(t)[k] := DepthAt(t, k)])
  {
  }

  /** Last descendants and leaf counts, children first. */
  method MeasureSubtrees(left: seq<int>, right: seq<int>, order: seq<nat>, ghost t: Tree)
    returns (last: seq<nat>, leaves: seq<nat>)
    requires |left| == |right| == |order| && order == Preorder(t) && Distinct(order) && Matches(t, left, right)
    requires forall k :: 0 <= k < |order| ==> order[k] < |left|
    ensures |last| == |leaves| == |left|
    ensures forall k: nat :: k < Size(t) ==> SubtreeTold(t, k, last, leaves)
  {
    hide SubtreeTold, Preorder, Matches;
    var n := |left|;
    var lasts := new nat[n](_ => 0);
    var counts := new nat[n](_ => 0);
    var i := n;
    while i > 0
      invariant i <= n
      invariant forall k: nat :: i <= k < n ==> SubtreeTold(t, k, lasts[..], counts[..])
    {
      i := i - 1;
      ghost var z0, c0 := lasts[..], counts[..];
      var node := order[i];
      if left[node] < 0 {
        LeafMeasured(t, left, right, i, z0, c0);
        counts[node] := 1;
        lasts[node] := i;
      } else {
        ghost var a, b := InnerPlaces(t, left, right, i);
        InnerMeasured(t, i, a, b, z0, c0);
        counts[node] := counts[left[node]] + counts[right[node]];
        lasts[node] := lasts[right[node]];
      }
      assert lasts[..] == z0[node := lasts[node]] && counts[..] == c0[node := counts[node]];
      forall k: nat | i < k < n ensures SubtreeTold(t, k, lasts[..], counts[..]) {
        SubtreesKept(t, i, z0, c0, lasts[node], counts[node], k);
      }
    }
    return lasts[..], counts[..];
  }

  lemma LeafMeasured(t: Tree, left: seq<int>, right: seq<int>, k: nat, last: seq<nat>, leaves: seq<nat>)
    requires |left| == |right| == |last| == |leaves| && Matches(t, left, right) && k < Size(t)
    requires Preorder(t)[k] < |left| && left[Preorder(t)[k]] < 0
    ensures SubtreeTold(t, k, last[Preorder(t)[k] := k], leaves[Preorder(t)[k] := 1])
  {
    hide Preorder, SubtreeAt;
    MatchesAt(t, left, right, k);
    TopAt(t, k);
  }

  lemma SplitCounts(s: Tree)
    requires s.Inner?
    ensures Size(s) == 1 + Size(s.left) + Size(s.right) && |LeafIds(s)| == |LeafIds(s.left)| + |LeafIds(s.right)|
  {
  }

  /** Where an inner node's children stand, by its table entries. */
  lemma InnerPlaces(t: Tree, left: seq<int>, right: seq<int>, k: nat) returns (a: nat, b: nat)
    requires |left| == |right| && Matches(t, left, right) && k < Size(t)
    requires Preorder(t)[k] < |left| && left[Preorder(t)[k]] >= 0
    ensures SubtreeAt(t, k).Inner? && k < a < b < Size(t) && b == a + Size(SubtreeAt(t, k).left)
    ensures a == k + 1 && SubtreeAt(t, a) == SubtreeAt(t, k).left && SubtreeAt(t, b) == SubtreeAt(t, k).right
    ensures Preorder(t)[a] < |left| && Preorder(t)[b] < |left|
    ensures left[Preorder(t)[k]] == Preorder(t)[a] && right[Preorder(t)[k]] == Preorder(t)[b]
  {
    hide Preorder, SubtreeAt, DepthAt, Size;
    MatchesAt(t, left, right, k);
    TopAt(t, k);
    ChildrenAt(t, k);
    SizePositive(SubtreeAt(t, k).left);
    a, b := k + 1, k + 1 + Size(SubtreeAt(t, k).left);
    TopAt(t, a);
    TopAt(t, b);
    PreorderPlace(t, left, right, a);
    PreorderPlace(t, left, right, b);
  }

  lemma InnerMeasured(t: Tree, k: nat, a: nat, b: nat, last: seq<nat>, leaves: seq<nat>)
    requires k < a < b < Size(t) && SubtreeAt(t, k).Inner? && a == k + 1 && b == a + Size(SubtreeAt(t, k).left)
    requires SubtreeAt(t, a) == SubtreeAt(t, k).left && SubtreeAt(t, b) == SubtreeAt(t, k).right
    requires SubtreeTold(t, a, last, leaves) && SubtreeTold(t, b, last, leaves)
    requires Preorder(t)[k] < |last| && Preorder(t)[k] < |leaves|
    ensures Preorder(t)[a] < |leaves| && Preorder(t)[b] < |leaves| && Preorder(t)[b] < |last|
    ensures SubtreeTold(t, k, last[Preorder(t)[k] := last[Preorder(t)[b]]],
                        leaves[Preorder(t)[k] := leaves[Preorder(t)[a]] + leaves[Preorder(t)[b]]])
  {
    hide Preorder, SubtreeAt, Size, LeafIds;
    SplitCounts(SubtreeAt(t, k));
  }

  // ---- the whole file ----

  datatype Vtree = Vtree(root: nat, left: seq<int>, right: seq<int>, variable: seq<nat>, parent: seq<int>,
                         order: seq<nat>, measures: Measures, maxVariable: nat)

  function ReadAll(n: nat, lines: seq<Fields>): (r: Result<Listing, VtreeError>)
    ensures r.Ok? ==> Kept(r.value, n)
  {
    BlankKept(n);
    NodesKept(lines, 2, Blank(n));
    ReadNodes(lines, 2, Blank(n))
  }

  /** The tables the text fills, once its header is right and every node is listed. */
  ghost predicate Lists(header: Fields, lines: seq<Fields>, st: Listing) {
    && HeaderCount(header).Ok? && HeaderCount(header).value > 0
    && ReadAll(HeaderCount(header).value, lines) == Ok(st) && AllListed(st)
  }

  /** What an accepted text is: one tree, told by the tables and by the walk and measures made of them. */
  ghost predicate Describes(v: Vtree, st: Listing, t: Tree) {
    && v.root == st.tally.root && v.left == st.left && v.right == st.right && v.variable == st.variable
    && v.maxVariable == st.tally.maxVariable
    && |st.left| == |st.right| && st.tally.root >= 0 && IsTree(t, st.left, st.right, st.tally.root)
    && WalkTells(Walked(v.order, v.parent), t, |st.left|) && Measured(v.measures, t, |st.left|)
  }

  ghost predicate IsTreeOf(t: Tree, st: Listing) {
    |st.left| == |st.right| && st.tally.root >= 0 && IsTree(t, st.left, st.right, st.tally.root)
  }

  ghost predicate FirstMissing(st: Listing, id: nat) {
    id < |st.listed| && !st.listed[id] && forall i :: 0 <= i < id ==> st.listed[i]
  }

  /** Tables read are refused for the first node never listed, and only full ones for not being a tree. */
  ghost predicate RefusedFor(r: Result<Vtree, VtreeError>, st: Listing) {
    r.Err? ==> if AllListed(st) then r.error.NotATree? else r.error.NotListed? && FirstMissing(st, r.error.id)
  }

  /** Accepts exactly the texts whose tables describe one tree, and measures that tree. */
  method ParseVtree(header: Fields, lines: seq<Fields>) returns (r: Result<Vtree, VtreeError>)
    ensures r.Ok? <==> exists st, t :: Lists(header, lines, st) && IsTreeOf(t, st)
    ensures r.Ok? ==> exists st, t :: Lists(header, lines, st) && Describes(r.value, st, t)
    ensures HeaderCount(header).Err? ==> r == Err(HeaderCount(header).error)
    ensures HeaderCount(header).Ok? && ReadAll(HeaderCount(header).value, lines).Err?
        ==> r == Err(ReadAll(HeaderCount(header).value, lines).error)
    ensures HeaderCount(header).Ok? && ReadAll(HeaderCount(header).value, lines).Ok?
        ==> RefusedFor(r, ReadAll(HeaderCount(header).value, lines).value)
  {
    hide IsTree, WalkTells, Measured, Kept, ReadNodes;
    var count := HeaderCount(header);
    if count.Err? { return Err(count.error); }
    var n := count.value;
    var left := new int[n](_ => -1);
    var right := new int[n](_ => -1);
    var variable := new nat[n](_ => 0);
    var listed := new bool[n](_ => false);
    assert Listing(left[..], right[..], variable[..], listed[..], Tally(map[], -1, 0)) == Blank(n);
    var tally := ReadInto(lines, n, left, right, variable, listed);
    if tally.Err? { return Err(tally.error); }
    ghost var st := Listing(left[..], right[..], variable[..], listed[..], tally.value);
    var missing := FirstUnlisted(listed);
    assert ReadAll(n, lines) == Ok(st);
    if missing.Some? {
      assert !st.listed[missing.value] && !AllListed(st);
      assert FirstMissing(st, missing.value);
      return Err(NotListed(missing.value));
    }
    assert AllListed(st) by { forall i | 0 <= i < n ensures st.listed[i] { assert listed[i]; } }
    assert Lists(header, lines, st);
    r := WalkAndMeasure(left[..], right[..], variable[..], tally.value, st);
  }

  method FirstUnlisted(listed: array<bool>) returns (r: Option<nat>)
    ensures r.None? <==> forall i :: 0 <= i < listed.Length ==> listed[i]
    ensures r.Some? ==> r.value < listed.Length && !listed[r.value] && forall i :: 0 <= i < r.value ==> listed[i]
  {
    for id := 0 to listed.Length
      invariant forall i :: 0 <= i < id ==> listed[i]
    {
      if !listed[id] { return Some(id); }
    }
    return None;
  }

  method WalkAndMeasure(left: seq<int>, right: seq<int>, variable: seq<nat>, tally: Tally, ghost st: Listing)
    returns (r: Result<Vtree, VtreeError>)
    requires Kept(st, |left|) && AllListed(st) && |left| > 0
    requires st.left == left && st.right == right && st.variable == variable && st.tally == tally
    ensures r.Ok? <==> exists t :: IsTreeOf(t, st)
    ensures r.Err? ==> r.error.NotATree?
    ensures forall t :: r.Ok? && IsTreeOf(t, st) ==> Describes(r.value, st, t)
  {
    hide IsTree, WalkTells, Measured, Kept, AllListed;
    FullListing(st, |left|);
    var walked := WalkTables(left, right, tally.root);
    assert forall t :: IsTreeOf(t, st) <==> IsTree(t, left, right, tally.root);
    if walked.Err? { return Err(NotATree(walked.error)); }
    ghost var t :| IsTree(t, left, right, tally.root);
    assert IsTreeOf(t, st);
    var measures := Measure(left, right, tally.root, walked.value, t);
    r := Ok(Vtree(tally.root, left, right, variable, walked.value.parent, walked.value.order, measures,
                  tally.maxVariable));
    forall s | IsTreeOf(s, st) ensures Describes(r.value, st, s) { OneTree(left, right, tally.root, s, t); }
  }

  lemma OneTree(left: seq<int>, right: seq<int>, root: nat, s: Tree, t: Tree)
    requires IsTree(s, left, right, root) && IsTree(t, left, right, root)
    ensures s == t
  {
    MatchesUnique(s, t, left, right);
  }

  method Measure(left: seq<int>, right: seq<int>, root: nat, w: Walked, ghost t: Tree) returns (m: Measures)
    requires IsTree(t, left, right, root) && WalkTells(w, t, |left|)
    ensures Measured(m, t, |left|)
  {
    hide DepthTold, SubtreeTold, Preorder;
    forall k: nat | k < |left| ensures w.order[k] < |left| { PreorderPlace(t, left, right, k); }
    var pre, depth, height := MeasureDepths(w, |left|, t);
    var last, leaves := MeasureSubtrees(left, right, w.order, t);
    m := Measures(pre, last, leaves, depth, height);
  }

  // ---- asking the measures ----

  function IsUnder(m: Measures, node: nat, top: nat): bool
    requires node < |m.pre| && top < |m.pre| && top < |m.last|
  {
    m.pre[top] <= m.pre[node] <= m.last[top]
  }

  /** The comparison of places answers whether one node lies below another. */
  lemma UnderIsDescendant(m: Measures, t: Tree, n: nat, j: nat, k: nat)
    requires Measured(m, t, n) && Distinct(Preorder(t)) && j < Size(t) && k < Size(t)
    ensures Preorder(t)[j] < n && Preorder(t)[k] < n
    ensures IsUnder(m, Preorder(t)[j], Preorder(t)[k]) <==> Preorder(t)[j] in Preorder(SubtreeAt(t, k))
  {
    hide Preorder, SubtreeAt;
    UnderIsStretch(t, k, j);
    assert DepthTold(t, j, m.pre, m.depth) && DepthTold(t, k, m.pre, m.depth) && SubtreeTold(t, k, m.last, m.leaves);
  }
}
