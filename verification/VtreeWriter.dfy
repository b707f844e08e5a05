/** Writing a vtree bottom-up as `.vtree` text, and reading exactly that tree back. */
module VtreeWriter {
  import opened Wrappers
  import opened Sequences
  import opened Rationals
  import opened PlaneTrees
  import opened TreeWalk
  import opened VtreeText

  /** A stored tree: its child tables, leaf variables, and a bottom-up order of its nodes with its inverse. */
  datatype Stored = Stored(left: seq<int>, right: seq<int>, variable: seq<nat>, order: seq<nat>, place: seq<nat>)

  ghost predicate Sound(s: Stored, n: nat) {
    && Tables(s.left, s.right) && |s.left| == |s.variable| == |s.order| == |s.place| == n
    && (forall k :: 0 <= k < n ==> s.order[k] < n && s.place[s.order[k]] == k)
    && (forall i :: 0 <= i < n ==> s.place[i] < n && s.order[s.place[i]] == i)
  }

  ghost predicate ChildrenFirst(s: Stored, n: nat)
    requires Sound(s, n)
  {
    forall i :: 0 <= i < n && s.left[i] >= 0 ==> s.place[s.left[i]] < s.place[i] && s.place[s.right[i]] < s.place[i]
  }

  /** Every leaf carries a variable of its own. */
  ghost predicate OwnVariables(s: Stored, n: nat)
    requires Sound(s, n)
  {
    && (forall i :: 0 <= i < n && s.left[i] < 0 ==> 1 <= s.variable[i] <= MOST_VARIABLE)
    && (forall i, j :: 0 <= i < n && 0 <= j < n && s.left[i] < 0 && s.left[j] < 0 && s.variable[i] == s.variable[j] ==>
        i == j)
  }

  /** The line of one node: its place in the bottom-up order is the id it is written under. */
  function NodeLine(s: Stored, i: nat): Fields
    requires Tables(s.left, s.right) && |s.left| == |s.variable| == |s.place| && i < |s.left|
  {
    if s.left[i] < 0 then ["L", NatText(s.place[i]), NatText(s.variable[i])]
    else ["I", NatText(s.place[i]), NatText(s.place[s.left[i]]), NatText(s.place[s.right[i]])]
  }

  ghost function TextLines(s: Stored, n: nat): (r: seq<Fields>)
    requires Sound(s, n)
    ensures |r| == n && forall k :: 0 <= k < n ==> r[k] == NodeLine(s, s.order[k])
  {
    seq(n, k requires 0 <= k < n => NodeLine(s, s.order[k]))
  }

  function HeaderLine(n: nat): Fields { ["vtree", NatText(n)] }

  method WriteVtree(s: Stored, n: nat) returns (header: Fields, lines: seq<Fields>)
    requires Sound(s, n)
    ensures header == HeaderLine(n) && lines == TextLines(s, n)
  {
    header := HeaderLine(n);
    lines := [];
    for k := 0 to n
      invariant |lines| == k && forall j :: 0 <= j < k ==> lines[j] == NodeLine(s, s.order[j])
    {
      lines := lines + [NodeLine(s, s.order[k])];
    }
  }

  // ---- reading the lines ----

  lemma PrintedCount(n: nat)
    ensures ReadCount(NatText(n)) == Some(n)
  {
    ParsePrintedInt(n);
    assert IsDigit(NatText(n)[0]);
  }

  /** The entry the line of the `k`-th node written reads as. */
  function EntryAt(s: Stored, n: nat, k: nat): (e: Entry)
    requires Tables(s.left, s.right) && |s.left| == |s.variable| == |s.order| == |s.place| == n && k < n
              && s.order[k] < n
    ensures !e.Skip?
  {
    var i := s.order[k];
    if s.left[i] < 0 then LeafEntry(k, s.variable[i]) else InnerEntry(k, s.place[s.left[i]], s.place[s.right[i]])
  }

  lemma LineReads(s: Stored, n: nat, k: nat, line: nat, tally: Tally)
    requires Sound(s, n) && OwnVariables(s, n) && k < n
    requires s.left[s.order[k]] < 0 ==> s.variable[s.order[k]] !in tally.leafOf
    ensures ReadEntry(NodeLine(s, s.order[k]), line, n, tally) == Ok(EntryAt(s, n, k))
  {
    hide NatText, ReadCount;
    var i := s.order[k];
    PrintedCount(k);
    if s.left[i] < 0 {
      PrintedCount(s.variable[i]);
    } else {
      PrintedCount(s.place[s.left[i]]);
      PrintedCount(s.place[s.right[i]]);
    }
  }

  /** What the tables say of the node written `j`-th. */
  ghost predicate Told(s: Stored, n: nat, st: Listing, j: nat)
    requires Sound(s, n) && Sized(st, n) && j < n
  {
    var i := s.order[j];
    && st.listed[j]
    && (s.left[i] < 0 ==> st.left[j] < 0 && st.variable[j] == s.variable[i])
    && (s.left[i] >= 0 ==> st.left[j] == s.place[s.left[i]] && st.right[j] == s.place[s.right[i]])
  }

  /** After `k` lines: the first `k` nodes told, their variables taken, the last one the root. */
  ghost predicate ReadSoFar(s: Stored, n: nat, st: Listing, k: nat)
    requires Sound(s, n) && k <= n
  {
    && Sized(st, n) && st.tally.root == k - 1
    && (forall j: nat :: j < k ==> Told(s, n, st, j))
    && (forall v :: v in st.tally.leafOf ==>
        exists j: nat :: j < k && s.left[s.order[j]] < 0 && s.variable[s.order[j]] == v)
  }

  lemma NextVariableFree(s: Stored, n: nat, st: Listing, k: nat)
    requires Sound(s, n) && OwnVariables(s, n) && k < n && ReadSoFar(s, n, st, k) && s.left[s.order[k]] < 0
    ensures s.variable[s.order[k]] !in st.tally.leafOf
  {
    var v := s.variable[s.order[k]];
    forall j: nat | j < k && s.left[s.order[j]] < 0 ensures s.variable[s.order[j]] != v {
      assert s.place[s.order[j]] == j && s.place[s.order[k]] == k;
    }
  }

  lemma NextRead(s: Stored, n: nat, st: Listing, k: nat)
    requires Sound(s, n) && k < n && ReadSoFar(s, n, st, k)
    ensures ReadSoFar(s, n, Enter(st, EntryAt(s, n, k)), k + 1)
  {
    var st' := Enter(st, EntryAt(s, n, k));
    forall j: nat | j < k + 1 ensures Told(s, n, st', j) {
      if j < k { assert Told(s, n, st, j); }
    }
    forall v | v in st'.tally.leafOf
      ensures exists j: nat :: j < k + 1 && s.left[s.order[j]] < 0 && s.variable[s.order[j]] == v
    {
      if v !in st.tally.leafOf { assert s.left[s.order[k]] < 0 && s.variable[s.order[k]] == v; }
    }
  }

  lemma {:induction false} LinesRead(s: Stored, n: nat, st: Listing, k: nat) returns (end: Listing)
    requires Sound(s, n) && OwnVariables(s, n) && k <= n && ReadSoFar(s, n, st, k)
    ensures ReadNodes(TextLines(s, n)[k..], k + 2, st) == Ok(end) && ReadSoFar(s, n, end, n)
    decreases n - k
  {
    hide ReadSoFar, Enter, NodeLine, EntryAt, ReadEntry, OwnVariables;
    ReadSized(s, n, st, k);
    var lines := TextLines(s, n);
    if k == n {
      assert lines[n..] == [];
      end := st;
    } else {
      if s.left[s.order[k]] < 0 { NextVariableFree(s, n, st, k); }
      LineReads(s, n, k, k + 2, st.tally);
      EntryInRange(s, n, k);
      NextRead(s, n, st, k);
      assert lines[k..][0] == NodeLine(s, s.order[k]) && lines[k..][1..] == lines[k + 1..];
      end := LinesRead(s, n, Enter(st, EntryAt(s, n, k)), k + 1);
    }
  }

  lemma ReadSized(s: Stored, n: nat, st: Listing, k: nat)
    requires Sound(s, n) && k <= n && ReadSoFar(s, n, st, k)
    ensures Sized(st, n)
  {
  }

  lemma EntryInRange(s: Stored, n: nat, k: nat)
    requires Sound(s, n) && k < n
    ensures EntryAt(s, n, k).id == k
  {
  }

  lemma StartRead(s: Stored, n: nat)
    requires Sound(s, n)
    ensures ReadSoFar(s, n, Blank(n), 0)
  {
  }

  // ---- the tree read back ----

  /** The same tree with its nodes renumbered. */
  ghost function Renumber(t: Tree, place: seq<nat>): Tree
    requires IdsBelow(t, |place|)
  {
    match t
    case Leaf(id) => Leaf(place[id])
    case Inner(id, left, right) => Inner(place[id], Renumber(left, place), Renumber(right, place))
  }

  /** Each id of `a` replaced by its place. */
  ghost predicate Placed(a: seq<nat>, b: seq<nat>, place: seq<nat>) {
    |a| == |b| && forall k :: 0 <= k < |a| ==> a[k] < |place| && b[k] == place[a[k]]
  }

  lemma PlacedTogether(id: nat, a: seq<nat>, b: seq<nat>, a': seq<nat>, b': seq<nat>, place: seq<nat>)
    requires id < |place| && Placed(a, a', place) && Placed(b, b', place)
    ensures Placed([id] + (a + b), [place[id]] + (a' + b'), place)
  {
  }

  lemma {:induction false} RenumberedPreorder(t: Tree, place: seq<nat>)
    requires IdsBelow(t, |place|)
    ensures Placed(Preorder(t), Preorder(Renumber(t, place)), place)
  {
    if t.Inner? {
      hide Placed;
      RenumberedPreorder(t.left, place);
      RenumberedPreorder(t.right, place);
      PlacedTogether(t.id, Preorder(t.left), Preorder(t.right),
                     Preorder(Renumber(t.left, place)), Preorder(Renumber(t.right, place)), place);
    }
  }

  lemma {:induction false} RenumberedMatches(s: Stored, n: nat, st: Listing, t: Tree)
    requires Sound(s, n) && ReadSoFar(s, n, st, n) && Matches(t, s.left, s.right)
    ensures IdsBelow(t, n) && Matches(Renumber(t, s.place), st.left, st.right)
  {
    MatchedIds(t, s.left, s.right);
    var j := s.place[t.id];
    assert Told(s, n, st, j) && s.order[j] == t.id;
    if t.Inner? {
      RenumberedMatches(s, n, st, t.left);
      RenumberedMatches(s, n, st, t.right);
    }
  }

  /** The node written last is the root: every other node has a parent written after it. */
  lemma RootIsLast(s: Stored, n: nat, t: Tree, root: nat)
    requires Sound(s, n) && ChildrenFirst(s, n) && IsTree(t, s.left, s.right, root)
    ensures n > 0 && root < n && s.place[root] == n - 1
  {
    hide Preorder, SubtreeAt, DepthAt, Matches;
    MatchesBounded(t, s.left, s.right);
    FullWhenDistinct(Preorder(t), n);
    assert Preorder(t)[0] == root && root in Preorder(t);
    SizePositive(t);
    var last := s.order[n - 1];
    assert last in Preorder(t);
    var k: nat :| k < Size(t) && Preorder(t)[k] == last;
    if k > 0 { NotLast(s, n, t, root, k); }
  }

  lemma NotLast(s: Stored, n: nat, t: Tree, root: nat, k: nat)
    requires Sound(s, n) && ChildrenFirst(s, n) && IsTree(t, s.left, s.right, root) && 0 < k < Size(t)
    ensures Preorder(t)[k] < n && s.place[Preorder(t)[k]] < n - 1
  {
    hide Preorder, SubtreeAt, DepthAt;
    var p := ParentAt(t, k);
    MatchesAt(t, s.left, s.right, p);
    MatchesAt(t, s.left, s.right, k);
    ChildrenAt(t, p);
    TopAt(t, p);
    TopAt(t, k);
    PreorderPlace(t, s.left, s.right, p);
    assert s.place[Preorder(t)[p]] < n;
  }

  lemma RenumberedDistinct(s: Stored, n: nat, t: Tree)
    requires Sound(s, n) && Distinct(Preorder(t)) && IdsBelow(t, n)
    ensures Distinct(Preorder(Renumber(t, s.place))) && Size(Renumber(t, s.place)) == Size(t)
  {
    RenumberedPreorder(t, s.place);
    var a, b := Preorder(t), Preorder(Renumber(t, s.place));
    forall i, j | 0 <= i < j < |b| ensures b[i] != b[j] {
      assert a[i] != a[j] && s.order[s.place[a[i]]] == a[i] && s.order[s.place[a[j]]] == a[j];
    }
  }

  /** The leaves read back carry the variables they were written with. */
  ghost predicate SameLeaves(s: Stored, n: nat, left: seq<int>, variable: seq<nat>)
    requires Sound(s, n)
  {
    && |left| == |variable| == n
    && forall i :: 0 <= i < n && s.left[i] < 0 ==> left[s.place[i]] < 0 && variable[s.place[i]] == s.variable[i]
  }

  lemma FullyTold(s: Stored, n: nat, st: Listing)
    requires Sound(s, n) && ReadSoFar(s, n, st, n)
    ensures Sized(st, n) && AllListed(st) && st.tally.root == n - 1
    ensures SameLeaves(s, n, st.left, st.variable)
  {
    forall j: nat | j < n ensures st.listed[j] { assert Told(s, n, st, j); }
    forall i: nat | i < n && s.left[i] < 0 ensures st.left[s.place[i]] < 0 && st.variable[s.place[i]] == s.variable[i] {
      assert Told(s, n, st, s.place[i]);
    }
  }

  lemma HeaderReads(n: nat)
    requires n > 0
    ensures HeaderCount(HeaderLine(n)) == if n > MOST_NODES then Err(TooManyNodes(n)) else Ok(n)
  {
    hide NatText, ReadCount;
    PrintedCount(n);
  }

  lemma TreeReadBack(s: Stored, n: nat, t: Tree, root: nat, st: Listing)
    requires Sound(s, n) && ChildrenFirst(s, n) && IsTree(t, s.left, s.right, root) && ReadSoFar(s, n, st, n)
    ensures IdsBelow(t, n) && IsTreeOf(Renumber(t, s.place), st)
  {
    hide Matches, Preorder, ChildrenFirst, ReadSoFar;
    RootIsLast(s, n, t, root);
    FullyTold(s, n, st);
    RenumberedMatches(s, n, st, t);
    RenumberedDistinct(s, n, t);
  }

  /** A written tree of at most 2^27 nodes is read back: the same tree, each leaf with the variable it had. */
  lemma WrittenIsRead(s: Stored, n: nat, t: Tree, root: nat) returns (st: Listing)
    requires Sound(s, n) && ChildrenFirst(s, n) && OwnVariables(s, n) && IsTree(t, s.left, s.right, root)
    ensures 0 < n && (n <= MOST_NODES ==> Lists(HeaderLine(n), TextLines(s, n), st))
    ensures HeaderCount(HeaderLine(n)) == if n > MOST_NODES then Err(TooManyNodes(n)) else Ok(n)
    ensures IdsBelow(t, n) && IsTreeOf(Renumber(t, s.place), st)
    ensures SameLeaves(s, n, st.left, st.variable)
  {
    hide HeaderLine, HeaderCount, OwnVariables, ChildrenFirst, IsTree, IsTreeOf, ReadSoFar, Kept, AllListed, SameLeaves;
    RootIsLast(s, n, t, root);
    HeaderReads(n);
    StartRead(s, n);
    st := LinesRead(s, n, Blank(n), 0);
    assert TextLines(s, n)[0..] == TextLines(s, n);
    FullyTold(s, n, st);
    TreeReadBack(s, n, t, root, st);
  }

  /** Writing a tree and reading the text gives the same tree renumbered, or refuses it for its size alone. */
  method WriteAndRead(s: Stored, n: nat, ghost t: Tree, root: nat) returns (r: Result<Vtree, VtreeError>)
    requires Sound(s, n) && ChildrenFirst(s, n) && OwnVariables(s, n) && IsTree(t, s.left, s.right, root)
    ensures r.Ok? <==> n <= MOST_NODES
    ensures IdsBelow(t, n) && (r.Ok? ==> exists st :: Describes(r.value, st, Renumber(t, s.place)))
    ensures r.Ok? ==> SameLeaves(s, n, r.value.left, r.value.variable)
  {
    hide ChildrenFirst, OwnVariables, IsTree, HeaderCount, ReadAll, Preorder, Renumber, SameLeaves, WalkTells, Measured,
         AllListed;
    var header, lines := WriteVtree(s, n);
    ghost var st := WrittenIsRead(s, n, t, root);
    r := ParseVtree(header, lines);
    if r.Ok? { ReadIsWritten(r.value, header, lines, st, Renumber(t, s.place)); }
  }

  lemma ReadIsWritten(v: Vtree, header: Fields, lines: seq<Fields>, st: Listing, t: Tree)
    requires Lists(header, lines, st) && IsTreeOf(t, st)
    requires exists st', t' :: Lists(header, lines, st') && Describes(v, st', t')
    ensures Describes(v, st, t)
  {
    hide HeaderCount, ReadAll, WalkTells, Measured, AllListed, Matches, Preorder;
    var st', t' :| Lists(header, lines, st') && Describes(v, st', t');
    OneTree(st.left, st.right, st.tally.root, t, t');
  }
}
