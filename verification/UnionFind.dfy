/** Disjoint sets with path splitting and union by rank. */
module UnionFind {

  type U8 = r: int | 0 <= r < 256 witness 0

  /** Table sizes fit a 64-bit word. */
  const MAX_SIZE: int := 0x1_0000_0000_0000_0000

  // ---- the forest, on values ----

  /** Parents stay in range, and ranks strictly increase towards the root. */
  ghost predicate IsForest(parent: seq<nat>, rank: seq<U8>) {
    && |rank| == |parent|
    && forall x: nat :: x < |parent| ==>
        && parent[x] < |parent|
        && (parent[x] != x ==> rank[x] < rank[parent[x]])
  }

  ghost function Root(parent: seq<nat>, rank: seq<U8>, x: nat): (r: nat)
    requires IsForest(parent, rank) && x < |parent|
    ensures r < |parent| && parent[r] == r
    decreases 256 - rank[x] as int
  {
    if parent[x] == x then x else Root(parent, rank, parent[x])
  }

  /** The root of every element. */
  ghost function RootList(parent: seq<nat>, rank: seq<U8>): (r: seq<nat>)
    requires IsForest(parent, rank)
    ensures |r| == |parent| && forall x: nat :: x < |parent| ==> r[x] == Root(parent, rank, x) < |parent|
  {
    seq(|parent|, x requires 0 <= x < |parent| => Root(parent, rank, x))
  }

  ghost function Members(parent: seq<nat>, rank: seq<U8>, r: nat): set<nat>
    requires IsForest(parent, rank)
  {
    set x: nat | x < |parent| && Root(parent, rank, x) == r
  }

  ghost function Pow2(n: nat): nat {
    if n == 0 then 1 else 2 * Pow2(n - 1)
  }

  /** A root of rank `r` heads at least `2^r` elements. */
  ghost predicate Heavy(parent: seq<nat>, rank: seq<U8>)
    requires IsForest(parent, rank)
  {
    forall r: nat :: r < |parent| && parent[r] == r ==> |Members(parent, rank, r)| >= Pow2(rank[r])
  }

  /** Pointing a node at its grandparent keeps the forest and every root. */
  lemma SplitKeepsForest(parent: seq<nat>, rank: seq<U8>, x: nat)
    requires IsForest(parent, rank) && x < |parent| && parent[x] != x
    ensures IsForest(parent[x := parent[parent[x]]], rank)
  {
    var p := parent[x];
    assert parent[p] != p ==> rank[p] < rank[parent[p]];
  }

  lemma {:induction false} SplitKeepsRoot(parent: seq<nat>, rank: seq<U8>, x: nat, y: nat)
    requires IsForest(parent, rank) && x < |parent| && parent[x] != x && y < |parent|
    requires IsForest(parent[x := parent[parent[x]]], rank)
    ensures Root(parent[x := parent[parent[x]]], rank, y) == Root(parent, rank, y)
    decreases 256 - rank[y] as int
  {
    var parent' := parent[x := parent[parent[x]]];
    if y == x {
      SplitKeepsRoot(parent, rank, x, parent[parent[x]]);
    } else if parent[y] != y {
      SplitKeepsRoot(parent, rank, x, parent[y]);
    }
  }

  /** Hanging the root `b` under the root `a`, whose new rank is above `b`'s. */
  ghost predicate Links(parent: seq<nat>, rank: seq<U8>, a: nat, b: nat, rank': seq<U8>) {
    && IsForest(parent, rank)
    && a < |parent| && b < |parent| && a != b && parent[a] == a && parent[b] == b
    && |rank'| == |rank|
    && rank'[b] < rank'[a]
    && rank[a] <= rank'[a]
    && forall x: nat :: x < |rank| && x != a ==> rank'[x] == rank[x]
  }

  lemma LinkKeepsForest(parent: seq<nat>, rank: seq<U8>, a: nat, b: nat, rank': seq<U8>)
    requires Links(parent, rank, a, b, rank')
    ensures IsForest(parent[b := a], rank')
  {
  }

  lemma {:induction false} LinkRoot(parent: seq<nat>, rank: seq<U8>, a: nat, b: nat, rank': seq<U8>, x: nat)
    requires Links(parent, rank, a, b, rank') && IsForest(parent[b := a], rank') && x < |parent|
    ensures Root(parent[b := a], rank', x) == (if Root(parent, rank, x) == b then a else Root(parent, rank, x))
    decreases 256 - rank[x] as int
  {
    if parent[x] != x {
      LinkRoot(parent, rank, a, b, rank', parent[x]);
    }
  }

  /** After a link the members of the winner are both old classes, and no other class changes. */
  lemma LinkMembers(parent: seq<nat>, rank: seq<U8>, a: nat, b: nat, rank': seq<U8>, r: nat)
    requires Links(parent, rank, a, b, rank') && IsForest(parent[b := a], rank')
    requires r < |parent| && parent[b := a][r] == r
    ensures |Members(parent[b := a], rank', r)|
         == (if r == a then |Members(parent, rank, a)| + |Members(parent, rank, b)| else |Members(parent, rank, r)|)
  {
    hide Root, IsForest;
    forall x: nat | x < |parent|
      ensures Root(parent[b := a], rank', x) == (if Root(parent, rank, x) == b then a else Root(parent, rank, x))
    {
      LinkRoot(parent, rank, a, b, rank', x);
    }
    var after := Members(parent[b := a], rank', r);
    if r == a {
      var ma, mb := Members(parent, rank, a), Members(parent, rank, b);
      assert after == ma + mb && ma !! mb;
    } else {
      assert after == Members(parent, rank, r);
    }
  }

  lemma LinkStaysHeavy(parent: seq<nat>, rank: seq<U8>, a: nat, b: nat, rank': seq<U8>)
    requires Links(parent, rank, a, b, rank') && IsForest(parent[b := a], rank')
    requires Heavy(parent, rank)
    requires rank'[a] == rank[a] || (rank'[a] as int == rank[a] as int + 1 && rank[b] == rank[a])
    ensures Heavy(parent[b := a], rank')
  {
    var parent' := parent[b := a];
    forall r: nat | r < |parent'| && parent'[r] == r ensures |Members(parent', rank', r)| >= Pow2(rank'[r]) {
      LinkMembers(parent, rank, a, b, rank', r);
      assert |Members(parent, rank, a)| >= Pow2(rank[a]) && |Members(parent, rank, b)| >= Pow2(rank[b]);
    }
  }

  lemma {:induction false} Pow2Monotone(a: nat, b: nat)
    requires a <= b
    ensures Pow2(a) <= Pow2(b)
  {
    if a < b { Pow2Monotone(a, b - 1); }
  }

  lemma Pow2Of64()
    ensures Pow2(64) == MAX_SIZE
  {
    assert Pow2(8) == 0x100;
    assert Pow2(16) == 0x1_0000;
    assert Pow2(24) == 0x100_0000;
    assert Pow2(32) == 0x1_0000_0000;
    assert Pow2(40) == 0x100_0000_0000;
    assert Pow2(48) == 0x1_0000_0000_0000;
    assert Pow2(56) == 0x100_0000_0000_0000;
  }

  lemma {:induction false} BoundedSetCardinality(s: set<nat>, n: nat)
    requires forall x :: x in s ==> x < n
    ensures |s| <= n
  {
    if n > 0 {
      BoundedSetCardinality(s - {n - 1}, n - 1);
    } else {
      assert s == {};
    }
  }

  /** A rank never exceeds 64, so the byte holding it cannot overflow. */
  lemma RankFits(parent: seq<nat>, rank: seq<U8>, r: nat)
    requires IsForest(parent, rank) && Heavy(parent, rank) && |parent| < MAX_SIZE
    requires r < |parent| && parent[r] == r
    ensures rank[r] < 64
  {
    BoundedSetCardinality(Members(parent, rank, r), |parent|);
    Pow2Of64();
    if rank[r] >= 64 {
      Pow2Monotone(64, rank[r]);
      assert false;
    }
  }

  // ---- which elements a list of unions connects ----

  /** The least equivalence that holds every pair of the list. */
  ghost predicate Connected(unions: seq<(nat, nat)>, x: nat, y: nat) {
    if unions == [] then x == y
    else
      var front := unions[..|unions| - 1];
      var (a, b) := unions[|unions| - 1];
      || Connected(front, x, y)
      || (Connected(front, x, a) && Connected(front, b, y))
      || (Connected(front, x, b) && Connected(front, a, y))
  }

  ghost predicate Linked(unions: seq<(nat, nat)>, x: nat, y: nat) {
    (x, y) in unions || (y, x) in unions
  }

  /** A chain of elements, each joined to the next by one of the unions. */
  ghost predicate IsChain(unions: seq<(nat, nat)>, chain: seq<nat>) {
    chain != [] && forall i :: 0 <= i < |chain| - 1 ==> Linked(unions, chain[i], chain[i + 1])
  }

  lemma {:induction false} ConnectedReflexive(unions: seq<(nat, nat)>, x: nat)
    ensures Connected(unions, x, x)
  {
    if unions != [] { ConnectedReflexive(unions[..|unions| - 1], x); }
  }

  lemma {:induction false} ConnectedSymmetric(unions: seq<(nat, nat)>, x: nat, y: nat)
    requires Connected(unions, x, y)
    ensures Connected(unions, y, x)
  {
    if unions != [] {
      var front := unions[..|unions| - 1];
      var (a, b) := unions[|unions| - 1];
      if Connected(front, x, y) {
        ConnectedSymmetric(front, x, y);
      } else if Connected(front, x, a) && Connected(front, b, y) {
        ConnectedSymmetric(front, x, a);
        ConnectedSymmetric(front, b, y);
      } else {
        ConnectedSymmetric(front, x, b);
        ConnectedSymmetric(front, a, y);
      }
    }
  }

  lemma {:induction false} ConnectedTransitive(unions: seq<(nat, nat)>, x: nat, y: nat, z: nat)
    requires Connected(unions, x, y) && Connected(unions, y, z)
    ensures Connected(unions, x, z)
  {
    if unions != [] {
      var front := unions[..|unions| - 1];
      var (a, b) := unions[|unions| - 1];
      // Through the last pair in either direction, or not at all.
      forall u: nat, v: nat, w: nat | Connected(front, u, v) && Connected(front, v, w) ensures Connected(front, u, w) {
        ConnectedTransitive(front, u, v, w);
      }
      forall u: nat, v: nat | Connected(front, u, v) ensures Connected(front, v, u) {
        ConnectedSymmetric(front, u, v);
      }
    }
  }

  lemma {:induction false} ConnectedByPair(unions: seq<(nat, nat)>, x: nat, y: nat)
    requires (x, y) in unions
    ensures Connected(unions, x, y)
  {
    var front, last := unions[..|unions| - 1], unions[|unions| - 1];
    if (x, y) == last {
      ConnectedReflexive(front, x);
      ConnectedReflexive(front, y);
    } else {
      assert (x, y) in front;
      ConnectedByPair(front, x, y);
    }
  }

  /** Being connected is being joined by a chain of unions. */
  lemma {:induction false} ChainConnects(unions: seq<(nat, nat)>, chain: seq<nat>)
    requires IsChain(unions, chain)
    ensures Connected(unions, chain[0], chain[|chain| - 1])
  {
    if |chain| == 1 {
      ConnectedReflexive(unions, chain[0]);
    } else {
      var x, y := chain[0], chain[1];
      assert Linked(unions, x, y);
      if (x, y) in unions {
        ConnectedByPair(unions, x, y);
      } else {
        ConnectedByPair(unions, y, x);
        ConnectedSymmetric(unions, y, x);
      }
      assert IsChain(unions, chain[1..]) by {
        forall i | 0 <= i < |chain[1..]| - 1 ensures Linked(unions, chain[1..][i], chain[1..][i + 1]) {
          assert Linked(unions, chain[i + 1], chain[i + 2]);
        }
      }
      ChainConnects(unions, chain[1..]);
      ConnectedTransitive(unions, x, y, chain[|chain| - 1]);
    }
  }

  lemma {:induction false} ConnectedChain(unions: seq<(nat, nat)>, x: nat, y: nat) returns (chain: seq<nat>)
    requires Connected(unions, x, y)
    ensures IsChain(unions, chain) && chain[0] == x && chain[|chain| - 1] == y
  {
    if unions == [] {
      chain := [x];
    } else {
      var front := unions[..|unions| - 1];
      var (a, b) := unions[|unions| - 1];
      if Connected(front, x, y) {
        chain := ConnectedChain(front, x, y);
        ChainGrows(front, unions, chain);
      } else if Connected(front, x, a) && Connected(front, b, y) {
        var left := ConnectedChain(front, x, a);
        var right := ConnectedChain(front, b, y);
        chain := JoinChains(unions, left, right);
      } else {
        var left := ConnectedChain(front, x, b);
        var right := ConnectedChain(front, a, y);
        chain := JoinChains(unions, left, right);
      }
    }
  }

  lemma ChainGrows(front: seq<(nat, nat)>, unions: seq<(nat, nat)>, chain: seq<nat>)
    requires IsChain(front, chain) && front <= unions
    ensures IsChain(unions, chain)
  {
    forall i | 0 <= i < |chain| - 1 ensures Linked(unions, chain[i], chain[i + 1]) {
      assert Linked(front, chain[i], chain[i + 1]);
    }
  }

  lemma JoinChains(unions: seq<(nat, nat)>, left: seq<nat>, right: seq<nat>) returns (chain: seq<nat>)
    requires unions != [] && IsChain(unions[..|unions| - 1], left) && IsChain(unions[..|unions| - 1], right)
    requires unions[|unions| - 1] == (left[|left| - 1], right[0])
              || unions[|unions| - 1] == (right[0], left[|left| - 1])
    ensures IsChain(unions, chain) && chain[0] == left[0] && chain[|chain| - 1] == right[|right| - 1]
  {
    chain := left + right;
    ChainGrows(unions[..|unions| - 1], unions, left);
    ChainGrows(unions[..|unions| - 1], unions, right);
    forall i | 0 <= i < |chain| - 1 ensures Linked(unions, chain[i], chain[i + 1]) {
      if i < |left| - 1 {
        assert Linked(unions, left[i], left[i + 1]);
      } else if i >= |left| {
        assert Linked(unions, right[i - |left|], right[i - |left| + 1]);
      } else {
        assert unions[|unions| - 1] in unions;
      }
    }
  }

  /** The roots are exactly the classes of the unions performed. */
  ghost predicate RootsMatch(parent: seq<nat>, rank: seq<U8>, unions: seq<(nat, nat)>)
    requires IsForest(parent, rank)
  {
    forall x: nat, y: nat :: x < |parent| && y < |parent| ==>
      (Root(parent, rank, x) == Root(parent, rank, y) <==> Connected(unions, x, y))
  }

  lemma LinkMatches(parent: seq<nat>, rank: seq<U8>, a: nat, b: nat, rank': seq<U8>, unions: seq<(nat, nat)>, x: nat,
                    y: nat)
    requires Links(parent, rank, a, b, rank') && IsForest(parent[b := a], rank')
    requires RootsMatch(parent, rank, unions)
    requires x < |parent| && y < |parent|
    requires {Root(parent, rank, x), Root(parent, rank, y)} == {a, b}
    ensures RootsMatch(parent[b := a], rank', unions + [(x, y)])
  {
    var unions' := unions + [(x, y)];
    assert unions'[..|unions|] == unions;
    forall u: nat, v: nat | u < |parent| && v < |parent|
      ensures Root(parent[b := a], rank', u) == Root(parent[b := a], rank', v) <==> Connected(unions', u, v)
    {
      LinkRoot(parent, rank, a, b, rank', u);
      LinkRoot(parent, rank, a, b, rank', v);
      assert Connected(unions', u, v) <==>
        (Connected(unions, u, v) || (Connected(unions, u, x) && Connected(unions, y, v))
         || (Connected(unions, u, y) && Connected(unions, x, v)));
    }
  }

  /** A union of two elements already together adds nothing. */
  lemma RedundantUnion(parent: seq<nat>, rank: seq<U8>, unions: seq<(nat, nat)>, x: nat, y: nat)
    requires IsForest(parent, rank) && RootsMatch(parent, rank, unions)
    requires x < |parent| && y < |parent| && Root(parent, rank, x) == Root(parent, rank, y)
    ensures RootsMatch(parent, rank, unions + [(x, y)])
  {
    var unions' := unions + [(x, y)];
    assert unions'[..|unions|] == unions;
    forall u: nat, v: nat | u < |parent| && v < |parent|
      ensures Root(parent, rank, u) == Root(parent, rank, v) <==> Connected(unions', u, v)
    {
      assert Connected(unions', u, v) <==>
        (Connected(unions, u, v) || (Connected(unions, u, x) && Connected(unions, y, v))
         || (Connected(unions, u, y) && Connected(unions, x, v)));
    }
  }

  lemma FreshMatches(n: nat)
    ensures var parent: seq<nat> := seq(n, i => i); var rank: seq<U8> := seq(n, _ => 0);
            IsForest(parent, rank) && Heavy(parent, rank) && RootsMatch(parent, rank, [])
  {
    var parent: seq<nat> := seq(n, i => i);
    var rank: seq<U8> := seq(n, _ => 0);
    forall r: nat | r < n ensures |Members(parent, rank, r)| >= Pow2(rank[r]) {
      assert Members(parent, rank, r) == {r};
    }
  }

  // ---- the structure ----

  class UnionFind {
    var parent: array<nat>
    var rank: array<U8>
    /** The unions performed, in order. */
    ghost var unions: seq<(nat, nat)>

    ghost predicate Valid()
      reads this, parent, rank
    {
      && parent.Length < MAX_SIZE
      && parent as object != rank as object
      && IsForest(parent[..], rank[..])
      && Heavy(parent[..], rank[..])
      && RootsMatch(parent[..], rank[..], unions)
    }

    ghost function RootOf(x: nat): (r: nat)
      requires Valid() && x < parent.Length
      reads this, parent, rank
      ensures r < parent.Length
    {
      Root(parent[..], rank[..], x)
    }

    ghost function Roots(): (r: seq<nat>)
      requires Valid()
      reads this, parent, rank
      ensures |r| == parent.Length
    {
      RootList(parent[..], rank[..])
    }

    constructor (n: nat)
      requires n < MAX_SIZE
      ensures Valid() && fresh(parent) && fresh(rank)
      ensures parent.Length == n && unions == []
    {
      parent := new nat[n](i => i);
      rank := new U8[n](_ => 0);
      unions := [];
      new;
      FreshMatches(n);
      assert parent[..] == seq(n, i => i);
      assert rank[..] == seq(n, _ => 0);
    }

    /** The representative of `x`; on the way each node is pointed at its grandparent. */
    method Find(x: nat) returns (r: nat)
      requires Valid() && x < parent.Length
      modifies parent
      ensures Valid()
      ensures r == old(RootOf(x)) == old(Roots()[x]) && parent[r] == r
      ensures Roots() == old(Roots())
    {
      ghost var was, ranks := parent[..], rank[..];
      var at: nat := x;
      while parent[at] != at
        invariant FindHolds(was, parent[..], ranks, x, at)
        decreases 256 - ranks[at] as int
      {
        ghost var before := parent[..];
        FindStep(was, before, ranks, x, at);
        var p := parent[at];
        parent[at] := parent[p];
        assert parent[..] == before[at := before[before[at]]];
        at := p;
      }
      r := at;
      SameRootsKeep(was, parent[..], ranks, unions);
    }

    /** Join the classes of `a` and `b`; the root of higher rank wins. */
    method Union(a: nat, b: nat)
      requires Valid() && a < parent.Length && b < parent.Length
      modifies this`unions, parent, rank
      ensures Valid()
      ensures unions == old(unions) + [(a, b)]
    {
      var ra := Find(a);
      var rb := Find(b);
      assert Roots()[a] == ra && Roots()[b] == rb;
      unions := unions + [(a, b)];
      if ra == rb {
        RedundantUnion(parent[..], rank[..], old(unions), a, b);
        return;
      }
      RankFits(parent[..], rank[..], ra);
      RankFits(parent[..], rank[..], rb);
      if rank[ra] < rank[rb] {
        Link(rb, ra, rank[rb], a, b, old(unions));
      } else if rank[ra] > rank[rb] {
        Link(ra, rb, rank[ra], a, b, old(unions));
      } else {
        Link(ra, rb, rank[ra] + 1, a, b, old(unions));
      }
    }

    /** Hang the root `lower` under the root `upper`, whose rank becomes `top`. */
    method Link(upper: nat, lower: nat, top: U8, ghost a: nat, ghost b: nat, ghost before: seq<(nat, nat)>)
      requires parent.Length < MAX_SIZE && parent as object != rank as object
      requires IsForest(parent[..], rank[..]) && Heavy(parent[..], rank[..]) && RootsMatch(parent[..], rank[..], before)
      requires a < parent.Length && b < parent.Length && unions == before + [(a, b)]
      requires upper < parent.Length && lower < parent.Length && upper != lower
      requires {Root(parent[..], rank[..], a), Root(parent[..], rank[..], b)} == {upper, lower}
      requires parent[upper] == upper && parent[lower] == lower
      requires rank[lower] < top
                && (top == rank[upper] || (top as int == rank[upper] as int + 1 && rank[lower] == rank[upper]))
      modifies parent, rank
      ensures Valid()
    {
      ghost var was, ranks := parent[..], rank[..];
      ghost var ranks' := ranks[upper := top];
      assert Links(was, ranks, upper, lower, ranks');
      LinkKeepsForest(was, ranks, upper, lower, ranks');
      LinkStaysHeavy(was, ranks, upper, lower, ranks');
      LinkMatches(was, ranks, upper, lower, ranks', before, a, b);
      parent[lower] := upper;
      rank[upper] := top;
      assert parent[..] == was[lower := upper] && rank[..] == ranks';
    }
  }

  ghost predicate SameRoots(parent: seq<nat>, parent': seq<nat>, rank: seq<U8>) {
    && IsForest(parent, rank) && IsForest(parent', rank)
    && forall y: nat :: y < |parent| ==> Root(parent', rank, y) == Root(parent, rank, y)
  }

  /** The invariant of the walk: no root has changed, and `at` is in the class of `x`. */
  ghost predicate FindHolds(was: seq<nat>, parent: seq<nat>, rank: seq<U8>, x: nat, at: nat) {
    && SameRoots(was, parent, rank)
    && |parent| == |was| && x < |was| && at < |parent|
    && Root(parent, rank, at) == Root(was, rank, x)
  }

  lemma FindStep(was: seq<nat>, parent: seq<nat>, rank: seq<U8>, x: nat, at: nat)
    requires FindHolds(was, parent, rank, x, at) && parent[at] != at
    ensures parent[at] < |parent| && parent[parent[at]] < |parent|
    ensures FindHolds(was, parent[at := parent[parent[at]]], rank, x, parent[at])
    ensures rank[at] < rank[parent[at]]
  {
    SplitKeepsForest(parent, rank, at);
    SplitSameRoots(was, parent, rank, at);
  }

  lemma SplitSameRoots(was: seq<nat>, parent: seq<nat>, rank: seq<U8>, x: nat)
    requires SameRoots(was, parent, rank) && x < |parent| && parent[x] != x
    requires IsForest(parent[x := parent[parent[x]]], rank)
    ensures SameRoots(was, parent[x := parent[parent[x]]], rank)
    ensures Root(parent[x := parent[parent[x]]], rank, parent[x]) == Root(parent, rank, x)
  {
    forall y: nat | y < |parent| ensures Root(parent[x := parent[parent[x]]], rank, y) == Root(parent, rank, y) {
      SplitKeepsRoot(parent, rank, x, y);
    }
  }

  lemma SameRootsKeep(parent: seq<nat>, parent': seq<nat>, rank: seq<U8>, unions: seq<(nat, nat)>)
    requires SameRoots(parent, parent', rank) && Heavy(parent, rank) && RootsMatch(parent, rank, unions)
    ensures Heavy(parent', rank) && RootsMatch(parent', rank, unions)
  {
    forall r: nat | r < |parent'| && parent'[r] == r ensures |Members(parent', rank, r)| >= Pow2(rank[r]) {
      assert Root(parent', rank, r) == r;
      assert Root(parent, rank, r) == r;
      assert Members(parent', rank, r) == Members(parent, rank, r);
    }
  }
}
