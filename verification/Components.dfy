/** Clause lists split where no variable crosses, by union-find over the variables. */
module Components {
  import opened Wrappers
  import opened Sequences
  import opened Cnf
  import UF = UnionFind

  // ---- what a component is ----

  ghost predicate SharesVar(c: Clause, d: Clause) {
    exists v :: Mentions(c, v) && Mentions(d, v)
  }

  /** A chain of clauses, each sharing a variable with the next. */
  ghost predicate IsClauseChain(cs: seq<Clause>, chain: seq<nat>) {
    && chain != []
    && (forall k :: 0 <= k < |chain| ==> chain[k] < |cs|)
    && (forall k :: 0 <= k < |chain| - 1 ==> SharesVar(cs[chain[k]], cs[chain[k + 1]]))
  }

  ghost predicate ChainFromTo(cs: seq<Clause>, chain: seq<nat>, i: nat, j: nat) {
    IsClauseChain(cs, chain) && chain[0] == i && chain[|chain| - 1] == j
  }

  /** Two clauses in one component: linked by a chain, or both empty. */
  ghost predicate Related(cs: seq<Clause>, i: nat, j: nat)
    requires i < |cs| && j < |cs|
  {
    || (cs[i] == [] && cs[j] == [])
    || (cs[i] != [] && cs[j] != [] && exists chain :: ChainFromTo(cs, chain, i, j))
  }

  // ---- from unions to chains ----

  /** The unions one clause performs: its first variable with each of the others. */
  function ClauseUnions(c: Clause): seq<(nat, nat)> {
    if |c| <= 1 then [] else ClauseUnions(c[..|c| - 1]) + [(Idx(c[0].v), Idx(c[|c| - 1].v))]
  }

  function AllUnions(cs: seq<Clause>): seq<(nat, nat)> {
    if cs == [] then [] else AllUnions(cs[..|cs| - 1]) + ClauseUnions(cs[|cs| - 1])
  }

  lemma {:induction false} ClauseUnionsMembers(c: Clause)
    ensures forall p: (nat, nat) :: p in ClauseUnions(c) ==>
              c != [] && p.0 == Idx(c[0].v) && exists l :: l in c && p.1 == Idx(l.v)
    ensures forall l :: l in c ==> l == c[0] || (Idx(c[0].v), Idx(l.v)) in ClauseUnions(c)
  {
    if |c| > 1 {
      var front := c[..|c| - 1];
      ClauseUnionsMembers(front);
      assert forall l :: l in c <==> l in front || l == c[|c| - 1];
      assert front[0] == c[0];
    }
  }

  lemma {:induction false} AllUnionsMembers(cs: seq<Clause>)
    ensures forall p: (nat, nat) :: p in AllUnions(cs) <==> exists c :: c in cs && p in ClauseUnions(c)
  {
    hide ClauseUnions;
    if cs != [] {
      var front, last := cs[..|cs| - 1], cs[|cs| - 1];
      AllUnionsMembers(front);
      forall p: (nat, nat) ensures p in AllUnions(cs) <==> exists c :: c in cs && p in ClauseUnions(c) {
        assert p in AllUnions(cs) <==> p in AllUnions(front) || p in ClauseUnions(last);
        assert forall c :: c in cs <==> c in front || c == last;
      }
    }
  }

  /** Any two variables of one clause are connected by the unions. */
  lemma ClauseVarsConnected(cs: seq<Clause>, c: Clause, l: Literal, m: Literal)
    requires c in cs && l in c && m in c
    ensures UF.Connected(AllUnions(cs), Idx(l.v), Idx(m.v))
  {
    FirstConnected(cs, c, l);
    FirstConnected(cs, c, m);
    UF.ConnectedSymmetric(AllUnions(cs), Idx(c[0].v), Idx(l.v));
    UF.ConnectedTransitive(AllUnions(cs), Idx(l.v), Idx(c[0].v), Idx(m.v));
  }

  lemma FirstConnected(cs: seq<Clause>, c: Clause, l: Literal)
    requires c in cs && l in c
    ensures UF.Connected(AllUnions(cs), Idx(c[0].v), Idx(l.v))
  {
    ClauseUnionsMembers(c);
    AllUnionsMembers(cs);
    if l == c[0] {
      UF.ConnectedReflexive(AllUnions(cs), Idx(l.v));
    } else {
      UF.ConnectedByPair(AllUnions(cs), Idx(c[0].v), Idx(l.v));
    }
  }

  lemma MentionedLiteral(c: Clause, v: VarId) returns (l: Literal)
    requires Mentions(c, v)
    ensures l in c && l.v == v
  {
    l := if Literal(v, true) in c then Literal(v, true) else Literal(v, false);
  }

  /** A chain of clauses connects the first variables of its ends. */
  lemma {:induction false} ChainConnectsFirsts(cs: seq<Clause>, chain: seq<nat>)
    requires IsClauseChain(cs, chain) && cs[chain[0]] != [] && cs[chain[|chain| - 1]] != []
    ensures UF.Connected(AllUnions(cs), Idx(cs[chain[0]][0].v), Idx(cs[chain[|chain| - 1]][0].v))
  {
    if |chain| == 1 {
      UF.ConnectedReflexive(AllUnions(cs), Idx(cs[chain[0]][0].v));
    } else {
      var c, d := cs[chain[0]], cs[chain[1]];
      assert SharesVar(c, d);
      var v :| Mentions(c, v) && Mentions(d, v);
      var l := MentionedLiteral(c, v);
      var m := MentionedLiteral(d, v);
      ClauseVarsConnected(cs, c, c[0], l);
      ClauseVarsConnected(cs, d, m, d[0]);
      UF.ConnectedTransitive(AllUnions(cs), Idx(c[0].v), Idx(v), Idx(d[0].v));
      ChainTail(cs, chain);
      ChainConnectsFirsts(cs, chain[1..]);
      UF.ConnectedTransitive(AllUnions(cs), Idx(c[0].v), Idx(d[0].v), Idx(cs[chain[|chain| - 1]][0].v));
    }
  }

  lemma ChainTail(cs: seq<Clause>, chain: seq<nat>)
    requires IsClauseChain(cs, chain) && |chain| > 1
    ensures IsClauseChain(cs, chain[1..])
  {
    forall k | 0 <= k < |chain[1..]| - 1 ensures SharesVar(cs[chain[1..][k]], cs[chain[1..][k + 1]]) {
      assert SharesVar(cs[chain[k + 1]], cs[chain[k + 2]]);
    }
  }

  /** Each union comes from a clause holding both variables. */
  lemma LinkedInClause(cs: seq<Clause>, x: nat, y: nat) returns (i: nat)
    requires x < MAX_VAR && y < MAX_VAR && UF.Linked(AllUnions(cs), x, y)
    ensures i < |cs| && Mentions(cs[i], FromIdx(x)) && Mentions(cs[i], FromIdx(y))
  {
    AllUnionsMembers(cs);
    var p := if (x, y) in AllUnions(cs) then (x, y) else (y, x);
    var c :| c in cs && p in ClauseUnions(c);
    ClauseUnionsMembers(c);
    var l :| l in c && p.1 == Idx(l.v);
    assert c[0] in c && LitMentions(c, c[0]) && LitMentions(c, l);
    i :| i < |cs| && cs[i] == c;
  }

  predicate LitMentions(c: Clause, l: Literal)
    ensures l in c ==> Mentions(c, l.v)
  {
    assert l == Literal(l.v, l.positive);
    Mentions(c, l.v)
  }

  /** A chain of unions from a variable of clause `i` to one of clause `j` gives a chain of clauses. */
  lemma {:induction false} UnionsChainClauses(cs: seq<Clause>, vars: seq<nat>, i: nat, j: nat) returns (chain: seq<nat>)
    requires UF.IsChain(AllUnions(cs), vars) && (forall k :: 0 <= k < |vars| ==> vars[k] < MAX_VAR)
    requires i < |cs| && j < |cs|
    requires Mentions(cs[i], FromIdx(vars[0])) && Mentions(cs[j], FromIdx(vars[|vars| - 1]))
    ensures ChainFromTo(cs, chain, i, j)
  {
    if |vars| == 1 {
      chain := [i, j];
      assert SharesVar(cs[i], cs[j]);
    } else {
      assert UF.Linked(AllUnions(cs), vars[0], vars[1]);
      var m := LinkedInClause(cs, vars[0], vars[1]);
      UnionsTail(AllUnions(cs), vars);
      var rest := UnionsChainClauses(cs, vars[1..], m, j);
      chain := [i] + rest;
      assert SharesVar(cs[i], cs[m]);
      forall k | 0 <= k < |chain| - 1 ensures SharesVar(cs[chain[k]], cs[chain[k + 1]]) {
        if k > 0 { assert SharesVar(cs[rest[k - 1]], cs[rest[k]]); }
      }
    }
  }

  lemma UnionsTail(unions: seq<(nat, nat)>, chain: seq<nat>)
    requires UF.IsChain(unions, chain) && |chain| > 1
    ensures UF.IsChain(unions, chain[1..])
  {
    forall k | 0 <= k < |chain[1..]| - 1 ensures UF.Linked(unions, chain[1..][k], chain[1..][k + 1]) {
      assert UF.Linked(unions, chain[k + 1], chain[k + 2]);
    }
  }

  lemma {:induction false} UnionsInRange(cs: seq<Clause>)
    ensures forall p: (nat, nat) :: p in AllUnions(cs) ==> p.0 < MAX_VAR && p.1 < MAX_VAR
  {
    AllUnionsMembers(cs);
    forall p: (nat, nat) | p in AllUnions(cs) ensures p.0 < MAX_VAR && p.1 < MAX_VAR {
      var c :| c in cs && p in ClauseUnions(c);
      ClauseUnionsMembers(c);
    }
  }

  /** Connected first variables are exactly related clauses. */
  lemma RelatedByUnions(cs: seq<Clause>, i: nat, j: nat)
    requires i < |cs| && j < |cs| && cs[i] != [] && cs[j] != []
    ensures Related(cs, i, j) <==> UF.Connected(AllUnions(cs), Idx(cs[i][0].v), Idx(cs[j][0].v))
  {
    if Related(cs, i, j) {
      var chain :| ChainFromTo(cs, chain, i, j);
      ChainConnectsFirsts(cs, chain);
    }
    var x, y := Idx(cs[i][0].v), Idx(cs[j][0].v);
    if UF.Connected(AllUnions(cs), x, y) {
      var vars := UF.ConnectedChain(AllUnions(cs), x, y);
      UnionsInRange(cs);
      forall k | 0 <= k < |vars| ensures vars[k] < MAX_VAR {
        if k < |vars| - 1 { assert UF.Linked(AllUnions(cs), vars[k], vars[k + 1]); }
      }
      assert LitMentions(cs[i], cs[i][0]) && LitMentions(cs[j], cs[j][0]);
      var chain := UnionsChainClauses(cs, vars, i, j);
    }
  }

  // ---- the split ----

  const USIZE_MAX: int := 0xFFFF_FFFF_FFFF_FFFF
  const U32_MAX: int := 0xFFFF_FFFF

  function Smaller(a: int, b: int): int { if a < b then a else b }

  /** The smallest variable a clause names, `u32::MAX` for the empty clause. */
  function MinVarOf(c: Clause): int {
    if c == [] then U32_MAX else Smaller(MinVarOf(c[..|c| - 1]), c[|c| - 1].v)
  }

  function MinVar(cs: seq<Clause>, group: seq<nat>): int {
    if group == [] then U32_MAX
    else
      var i := group[|group| - 1];
      Smaller(MinVar(cs, group[..|group| - 1]), if i < |cs| then MinVarOf(cs[i]) else U32_MAX)
  }

  /** The sort key `(size, smallest variable)`, compared lexicographically. */
  function GroupKey(cs: seq<Clause>, group: seq<nat>): int {
    |group| * 0x1_0000_0000 + MinVar(cs, group)
  }

  function KeyOf(cs: seq<Clause>): seq<nat> -> int {
    g => GroupKey(cs, g)
  }

  lemma {:induction false} MinVarOfMeaning(c: Clause)
    ensures MinVarOf(c) == U32_MAX <==> c == []
    ensures 1 <= MinVarOf(c) <= U32_MAX
    ensures c != [] ==> exists l :: l in c && l.v == MinVarOf(c)
  {
    if c != [] {
      var front, last := c[..|c| - 1], c[|c| - 1];
      MinVarOfMeaning(front);
      assert last in c && forall l :: l in front ==> l in c;
    }
  }

  lemma {:induction false} MinVarMeaning(cs: seq<Clause>, group: seq<nat>)
    requires forall i: nat :: i in group ==> i < |cs|
    ensures 1 <= MinVar(cs, group) <= U32_MAX
    ensures MinVar(cs, group) == U32_MAX <==> forall i: nat :: i in group ==> cs[i] == []
    ensures MinVar(cs, group) != U32_MAX ==>
              exists i: nat, l :: i in group && l in cs[i] && l.v == MinVar(cs, group)
  {
    if group != [] {
      var front, last := group[..|group| - 1], group[|group| - 1];
      assert forall i: nat :: i in group <==> i in front || i == last;
      assert last in group;
      MinVarMeaning(cs, front);
      MinVarOfMeaning(cs[last]);
    }
  }

  /** A split as the source describes it: groups of increasing indices covering every clause, one
      group per component, ordered by size and then by smallest variable. */
  ghost predicate IsSplit(cs: seq<Clause>, groups: seq<seq<nat>>) {
    && (forall g :: g in groups ==> g != [] && Increasing(g) && forall i: nat :: i in g ==> i < |cs|)
    && (forall i: nat :: i < |cs| ==> Covered(groups, i))
    && (forall g, h :: g in groups && h in groups ==> SameExactly(cs, g, h))
    && (forall m, n :: 0 <= m < n < |groups| ==> GroupKey(cs, groups[m]) < GroupKey(cs, groups[n]))
  }

  ghost predicate Covered(groups: seq<seq<nat>>, i: nat) {
    exists g :: g in groups && i in g
  }

  /** Clauses of one group are related, clauses of different groups are not. */
  ghost predicate SameExactly(cs: seq<Clause>, g: seq<nat>, h: seq<nat>) {
    forall i: nat, j: nat :: i in g && j in h && i < |cs| && j < |cs| ==> (Related(cs, i, j) <==> g == h)
  }

  /** The clause list has exactly one split, so no iteration order can show through. */
  lemma SplitIsUnique(cs: seq<Clause>, a: seq<seq<nat>>, b: seq<seq<nat>>)
    requires IsSplit(cs, a) && IsSplit(cs, b)
    ensures a == b
  {
    SplitWithin(cs, a, b);
    SplitWithin(cs, b, a);
    IncreasingByUnique(a, b, KeyOf(cs));
  }

  lemma SplitWithin(cs: seq<Clause>, a: seq<seq<nat>>, b: seq<seq<nat>>)
    requires IsSplit(cs, a) && IsSplit(cs, b)
    ensures forall g :: g in a ==> g in b
  {
    forall g | g in a ensures g in b {
      var i := g[0];
      assert i in g && Covered(b, i);
      var h :| h in b && i in h;
      assert SameExactly(cs, g, g) && SameExactly(cs, h, h);
      forall j: nat ensures j in g <==> j in h {
        if j in g {
          assert Related(cs, i, j) && Covered(b, j);
          var h' :| h' in b && j in h';
          assert SameExactly(cs, h, h');
        }
        if j in h {
          assert Related(cs, i, j) && Covered(a, j);
          var g' :| g' in a && j in g';
          assert SameExactly(cs, g, g');
        }
      }
      IncreasingByUnique(g, h, (x: nat) => x);
    }
  }

  /** The bucket key of a clause: its first variable's root, or one key for all empty clauses. */
  ghost function Rep(roots: seq<nat>, c: Clause): nat
    requires c != [] ==> Idx(c[0].v) < |roots|
  {
    if c == [] then USIZE_MAX else roots[Idx(c[0].v)]
  }

  /** The clauses with one key, in clause order. */
  ghost function Bucket(reps: seq<nat>, key: nat): seq<nat> {
    if reps == [] then []
    else Bucket(reps[..|reps| - 1], key) + (if reps[|reps| - 1] == key then [|reps| - 1] else [])
  }

  lemma {:induction false} BucketMeaning(reps: seq<nat>, key: nat)
    ensures Increasing(Bucket(reps, key))
    ensures forall i: nat :: i in Bucket(reps, key) <==> i < |reps| && reps[i] == key
  {
    if reps != [] {
      var n := |reps| - 1;
      BucketMeaning(reps[..n], key);
      var front := Bucket(reps[..n], key);
      forall i: nat ensures i in Bucket(reps, key) <==> i < |reps| && reps[i] == key {
        assert i in Bucket(reps, key) <==> i in front || (i == n && reps[n] == key);
      }
      IncreasingAppend(front, n);
    }
  }

  lemma IncreasingAppend(s: seq<nat>, n: nat)
    requires Increasing(s) && forall x :: x in s ==> x < n
    ensures Increasing(s + [n])
  {
    forall i | 0 <= i < |s| ensures s[i] < n { assert s[i] in s; }
  }

  /** Keys agree exactly for related clauses. */
  ghost predicate RepsMatch(cs: seq<Clause>, reps: seq<nat>) {
    && |reps| == |cs|
    && forall i: nat, j: nat :: i < |cs| && j < |cs| ==> (reps[i] == reps[j] <==> Related(cs, i, j))
  }

  /** The buckets, listed in any order and then sorted, are the split. */
  lemma BucketsAreSplit(cs: seq<Clause>, reps: seq<nat>, listed: seq<seq<nat>>)
    requires RepsMatch(cs, reps)
    requires Distinct(listed)
    requires AreBuckets(reps, listed)
    ensures IsSplit(cs, SortBy(listed, KeyOf(cs)))
  {
    SortByMeaning(listed, KeyOf(cs));
    SortedDistinct(cs, reps, listed);
    BucketsPartition(cs, reps, SortBy(listed, KeyOf(cs)));
  }

  ghost predicate AreBuckets(reps: seq<nat>, groups: seq<seq<nat>>) {
    forall g :: g in groups <==> exists i: nat :: i < |reps| && g == Bucket(reps, reps[i])
  }

  lemma BucketsPartition(cs: seq<Clause>, reps: seq<nat>, groups: seq<seq<nat>>)
    requires RepsMatch(cs, reps) && AreBuckets(reps, groups)
    ensures forall g :: g in groups ==> g != [] && Increasing(g) && forall i: nat :: i in g ==> i < |cs|
    ensures forall i: nat :: i < |cs| ==> Covered(groups, i)
    ensures forall g, h :: g in groups && h in groups ==> SameExactly(cs, g, h)
  {
    forall g | g in groups
      ensures g != [] && Increasing(g) && forall i: nat :: i in g ==> i < |cs|
    {
      var i: nat :| i < |reps| && g == Bucket(reps, reps[i]);
      BucketMeaning(reps, reps[i]);
      assert i in g;
    }
    forall i: nat | i < |cs| ensures Covered(groups, i) {
      BucketMeaning(reps, reps[i]);
      assert Bucket(reps, reps[i]) in groups;
    }
    forall g, h | g in groups && h in groups ensures SameExactly(cs, g, h) {
      BucketsExact(cs, reps, g, h);
    }
  }

  lemma BucketsExact(cs: seq<Clause>, reps: seq<nat>, g: seq<nat>, h: seq<nat>)
    requires RepsMatch(cs, reps)
    requires exists m: nat :: m < |reps| && g == Bucket(reps, reps[m])
    requires exists m: nat :: m < |reps| && h == Bucket(reps, reps[m])
    ensures SameExactly(cs, g, h)
  {
    forall i: nat, j: nat | i in g && j in h && i < |cs| && j < |cs| ensures Related(cs, i, j) <==> g == h {
      InBucket(reps, g, i);
      InBucket(reps, h, j);
    }
  }

  lemma InBucket(reps: seq<nat>, g: seq<nat>, i: nat)
    requires i in g && exists m: nat :: m < |reps| && g == Bucket(reps, reps[m])
    ensures i < |reps| && g == Bucket(reps, reps[i])
    ensures forall j: nat :: j in g <==> j < |reps| && reps[j] == reps[i]
  {
    var m: nat :| m < |reps| && g == Bucket(reps, reps[m]);
    BucketMeaning(reps, reps[m]);
  }

  /** Two different buckets have different sort keys. */
  lemma KeysDiffer(cs: seq<Clause>, reps: seq<nat>, m: nat, n: nat)
    requires RepsMatch(cs, reps) && m < |reps| && n < |reps|
    requires GroupKey(cs, Bucket(reps, reps[m])) == GroupKey(cs, Bucket(reps, reps[n]))
    ensures Bucket(reps, reps[m]) == Bucket(reps, reps[n])
  {
    var g, h := Bucket(reps, reps[m]), Bucket(reps, reps[n]);
    BucketMeaning(reps, reps[m]);
    BucketMeaning(reps, reps[n]);
    assert m in g && n in h;
    var i, j := CommonMember(cs, g, h, m, n);
    InBucket(reps, g, i);
    InBucket(reps, h, j);
  }

  /** Equal keys mean a shared smallest variable, or only empty clauses on both sides. */
  lemma CommonMember(cs: seq<Clause>, g: seq<nat>, h: seq<nat>, m: nat, n: nat) returns (i: nat, j: nat)
    requires m in g && n in h && GroupKey(cs, g) == GroupKey(cs, h)
    requires forall k: nat :: k in g || k in h ==> k < |cs|
    ensures i in g && j in h && Related(cs, i, j)
  {
    MinVarMeaning(cs, g);
    MinVarMeaning(cs, h);
    assert MinVar(cs, g) == MinVar(cs, h);
    if MinVar(cs, g) == U32_MAX {
      i, j := m, n;
    } else {
      var l, k;
      i, l :| i in g && l in cs[i] && l.v == MinVar(cs, g);
      j, k :| j in h && k in cs[j] && k.v == MinVar(cs, h);
      SharedVarRelates(cs, i, j, l, k);
    }
  }

  lemma SharedVarRelates(cs: seq<Clause>, i: nat, j: nat, l: Literal, k: Literal)
    requires i < |cs| && j < |cs| && l in cs[i] && k in cs[j] && l.v == k.v
    ensures Related(cs, i, j)
  {
    assert LitMentions(cs[i], l) && LitMentions(cs[j], k);
    assert SharesVar(cs[i], cs[j]);
    assert ChainFromTo(cs, [i, j], i, j);
  }

  lemma SortedDistinct(cs: seq<Clause>, reps: seq<nat>, listed: seq<seq<nat>>)
    requires RepsMatch(cs, reps) && Distinct(listed)
    requires AreBuckets(reps, listed)
    ensures var groups := SortBy(listed, KeyOf(cs));
            forall m, n :: 0 <= m < n < |groups| ==> GroupKey(cs, groups[m]) < GroupKey(cs, groups[n])
  {
    var key := KeyOf(cs);
    var groups := SortBy(listed, key);
    SortByMeaning(listed, key);
    assert Distinct(groups) by { DistinctByMultiset(listed, groups); }
    forall m, n | 0 <= m < n < |groups| ensures GroupKey(cs, groups[m]) < GroupKey(cs, groups[n]) {
      assert key(groups[m]) <= key(groups[n]);
      assert groups[m] in listed && groups[n] in listed;
      if key(groups[m]) == key(groups[n]) {
        var i: nat :| i < |reps| && groups[m] == Bucket(reps, reps[i]);
        var j: nat :| j < |reps| && groups[n] == Bucket(reps, reps[j]);
        KeysDiffer(cs, reps, i, j);
      }
    }
  }

  /** A rearrangement of a sequence without repeats has none. */
  lemma DistinctByMultiset<T>(a: seq<T>, b: seq<T>)
    requires Distinct(a) && multiset(a) == multiset(b)
    ensures Distinct(b)
  {
    forall x ensures multiset(b)[x] <= 1 { DistinctMultiplicity(a, x); }
    forall i, j | 0 <= i < j < |b| ensures b[i] != b[j] {
      assert b == b[..j] + b[j..];
      assert b[i] in multiset(b[..j]) && b[j] in multiset(b[j..]);
      assert multiset(b)[b[i]] == multiset(b[..j])[b[i]] + multiset(b[j..])[b[i]];
    }
  }

  lemma {:induction false} DistinctMultiplicity<T>(a: seq<T>, x: T)
    requires Distinct(a)
    ensures multiset(a)[x] <= 1
  {
    if a != [] {
      var n := |a| - 1;
      DistinctMultiplicity(a[..n], x);
      assert a == a[..n] + [a[n]];
      if x == a[n] { assert x !in a[..n]; }
    }
  }

  /** Every clause unions its variables. */
  method UniteAll(uf: UF.UnionFind, cs: seq<Clause>, numVars: nat)
    requires uf.Valid() && uf.parent.Length == numVars && uf.unions == []
    requires forall c :: c in cs ==> InRange(c, numVars)
    modifies uf, uf.parent, uf.rank
    ensures uf.Valid() && uf.parent == old(uf.parent) && uf.rank == old(uf.rank)
    ensures uf.unions == AllUnions(cs)
  {
    for i := 0 to |cs|
      invariant uf.Valid() && uf.parent == old(uf.parent) && uf.rank == old(uf.rank)
      invariant uf.unions == AllUnions(cs[..i])
    {
      var c := cs[i];
      assert c in cs && cs[..i + 1][..i] == cs[..i];
      if c != [] {
        assert ClauseUnions(c[..1]) == [];
        for k := 1 to |c|
          invariant uf.Valid() && uf.parent == old(uf.parent) && uf.rank == old(uf.rank)
          invariant uf.unions == AllUnions(cs[..i]) + ClauseUnions(c[..k])
        {
          assert c[0] in c && c[k] in c;
          assert c[..k + 1][..k] == c[..k];
          uf.Union(Idx(c[0].v), Idx(c[k].v));
        }
        assert c[..|c|] == c;
      }
    }
    assert cs[..|cs|] == cs;
  }

  /** The bucket key of one clause, found in the union-find. */
  method RepOf(uf: UF.UnionFind, c: Clause, numVars: nat) returns (rep: nat)
    requires uf.Valid() && uf.parent.Length == numVars && InRange(c, numVars)
    modifies uf.parent
    ensures uf.Valid() && uf.Roots() == old(uf.Roots())
    ensures FirstInRange(c, numVars) && rep == Rep(uf.Roots(), c)
  {
    if c == [] { return USIZE_MAX; }
    assert c[0] in c;
    rep := uf.Find(Idx(c[0].v));
  }

  /** Each clause goes into the bucket of its first variable's representative. */
  method BucketAll(uf: UF.UnionFind, cs: seq<Clause>, numVars: nat, ghost roots: seq<nat>)
    returns (byRep: map<nat, seq<nat>>, ghost reps: seq<nat>)
    requires uf.Valid() && uf.parent.Length == numVars
    requires forall c :: c in cs ==> InRange(c, numVars)
    requires roots == uf.Roots()
    modifies uf.parent
    ensures |reps| == |cs| && forall i: nat :: i < |cs| ==> FirstInRange(cs[i], numVars) && reps[i] == Rep(roots, cs[i])
    ensures IsBucketMap(byRep, reps)
  {
    hide Bucket, Rep;
    byRep, reps := map[], [];
    for i := 0 to |cs|
      invariant uf.Valid()
      invariant roots == uf.Roots()
      invariant |reps| == i && forall k: nat :: k < i ==> FirstInRange(cs[k], numVars) && reps[k] == Rep(roots, cs[k])
      invariant IsBucketMap(byRep, reps)
    {
      assert cs[i] in cs;
      var rep := RepOf(uf, cs[i], numVars);
      BucketStep(byRep, reps, rep);
      byRep := byRep[rep := (if rep in byRep then byRep[rep] else []) + [i]];
      reps := reps + [rep];
    }
  }

  /** The hash map holds one bucket for each key met. */
  ghost predicate IsBucketMap(byRep: map<nat, seq<nat>>, reps: seq<nat>) {
    byRep.Keys == ToSet(reps) && forall key: nat :: key in byRep ==> byRep[key] == Bucket(reps, key)
  }

  lemma BucketStep(byRep: map<nat, seq<nat>>, reps: seq<nat>, rep: nat)
    requires IsBucketMap(byRep, reps)
    ensures IsBucketMap(byRep[rep := (if rep in byRep then byRep[rep] else []) + [|reps|]], reps + [rep])
  {
    if rep !in byRep { UnmetBucket(reps, rep); }
    forall key: nat | key in byRep || key == rep
      ensures Bucket(reps + [rep], key) == Bucket(reps, key) + (if key == rep then [|reps|] else [])
    {
      BucketGrows(reps, rep, key);
    }
    assert forall k: nat :: k in reps + [rep] <==> k in reps || k == rep;
  }

  ghost predicate FirstInRange(c: Clause, numVars: nat) {
    c != [] ==> Idx(c[0].v) < numVars
  }

  lemma BucketGrows(reps: seq<nat>, rep: nat, key: nat)
    ensures Bucket(reps + [rep], key) == Bucket(reps, key) + (if key == rep then [|reps|] else [])
  {
    assert (reps + [rep])[..|reps|] == reps;
  }

  lemma {:induction false} UnmetBucket(reps: seq<nat>, rep: nat)
    requires rep !in reps
    ensures Bucket(reps, rep) == []
  {
    if reps != [] {
      assert reps[|reps| - 1] in reps;
      UnmetBucket(reps[..|reps| - 1], rep);
    }
  }

  /** The map's values, in whatever order its iteration happens to give. */
  method ListValues(byRep: map<nat, seq<nat>>, ghost reps: seq<nat>) returns (listed: seq<seq<nat>>)
    requires IsBucketMap(byRep, reps)
    ensures Distinct(listed) && AreBuckets(reps, listed) && |listed| == |byRep|
  {
    hide Bucket;
    listed := [];
    var keys := byRep.Keys;
    ghost var done: set<nat> := {};
    while keys != {}
      invariant keys + done == byRep.Keys && keys !! done
      invariant Distinct(listed) && |listed| == |done|
      invariant forall g :: g in listed <==> exists key: nat :: key in done && g == Bucket(reps, key)
      decreases |keys|
    {
      Inhabited(keys);
      var key: nat :| key in keys;
      NewBucket(reps, done, key, listed);
      listed := listed + [byRep[key]];
      keys := keys - {key};
      done := done + {key};
    }
    assert done == byRep.Keys;
    ListedBuckets(reps, done, listed);
  }

  lemma Inhabited(s: set<nat>)
    requires s != {}
    ensures exists key: nat :: key in s
  {
    var key: nat :| key in s;
  }

  lemma NewBucket(reps: seq<nat>, done: set<nat>, key: nat, listed: seq<seq<nat>>)
    requires key in reps && key !in done && done <= ToSet(reps) && Distinct(listed)
    requires forall g :: g in listed <==> exists k: nat :: k in done && g == Bucket(reps, k)
    ensures Distinct(listed + [Bucket(reps, key)])
  {
    var g := Bucket(reps, key);
    BucketMeaning(reps, key);
    var i: nat :| i < |reps| && reps[i] == key;
    assert i in g;
    if g in listed {
      var k: nat :| k in done && g == Bucket(reps, k);
      BucketMeaning(reps, k);
    }
  }

  lemma ListedBuckets(reps: seq<nat>, done: set<nat>, listed: seq<seq<nat>>)
    requires done == ToSet(reps)
    requires forall g :: g in listed <==> exists key: nat :: key in done && g == Bucket(reps, key)
    ensures AreBuckets(reps, listed)
  {
    forall g | g in listed ensures exists i: nat :: i < |reps| && g == Bucket(reps, reps[i]) {
      var key: nat :| key in done && g == Bucket(reps, key);
      var i: nat :| i < |reps| && reps[i] == key;
    }
    forall i: nat | i < |reps| ensures Bucket(reps, reps[i]) in listed {
      assert reps[i] in done;
    }
  }

  lemma RepsMatchRelated(cs: seq<Clause>, roots: seq<nat>, reps: seq<nat>, numVars: nat)
    requires |reps| == |cs| && |roots| == numVars <= MAX_VAR
    requires forall i: nat :: i < |cs| ==> FirstInRange(cs[i], numVars) && reps[i] == Rep(roots, cs[i])
    requires forall x: nat :: x < numVars ==> roots[x] < numVars
    requires forall x: nat, y: nat :: x < numVars && y < numVars ==>
              (roots[x] == roots[y] <==> UF.Connected(AllUnions(cs), x, y))
    ensures RepsMatch(cs, reps)
  {
    forall i: nat, j: nat | i < |cs| && j < |cs| ensures reps[i] == reps[j] <==> Related(cs, i, j) {
      assert FirstInRange(cs[i], numVars) && FirstInRange(cs[j], numVars);
      if cs[i] != [] && cs[j] != [] { RelatedByUnions(cs, i, j); }
    }
  }

  /** The independent components of a clause list, or `None` when there is only one. */
  method DetectComponentsIn(cs: seq<Clause>, numVars: nat) returns (r: Option<seq<seq<nat>>>)
    requires numVars <= MAX_VAR && forall c :: c in cs ==> InRange(c, numVars)
    ensures r.Some? ==> |r.value| >= 2 && IsSplit(cs, r.value)
    ensures r.None? ==> forall i: nat, j: nat :: i < |cs| && j < |cs| ==> Related(cs, i, j)
  {
    if |cs| <= 1 {
      if |cs| == 1 { assert ChainFromTo(cs, [0], 0, 0); }
      return None;
    }
    var uf := new UF.UnionFind(numVars);
    UniteAll(uf, cs, numVars);
    ghost var roots := uf.Roots();
    var byRep, reps := BucketAll(uf, cs, numVars, roots);
    RepsMatchRelated(cs, roots, reps, numVars);
    if |byRep| <= 1 {
      OneBucket(cs, reps, byRep.Keys);
      return None;
    }
    var listed := ListValues(byRep, reps);
    BucketsAreSplit(cs, reps, listed);
    return Some(SortBy(listed, KeyOf(cs)));
  }

  lemma OneBucket(cs: seq<Clause>, reps: seq<nat>, keys: set<nat>)
    requires RepsMatch(cs, reps) && keys == ToSet(reps) && |keys| <= 1
    ensures forall i: nat, j: nat :: i < |cs| && j < |cs| ==> Related(cs, i, j)
  {
    forall i: nat, j: nat | i < |cs| && j < |cs| ensures Related(cs, i, j) {
      assert reps[i] in keys && reps[j] in keys;
      assert |keys - {reps[i]}| == |keys| - 1;
    }
  }
}
