/** Model counts over a set of variables: how they multiply over independent parts, and how renaming
    variables keeps them. */
module Counting {
  import opened Cnf

  /** The models of `cs` over the variables `vars`. */
  ghost function Models(cs: seq<Clause>, vars: set<VarId>): set<Assignment> {
    set a: Assignment | a <= vars && Satisfies(a, cs)
  }

  /** The variables 1 to `n`. */
  function AllVars(n: nat): (s: set<VarId>)
    requires n <= MAX_VAR
    ensures forall v: VarId :: v in s <==> v <= n
  {
    if n == 0 then {} else AllVars(n - 1) + {n}
  }

  ghost function Count(f: Formula): nat
    requires f.numVars <= MAX_VAR
  {
    |Models(f.clauses, AllVars(f.numVars))|
  }

  ghost predicate Over(cs: seq<Clause>, vars: set<VarId>) {
    forall c, l :: c in cs && l in c ==> l.v in vars
  }

  ghost function Pow2(n: nat): nat {
    if n == 0 then 1 else 2 * Pow2(n - 1)
  }

  // ---- cardinalities ----

  ghost predicate InjectiveOn<A, B>(s: set<A>, f: A -> B) {
    forall x, y :: x in s && y in s && f(x) == f(y) ==> x == y
  }

  lemma {:induction false} ImageCardinality<A, B>(s: set<A>, f: A -> B)
    requires InjectiveOn(s, f)
    ensures |set x | x in s :: f(x)| == |s|
  {
    if s != {} {
      var x0 :| x0 in s;
      var rest := s - {x0};
      ImageCardinality(rest, f);
      var image, restImage := set x | x in s :: f(x), set x | x in rest :: f(x);
      assert image == restImage + {f(x0)};
      assert f(x0) !in restImage;
    }
  }

  /** A map one-to-one from `s` onto `t` makes them equally large. */
  lemma BijectionCardinality<A, B>(s: set<A>, t: set<B>, f: A -> B)
    requires InjectiveOn(s, f)
    requires forall x :: x in s ==> f(x) in t
    requires forall y :: y in t ==> exists x :: x in s && f(x) == y
    ensures |s| == |t|
  {
    ImageCardinality(s, f);
    assert (set x | x in s :: f(x)) == t;
  }

  ghost function Unions(left: set<Assignment>, right: set<Assignment>): set<Assignment> {
    set a, b | a in left && b in right :: a + b
  }

  ghost predicate Within(s: set<Assignment>, vars: set<VarId>) {
    forall a :: a in s ==> a <= vars
  }

  lemma UnionSplits(a: Assignment, b: Assignment, va: set<VarId>, vb: set<VarId>)
    requires a <= va && b <= vb && va !! vb
    ensures (a + b) * va == a && (a + b) * vb == b
  {
  }

  lemma {:induction false} UnionsCardinality(left: set<Assignment>, right: set<Assignment>, va: set<VarId>,
                                             vb: set<VarId>)
    requires va !! vb && Within(left, va) && Within(right, vb)
    ensures |Unions(left, right)| == |left| * |right|
  {
    hide Unions;
    if left == {} {
      NoUnions(right);
    } else {
      var a0 :| a0 in left;
      var rest := left - {a0};
      UnionsCardinality(rest, right, va, vb);
      OneTimes(a0, right, va, vb);
      OneApart(a0, rest, right, va, vb);
      assert left == {a0} + rest;
      UnionsOfSum({a0}, rest, right);
      SumCardinality(Unions({a0}, right), Unions(rest, right), |rest|, |right|);
    }
  }

  lemma NoUnions(right: set<Assignment>)
    ensures Unions({}, right) == {}
  {
  }

  lemma SumCardinality<A>(one: set<A>, more: set<A>, n: nat, m: nat)
    requires one !! more && |one| == m && |more| == n * m
    ensures |one + more| == (n + 1) * m
  {
  }

  lemma UnionsOfSum(l1: set<Assignment>, l2: set<Assignment>, right: set<Assignment>)
    ensures Unions(l1 + l2, right) == Unions(l1, right) + Unions(l2, right)
  {
  }

  lemma OneApart(a0: Assignment, rest: set<Assignment>, right: set<Assignment>, va: set<VarId>, vb: set<VarId>)
    requires a0 <= va && a0 !in rest && va !! vb && Within(rest, va) && Within(right, vb)
    ensures Unions({a0}, right) !! Unions(rest, right)
  {
    forall a, b, b' | a in rest && b in right && b' in right ensures a + b != a0 + b' {
      UnionSplits(a0, b', va, vb);
      UnionSplits(a, b, va, vb);
    }
  }

  lemma OneTimes(a: Assignment, right: set<Assignment>, va: set<VarId>, vb: set<VarId>)
    requires a <= va && va !! vb && Within(right, vb)
    ensures |Unions({a}, right)| == |right|
  {
    var f := (b: Assignment) => a + b;
    forall b, b' | b in right && b' in right && f(b) == f(b') ensures b == b' {
      UnionSplits(a, b, va, vb);
      UnionSplits(a, b', va, vb);
    }
    assert forall c :: c in Unions({a}, right) ==> exists b :: b in right && f(b) == c;
    BijectionCardinality(right, Unions({a}, right), f);
  }

  // ---- independent parts multiply ----

  lemma SatisfiesRestricted(a: Assignment, cs: seq<Clause>, vars: set<VarId>)
    requires Over(cs, vars)
    ensures Satisfies(a, cs) == Satisfies(a * vars, cs)
  {
    forall c | c in cs ensures ClauseTrue(a, c) == ClauseTrue(a * vars, c) {
      ClauseDependsOnItsVars(a, a * vars, c);
    }
  }

  /** Two clause lists over disjoint variables: the models are the unions of models. */
  lemma IndependentCount(left: seq<Clause>, right: seq<Clause>, both: seq<Clause>, va: set<VarId>, vb: set<VarId>)
    requires va !! vb && Over(left, va) && Over(right, vb)
    requires forall c :: c in both <==> c in left || c in right
    ensures |Models(both, va + vb)| == |Models(left, va)| * |Models(right, vb)|
  {
    var ml, mr, mb := Models(left, va), Models(right, vb), Models(both, va + vb);
    forall m | m in mb ensures m in Unions(ml, mr) {
      SatisfiesRestricted(m, left, va);
      SatisfiesRestricted(m, right, vb);
      assert m == m * va + m * vb;
      assert m * va in ml && m * vb in mr;
    }
    forall m | m in Unions(ml, mr) ensures m in mb {
      var a, b :| a in ml && b in mr && m == a + b;
      UnionSplits(a, b, va, vb);
      SatisfiesRestricted(m, left, va);
      SatisfiesRestricted(m, right, vb);
    }
    assert mb == Unions(ml, mr);
    UnionsCardinality(ml, mr, va, vb);
  }

  /** Variables no clause mentions double the count each. */
  lemma {:induction false} FreeCount(vars: set<VarId>)
    ensures |Models([], vars)| == Pow2(|vars|)
  {
    if vars == {} {
      forall m: Assignment | m <= vars ensures m == {} { }
      assert {} in Models([], vars);
      assert Models([], vars) == {{}};
    } else {
      var v :| v in vars;
      var rest := vars - {v};
      FreeCount(rest);
      IndependentCount([], [], [], {v}, rest);
      assert {v} + rest == vars;
      assert Models([], {v}) == {{}, {v}} by {
        forall m: Assignment | m <= {v} ensures m == {} || m == {v} { }
      }
    }
  }

  // ---- renaming ----

  /** The true variables of `a` renamed. */
  ghost function Rename(a: Assignment, name: map<VarId, VarId>): Assignment {
    set v | v in a && v in name :: name[v]
  }

  function RenameClause(c: Clause, name: map<VarId, VarId>): (r: Clause)
    requires forall l :: l in c ==> l.v in name
    ensures |r| == |c| && forall i :: 0 <= i < |c| ==> r[i] == Literal(name[c[i].v], c[i].positive)
  {
    seq(|c|, i requires 0 <= i < |c| => Literal(name[c[i].v], c[i].positive))
  }

  ghost predicate InjectiveMap(name: map<VarId, VarId>) {
    forall v, w :: v in name && w in name && name[v] == name[w] ==> v == w
  }

  /** The new names are exactly `vars`. */
  ghost predicate Onto(name: map<VarId, VarId>, vars: set<VarId>) {
    && (forall v :: v in name ==> name[v] in vars)
    && (forall w :: w in vars ==> exists v :: v in name && name[v] == w)
  }

  lemma RenamedLiteral(a: Assignment, v: VarId, name: map<VarId, VarId>)
    requires InjectiveMap(name) && v in name
    ensures name[v] in Rename(a, name) <==> v in a
  {
  }

  lemma RenamedClauseTrue(a: Assignment, c: Clause, name: map<VarId, VarId>)
    requires InjectiveMap(name) && forall l :: l in c ==> l.v in name
    ensures ClauseTrue(Rename(a, name), RenameClause(c, name)) == ClauseTrue(a, c)
  {
    var r := RenameClause(c, name);
    forall i | 0 <= i < |c| ensures LitTrue(Rename(a, name), r[i]) == LitTrue(a, c[i]) {
      RenamedLiteral(a, c[i].v, name);
    }
    if ClauseTrue(a, c) {
      var l :| l in c && LitTrue(a, l);
      var i :| 0 <= i < |c| && c[i] == l;
      assert r[i] in r;
    }
    if ClauseTrue(Rename(a, name), r) {
      var l :| l in r && LitTrue(Rename(a, name), l);
      var i :| 0 <= i < |r| && r[i] == l;
      assert c[i] in c;
    }
  }

  /** The renamed clause list has as many models over the renamed variables. */
  lemma RenamedCount(cs: seq<Clause>, renamed: seq<Clause>, vars: set<VarId>, vars': set<VarId>,
                     name: map<VarId, VarId>)
    requires InjectiveMap(name) && name.Keys == vars && Onto(name, vars') && Over(cs, vars)
    requires |renamed| == |cs| && forall i :: 0 <= i < |cs| ==> cs[i] in cs && renamed[i] == RenameClause(cs[i], name)
    ensures |Models(renamed, vars')| == |Models(cs, vars)|
  {
    var f := (a: Assignment) => Rename(a, name);
    var from, to := Models(cs, vars), Models(renamed, vars');
    forall a: Assignment ensures Satisfies(f(a), renamed) == Satisfies(a, cs) {
      forall i | 0 <= i < |cs| ensures ClauseTrue(f(a), renamed[i]) == ClauseTrue(a, cs[i]) {
        RenamedClauseTrue(a, cs[i], name);
      }
    }
    forall a, b | a in from && b in from && f(a) == f(b) ensures a == b {
      forall v | v in vars ensures v in a <==> v in b {
        RenamedLiteral(a, v, name);
        RenamedLiteral(b, v, name);
      }
    }
    forall b | b in to ensures exists a :: a in from && f(a) == b {
      var a := set v | v in vars && name[v] in b;
      assert f(a) == b;
      assert a in from;
    }
    BijectionCardinality(from, to, f);
  }
}
