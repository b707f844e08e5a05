/** Neither refinement nor the breaking of symmetric ties sees the numbering: renamed, reordered copies get
    corresponding colours, and so the same key, when every tie broken is between variables an automorphism relates. */
module CanonicalSymmetry {
  import opened Wrappers
  import opened Sequences
  import opened Ordering
  import opened Cnf
  import opened ShowSets
  import opened Refinement
  import opened Individualise
  import opened Canonical

  /** `adj'` is `adj` with its nodes moved by `rows` and its neighbours renamed by `cols`. */
  ghost predicate Copies(adj: Adjacency, adj': Adjacency, rows: seq<nat>, cols: seq<nat>) {
    && |adj'| == |adj| && IsPermutation(rows, |adj|) && LinksBelow(adj, |cols|)
    && forall r :: 0 <= r < |adj| ==> multiset(Map(Relabel(cols), adj[r])) == multiset(adj'[rows[r]])
  }

  /** Variables renamed by `vars`, clauses moved by `clauses`, literals in any order. */
  ghost predicate RenamedCopy(cls: Adjacency, cls': Adjacency, n: nat, vars: seq<nat>, clauses: seq<nat>) {
    IsPermutation(vars, n) && LinksBelow(cls', n) && Copies(cls, cls', clauses, vars)
  }

  // ---- the occurrence side ----

  lemma {:induction false} LinksIntoCount(c: seq<Link>, v: nat, ci: nat, d: nat, p: bool)
    ensures multiset(LinksInto(c, v, ci))[(d, p)] == if d == ci then multiset(c)[(v, p)] else 0
  {
    if c != [] {
      LinksIntoCount(c[..|c| - 1], v, ci, d, p);
      assert c == c[..|c| - 1] + [c[|c| - 1]];
    }
  }

  /** How often a link occurs: as often as the clause carries the literal. */
  lemma {:induction false} LinksOfCount(cls: Adjacency, v: nat, d: nat, p: bool)
    ensures multiset(LinksOf(cls, v))[(d, p)] == if d < |cls| then multiset(cls[d])[(v, p)] else 0
  {
    if cls != [] {
      LinksOfCount(cls[..|cls| - 1], v, d, p);
      LinksIntoCount(cls[|cls| - 1], v, |cls| - 1, d, p);
    }
  }

  lemma {:induction false} MapCount<A(!new), B>(f: A -> B, s: seq<A>, x: A)
    requires forall y :: y in s && f(y) == f(x) ==> y == x
    ensures multiset(Map(f, s))[f(x)] == multiset(s)[x]
  {
    if s != [] {
      var front, last := s[..|s| - 1], s[|s| - 1];
      MapCount(f, front, x);
      assert s == front + [last];
      assert Map(f, s) == Map(f, front) + [f(last)];
    }
  }

  lemma PermutationInjective(p: seq<nat>, n: nat, i: nat, j: nat)
    requires IsPermutation(p, n) && i < n && j < n && p[i] == p[j]
    ensures i == j
  {
  }

  /** The same count on both sides for a link into a clause that exists. */
  lemma LinkCountCarried(cls: Adjacency, cls': Adjacency, n: nat, vars: seq<nat>, clauses: seq<nat>, v: nat, c: nat,
                         p: bool)
    requires RenamedCopy(cls, cls', n, vars, clauses) && v < n && c < |cls|
    ensures multiset(Map(Relabel(clauses), LinksOf(cls, v)))[(clauses[c], p)]
         == multiset(LinksOf(cls', vars[v]))[(clauses[c], p)]
  {
    LinksOfMembers(cls, v);
    forall y | y in LinksOf(cls, v) && Relabel(clauses)(y) == Relabel(clauses)((c, p)) ensures y == (c, p) {
      PermutationInjective(clauses, |cls|, y.0, c);
    }
    MapCount(Relabel(clauses), LinksOf(cls, v), (c, p));
    LinksOfCount(cls, v, c, p);
    LinksOfCount(cls', vars[v], clauses[c], p);
    forall y | y in cls[c] && Relabel(vars)(y) == Relabel(vars)((v, p)) ensures y == (v, p) {
      PermutationInjective(vars, n, y.0, v);
    }
    MapCount(Relabel(vars), cls[c], (v, p));
  }

  lemma LinksCarried(cls: Adjacency, cls': Adjacency, n: nat, vars: seq<nat>, clauses: seq<nat>, v: nat)
    requires RenamedCopy(cls, cls', n, vars, clauses) && v < n
    ensures multiset(Map(Relabel(clauses), LinksOf(cls, v))) == multiset(LinksOf(cls', vars[v]))
  {
    hide LinksOf, Copies, Map;
    forall l: Link
      ensures multiset(Map(Relabel(clauses), LinksOf(cls, v)))[l] == multiset(LinksOf(cls', vars[v]))[l]
    {
      LinkCountsAgree(cls, cls', n, vars, clauses, v, l);
    }
  }

  lemma LinkCountsAgree(cls: Adjacency, cls': Adjacency, n: nat, vars: seq<nat>, clauses: seq<nat>, v: nat, l: Link)
    requires RenamedCopy(cls, cls', n, vars, clauses) && v < n
    ensures multiset(Map(Relabel(clauses), LinksOf(cls, v)))[l] == multiset(LinksOf(cls', vars[v]))[l]
  {
    hide LinksOf, Map;
    PermutationBag(clauses, |cls|);
    if l.0 < |cls| {
      assert l.0 in clauses;
      var c: nat :| c < |clauses| && clauses[c] == l.0;
      LinkCountCarried(cls, cls', n, vars, clauses, v, c, l.1);
    } else {
      LinkOutside(cls, v, clauses, l);
      LinksOfCount(cls', vars[v], l.0, l.1);
    }
  }

  lemma LinkOutside(cls: Adjacency, v: nat, clauses: seq<nat>, l: Link)
    requires IsPermutation(clauses, |cls|) && l.0 >= |cls|
    ensures l !in Map(Relabel(clauses), LinksOf(cls, v))
  {
    LinksOfMembers(cls, v);
    var m := Map(Relabel(clauses), LinksOf(cls, v));
    forall i | 0 <= i < |m| ensures m[i] != l {
      assert LinksOf(cls, v)[i] in LinksOf(cls, v);
    }
  }

  /** The occurrences of a copy are a copy of the occurrences. */
  lemma OccurrencesCopy(cls: Adjacency, cls': Adjacency, n: nat, vars: seq<nat>, clauses: seq<nat>)
    requires RenamedCopy(cls, cls', n, vars, clauses)
    ensures Copies(Occurrences(n, cls), Occurrences(n, cls'), vars, clauses)
  {
    var occ := Occurrences(n, cls);
    forall v, l: Link | 0 <= v < n && l in occ[v] ensures l.0 < |clauses| { LinksOfMembers(cls, v); }
    forall v | 0 <= v < n ensures multiset(Map(Relabel(clauses), occ[v])) == multiset(Occurrences(n, cls')[vars[v]]) {
      LinksCarried(cls, cls', n, vars, clauses, v);
    }
  }

  // ---- one round ----

  /** The colours moved along with the nodes. */
  ghost predicate Carried(cols: seq<nat>, cols': seq<nat>, p: seq<nat>) {
    && |cols| == |cols'| && IsPermutation(p, |cols|)
    && forall i :: 0 <= i < |cols| ==> cols'[p[i]] == cols[i]
  }

  lemma SignatureCarried(links: seq<Link>, links': seq<Link>, cols: seq<nat>, own: nat, other: seq<nat>,
                         other': seq<nat>)
    requires Carried(other, other', cols) && forall l :: l in links ==> l.0 < |cols|
    requires multiset(Map(Relabel(cols), links)) == multiset(links')
    ensures SignatureOf(links', own, other') == SignatureOf(links, own, other)
  {
    var renamed := Map(Relabel(cols), links);
    MapBag(EntryOf(other'), renamed, links');
    forall i | 0 <= i < |links| ensures EntryOf(other')(renamed[i]) == EntryOf(other)(links[i]) {
      assert links[i] in links;
    }
    assert Map(EntryOf(other'), renamed) == Map(EntryOf(other), links);
    EntryOrder();
    SortDependsOnBag(Map(EntryOf(other), links), Map(EntryOf(other'), links'), EntryLess);
  }

  /** Lists whose entries are permuted have the same elements. */
  lemma PermutedMembers<T>(a: seq<T>, b: seq<T>, p: seq<nat>)
    requires IsPermutation(p, |a|) && |a| == |b| && forall i :: 0 <= i < |a| ==> b[p[i]] == a[i]
    ensures ToSet(a) == ToSet(b)
  {
    PermutationBag(p, |a|);
    forall x | x in b ensures x in a {
      var j: nat :| j < |b| && b[j] == x;
      assert j in p;
      var i: nat :| i < |p| && p[i] == j;
      assert a[i] == x;
    }
    forall x | x in a ensures x in b {
      var i: nat :| i < |a| && a[i] == x;
      assert b[p[i]] == x;
    }
  }

  lemma RoundCarried(adj: Adjacency, adj': Adjacency, rows: seq<nat>, cols: seq<nat>,
                     own: seq<nat>, own': seq<nat>, other: seq<nat>, other': seq<nat>)
    requires Copies(adj, adj', rows, cols) && |own| == |adj| && |cols| == |other|
    requires Carried(own, own', rows) && Carried(other, other', cols)
    ensures Carried(Ranks(BuildSignatures(adj, own, other)), Ranks(BuildSignatures(adj', own', other')), rows)
  {
    var sigs, sigs' := BuildSignatures(adj, own, other), BuildSignatures(adj', own', other');
    forall r | 0 <= r < |adj| ensures sigs'[rows[r]] == sigs[r] {
      SignatureCarried(adj[r], adj'[rows[r]], cols, own[r], other, other');
    }
    PermutedMembers(sigs, sigs', rows);
    assert forall r :: 0 <= r < |adj| ==> Ranks(sigs')[rows[r]] == Ranks(sigs)[r];
  }

  ghost predicate BothCarried(c: Colouring, c': Colouring, vars: seq<nat>, clauses: seq<nat>) {
    Carried(c.vars, c'.vars, vars) && Carried(c.clauses, c'.clauses, clauses)
  }

  /** The two incidence structures correspond, side by side. */
  ghost predicate Matched(occ: Adjacency, cls: Adjacency, occ': Adjacency, cls': Adjacency, vars: seq<nat>,
                          clauses: seq<nat>) {
    Copies(occ, occ', vars, clauses) && Copies(cls, cls', clauses, vars)
  }

  lemma NextCarried(occ: Adjacency, cls: Adjacency, occ': Adjacency, cls': Adjacency, c: Colouring, c': Colouring,
                    vars: seq<nat>, clauses: seq<nat>)
    requires Matched(occ, cls, occ', cls', vars, clauses) && Shaped(occ, cls, c) && BothCarried(c, c', vars, clauses)
    ensures Shaped(occ', cls', c')
    ensures BothCarried(NextColouring(occ, cls, c), NextColouring(occ', cls', c'), vars, clauses)
    ensures Classes(NextColouring(occ, cls, c)) == Classes(NextColouring(occ', cls', c'))
    ensures Classes(c) == Classes(c')
  {
    RoundCarried(occ, occ', vars, clauses, c.vars, c'.vars, c.clauses, c'.clauses);
    RoundCarried(cls, cls', clauses, vars, c.clauses, c'.clauses, c.vars, c'.vars);
    ClassesCarried(c, c', vars, clauses);
    ClassesCarried(NextColouring(occ, cls, c), NextColouring(occ', cls', c'), vars, clauses);
  }

  lemma ClassesCarried(c: Colouring, c': Colouring, vars: seq<nat>, clauses: seq<nat>)
    requires BothCarried(c, c', vars, clauses)
    ensures Classes(c) == Classes(c')
  {
    PermutedMembers(c.vars, c'.vars, vars);
    PermutedMembers(c.clauses, c'.clauses, clauses);
  }

  // ---- whole refinements ----

  ghost predicate RefinedAlike(r: Refined, r': Refined, vars: seq<nat>, clauses: seq<nat>) {
    BothCarried(r.colours, r'.colours, vars, clauses) && r.workLeft == r'.workLeft && r.complete == r'.complete
  }

  /** Refinement commutes with renaming variables and reordering clauses and literals. */
  lemma {:induction false} RefineCarried(occ: Adjacency, cls: Adjacency, occ': Adjacency, cls': Adjacency, c: Colouring,
                                         c': Colouring,
                                         vars: seq<nat>, clauses: seq<nat>, cost: nat, work: nat, classes: nat)
    requires Matched(occ, cls, occ', cls', vars, clauses) && Shaped(occ, cls, c) && Shaped(occ', cls', c')
    requires BothCarried(c, c', vars, clauses)
    ensures RefinedAlike(RefineFrom(occ, cls, c, cost, work, classes), RefineFrom(occ', cls', c', cost, work, classes),
                         vars, clauses)
    decreases |occ| + |cls| - classes
  {
    hide NextColouring, Classes, BothCarried, Matched;
    var next, next' := NextColouring(occ, cls, c), NextColouring(occ', cls', c');
    NextCarried(occ, cls, occ', cls', c, c', vars, clauses);
    if work >= cost && Classes(next) > classes {
      ClassesAtMost(next);
      RefineCarried(occ, cls, occ', cls', next, next', vars, clauses, cost, work - cost, Classes(next));
    }
  }

  lemma LengthsCarried(cls: Adjacency, cls': Adjacency, vars: seq<nat>, clauses: seq<nat>)
    requires Copies(cls, cls', clauses, vars)
    ensures Carried(Map(Length, cls), Map(Length, cls'), clauses)
    ensures Sum(Map(Length, cls)) == Sum(Map(Length, cls'))
  {
    var a, b := Map(Length, cls), Map(Length, cls');
    forall c | 0 <= c < |cls| ensures b[clauses[c]] == a[c] {
      assert |multiset(Map(Relabel(vars), cls[c]))| == |multiset(cls'[clauses[c]])|;
    }
    PermutedBag(a, b, clauses);
    SumOfBag(a, b);
  }

  /** A copy whose show mask is renamed along with it. */
  ghost predicate ShownAlike(show: Option<ShowMask>, show': Option<ShowMask>, n: nat, vars: seq<nat>)
    requires |vars| == n
  {
    (show.Some? <==> show'.Some?) && forall v :: 0 <= v < n ==> ShownAt(show, v) == ShownAt(show', vars[v])
  }

  /** The first refinement of a copy gives every variable the colour of its original. */
  lemma FirstRefinementCarried(n: nat, cls: Adjacency, cls': Adjacency, show: Option<ShowMask>, show': Option<ShowMask>,
                               vars: seq<nat>, clauses: seq<nat>, work: nat)
    requires RenamedCopy(cls, cls', n, vars, clauses) && ShownAlike(show, show', n, vars)
    ensures RefinedAlike(FirstRefinement(n, cls, show, work), FirstRefinement(n, cls', show', work), vars, clauses)
  {
    hide RefineFrom, Occurrences, InitialColours, RoundCost, Classes, Copies, BothCarried;
    var occ, occ' := Occurrences(n, cls), Occurrences(n, cls');
    var c, c' := InitialColours(n, cls, show), InitialColours(n, cls', show');
    OccurrencesCopy(cls, cls', n, vars, clauses);
    InitialCarried(n, cls, cls', show, show', vars, clauses);
    RefineCarried(occ, cls, occ', cls', c, c', vars, clauses, RoundCost(c, cls), work, Classes(c));
  }

  lemma InitialCarried(n: nat, cls: Adjacency, cls': Adjacency, show: Option<ShowMask>, show': Option<ShowMask>,
                       vars: seq<nat>, clauses: seq<nat>)
    requires RenamedCopy(cls, cls', n, vars, clauses) && ShownAlike(show, show', n, vars)
    ensures var c, c' := InitialColours(n, cls, show), InitialColours(n, cls', show');
            && BothCarried(c, c', vars, clauses)
            && Classes(c) == Classes(c') && RoundCost(c, cls) == RoundCost(c', cls')
            && |c.vars| == n && |c.clauses| == |cls| && |c'.vars| == n && |c'.clauses| == |cls'|
  {
    hide Classes, Copies;
    var c, c' := InitialColours(n, cls, show), InitialColours(n, cls', show');
    LengthsCarried(cls, cls', vars, clauses);
    ClassesCarried(c, c', vars, clauses);
  }

  // ---- the same key ----

  lemma OrderCarried(cols: seq<nat>, cols': seq<nat>, vars: seq<nat>)
    requires Carried(cols, cols', vars) && Distinct(cols)
    ensures Sort(Range(|cols|), ByColour(cols')) == Compose(Sort(Range(|cols|), ByColour(cols)), vars)
  {
    var n := |cols|;
    var order := Sort(Range(n), ByColour(cols));
    ByColourOrder(cols);
    ByColourOrder(cols');
    SortSorts(Range(n), ByColour(cols));
    SortSorts(Range(n), ByColour(cols'));
    BagOfRangePermutes(order, n);
    var moved := Compose(order, vars);
    ComposePermutes(order, vars, n);
    PermutationBag(moved, n);
    forall i, j | 0 <= i < j < n ensures !ByColour(cols')(moved[j], moved[i]) {
      assert !ByColour(cols)(order[j], order[i]);
      assert order[i] != order[j];
      ColoursDiffer(cols, order[i], order[j]);
    }
    SortedIsUnique(Sort(Range(n), ByColour(cols')), moved, ByColour(cols'));
  }

  lemma ColoursDiffer(cols: seq<nat>, u: nat, v: nat)
    requires Distinct(cols) && u < |cols| && v < |cols| && u != v
    ensures cols[u] != cols[v]
  {
  }

  /** The names the two forms give corresponding variables agree. */
  lemma NamesAgree(order: seq<nat>, vars: seq<nat>, n: nat, v: nat)
    requires IsPermutation(order, n) && IsPermutation(vars, n) && v < n
    ensures IsPermutation(Compose(order, vars), n)
    ensures Inverse(Compose(order, vars), n)[vars[v]] == Inverse(order, n)[v]
  {
    ComposePermutes(order, vars, n);
    InverseBothWays(order, n);
    InverseBothWays(Compose(order, vars), n);
    var k := Inverse(order, n)[v];
    assert order[k] == v && Compose(order, vars)[k] == vars[v];
  }

  lemma KeyClausesAgree(cls: Adjacency, cls': Adjacency, n: nat, vars: seq<nat>, clauses: seq<nat>, name: seq<nat>,
                        name': seq<nat>)
    requires RenamedCopy(cls, cls', n, vars, clauses) && Carried(name, name', vars) && |name| == n
    ensures KeyClauses(name, cls) == KeyClauses(name', cls')
  {
    hide Sort, Relabel, CanonicalClause, Lex, Map;
    forall c | 0 <= c < |cls| ensures CanonicalClause(name)(cls[c]) == CanonicalClause(name')(cls'[clauses[c]]) {
      ClauseAgrees(cls[c], cls'[clauses[c]], n, vars, name, name');
    }
    PermutedImages(CanonicalClause(name), CanonicalClause(name'), cls, cls', clauses);
    LinkOrder();
    SortDependsOnBag(Map(CanonicalClause(name), cls), Map(CanonicalClause(name'), cls'), Lex(LinkLess));
  }

  lemma PermutedImages<A, B>(f: A -> B, g: A -> B, s: seq<A>, t: seq<A>, p: seq<nat>)
    requires IsPermutation(p, |t|) && |s| == |t| && forall i :: 0 <= i < |s| ==> f(s[i]) == g(t[p[i]])
    ensures multiset(Map(f, s)) == multiset(Map(g, t))
  {
    PermutedBag(Map(f, s), Map(g, t), p);
  }

  lemma ClauseAgrees(c: seq<Link>, c': seq<Link>, n: nat, vars: seq<nat>, name: seq<nat>, name': seq<nat>)
    requires Carried(name, name', vars) && |name| == n && forall l :: l in c ==> l.0 < n
    requires multiset(Map(Relabel(vars), c)) == multiset(c')
    ensures CanonicalClause(name)(c) == CanonicalClause(name')(c')
  {
    var renamed := Map(Relabel(vars), c);
    MapBag(Relabel(name'), renamed, c');
    forall i | 0 <= i < |c| ensures Relabel(name')(renamed[i]) == Relabel(name)(c[i]) {
      assert c[i] in c;
    }
    assert Map(Relabel(name'), renamed) == Map(Relabel(name), c);
    LinkOrder();
    SortDependsOnBag(Map(Relabel(name), c), Map(Relabel(name'), c'), LinkLess);
  }

  // ---- ties broken by individualisation ----

  /** Moving by one permutation and then by another is moving by both. */
  lemma CopiesCompose(adj: Adjacency, mid: Adjacency, adj': Adjacency, rows: seq<nat>, cols: seq<nat>, rows': seq<nat>,
                      cols': seq<nat>)
    requires Copies(adj, mid, rows, cols) && Copies(mid, adj', rows', cols') && IsPermutation(cols, |cols'|)
              && IsPermutation(cols', |cols'|)
    ensures Copies(adj, adj', Compose(rows, rows'), Compose(cols, cols'))
  {
    hide Distinct;
    ComposePermutes(rows, rows', |adj|);
    forall r | 0 <= r < |adj|
      ensures multiset(Map(Relabel(Compose(cols, cols')), adj[r])) == multiset(adj'[Compose(rows, rows')[r]])
    {
      RelabelTwice(adj[r], cols, cols');
      MapBag(Relabel(cols'), Map(Relabel(cols), adj[r]), mid[rows[r]]);
    }
  }

  lemma RelabelTwice(links: seq<Link>, cols: seq<nat>, cols': seq<nat>)
    requires IsPermutation(cols, |cols'|) && forall l :: l in links ==> l.0 < |cols|
    ensures Map(Relabel(Compose(cols, cols')), links) == Map(Relabel(cols'), Map(Relabel(cols), links))
  {
    forall i | 0 <= i < |links|
      ensures Relabel(Compose(cols, cols'))(links[i]) == Relabel(cols')(Relabel(cols)(links[i]))
    {
      assert links[i] in links;
    }
  }

  lemma MatchedCompose(occ: Adjacency, cls: Adjacency, occ': Adjacency, cls': Adjacency, a: seq<nat>, b: seq<nat>,
                       vars: seq<nat>, clauses: seq<nat>)
    requires Matched(occ, cls, occ, cls, a, b) && Matched(occ, cls, occ', cls', vars, clauses)
    ensures Matched(occ, cls, occ', cls', Compose(a, vars), Compose(b, clauses))
  {
    CopiesCompose(occ, occ, occ', a, b, vars, clauses);
    CopiesCompose(cls, cls, cls', b, a, clauses, vars);
  }

  lemma CarriedCompose(cols: seq<nat>, mid: seq<nat>, cols': seq<nat>, p: seq<nat>, q: seq<nat>)
    requires Carried(cols, mid, p) && Carried(mid, cols', q)
    ensures Carried(cols, cols', Compose(p, q))
  {
    ComposePermutes(p, q, |cols|);
  }

  /** Renaming variables and clauses onto themselves, keeping every colour. */
  ghost predicate Automorphism(occ: Adjacency, cls: Adjacency, c: Colouring, a: seq<nat>, b: seq<nat>) {
    Matched(occ, cls, occ, cls, a, b) && BothCarried(c, c, a, b)
  }

  /** Some automorphism takes `u` to `v`. */
  ghost predicate Alike(occ: Adjacency, cls: Adjacency, c: Colouring, u: nat, v: nat) {
    exists a, b :: Automorphism(occ, cls, c, a, b) && u < |a| && a[u] == v
  }

  /** At every tie individualisation breaks, automorphisms take the picked variable to each of its class. */
  ghost predicate TiesSymmetric(occ: Adjacency, cls: Adjacency, c: Colouring, work: nat)
    requires Shaped(occ, cls, c)
    decreases |occ| - Colours(c.vars)
  {
    match FirstTiedVariable(c.vars)
    case None => true
    case Some(pick) =>
      var r := RefineColouring(occ, cls, Bump(c, pick), work);
      IndividualisationSplits(occ, cls, c, pick, work);
      && (forall v: nat :: Tied(c.vars, pick, v) ==> Alike(occ, cls, c, pick, v))
      && (r.complete ==> TiesSymmetric(occ, cls, r.colours, r.workLeft))
  }

  /** The copy picks a variable of the class the original picks from. */
  lemma PicksCarried(cols: seq<nat>, cols': seq<nat>, p: seq<nat>)
    requires Carried(cols, cols', p)
    ensures FirstTiedVariable(cols).Some? <==> FirstTiedVariable(cols').Some?
    ensures FirstTiedVariable(cols).Some? ==>
              && FirstTiedVariable(cols).value < |cols| && FirstTiedVariable(cols').value < |cols|
              && cols'[FirstTiedVariable(cols').value] == cols[FirstTiedVariable(cols).value]
  {
    hide FirstTiedVariable;
    FirstTiedMeaning(cols);
    FirstTiedMeaning(cols');
    if FirstTiedVariable(cols).None? {
      DistinctCarried(cols, cols', p);
    } else {
      var pick := FirstTiedVariable(cols).value;
      var other: nat :| Tied(cols, pick, other);
      TiedCarried(cols, cols', p, pick, other);
      var pick' := FirstTiedVariable(cols').value;
      var other': nat :| Tied(cols', pick', other');
      var u, v := TiedBack(cols, cols', p, pick', other');
    }
  }

  lemma TiedCarried(cols: seq<nat>, cols': seq<nat>, p: seq<nat>, u: nat, v: nat)
    requires Carried(cols, cols', p) && Tied(cols, u, v)
    ensures Tied(cols', p[u], p[v])
  {
  }

  lemma TiedBack(cols: seq<nat>, cols': seq<nat>, p: seq<nat>, u': nat, v': nat) returns (u: nat, v: nat)
    requires Carried(cols, cols', p) && Tied(cols', u', v')
    ensures Tied(cols, u, v) && p[u] == u' && p[v] == v'
  {
    PermutationBag(p, |cols|);
    assert u' in p && v' in p;
    u :| u < |p| && p[u] == u';
    v :| v < |p| && p[v] == v';
  }

  lemma BumpCarried(c: Colouring, c': Colouring, vars: seq<nat>, clauses: seq<nat>, pick: nat)
    requires BothCarried(c, c', vars, clauses) && pick < |vars|
    ensures BothCarried(Bump(c, pick), Bump(c', vars[pick]), vars, clauses)
  {
    forall v: nat | v < |vars| ensures Bump(c', vars[pick]).vars[vars[v]] == Bump(c, pick).vars[v] {
      if vars[v] == vars[pick] { PermutationInjective(vars, |vars|, v, pick); }
    }
  }

  lemma BumpShaped(occ: Adjacency, cls: Adjacency, c: Colouring, pick: nat)
    requires Shaped(occ, cls, c)
    ensures Shaped(occ, cls, Bump(c, pick))
  {
  }

  /** A renaming that carries a finer colouring carries the coarser one it refines. */
  lemma CarriedBack(old_: seq<nat>, old_': seq<nat>, new_: seq<nat>, new_': seq<nat>, p: seq<nat>, q: seq<nat>)
    requires Carried(old_, old_', p) && Carried(new_, new_', p) && Carried(new_, new_', q) && OrderRefines(old_', new_')
    ensures Carried(old_, old_', q)
  {
    forall i | 0 <= i < |old_| ensures old_'[q[i]] == old_[i] {
      assert new_'[q[i]] == new_'[p[i]];
    }
  }

  lemma BothCarriedBack(c: Colouring, c': Colouring, d: Colouring, d': Colouring, vars: seq<nat>, clauses: seq<nat>,
                        vars2: seq<nat>, clauses2: seq<nat>)
    requires BothCarried(c, c', vars, clauses) && BothCarried(d, d', vars, clauses)
              && BothCarried(d, d', vars2, clauses2)
    requires SplitInOrder(c', d')
    ensures BothCarried(c, c', vars2, clauses2)
  {
    CarriedBack(c.vars, c'.vars, d.vars, d'.vars, vars, vars2);
    CarriedBack(c.clauses, c'.clauses, d.clauses, d'.clauses, clauses, clauses2);
  }

  /** The renaming corrected by an automorphism so that it takes the original's pick to the copy's. */
  lemma PickRenaming(occ: Adjacency, cls: Adjacency, occ': Adjacency, cls': Adjacency, c: Colouring, c': Colouring,
                     vars: seq<nat>, clauses: seq<nat>, pick: nat, pick': nat)
    returns (vars2: seq<nat>, clauses2: seq<nat>)
    requires Matched(occ, cls, occ', cls', vars, clauses) && Shaped(occ, cls, c) && BothCarried(c, c', vars, clauses)
    requires pick < |c.vars| && pick' < |c.vars| && c'.vars[pick'] == c.vars[pick]
    requires forall v: nat :: Tied(c.vars, pick, v) ==> Alike(occ, cls, c, pick, v)
    ensures Matched(occ, cls, occ', cls', vars2, clauses2) && BothCarried(c, c', vars2, clauses2) && |vars2| == |c.vars|
              && vars2[pick] == pick'
  {
    hide Matched;
    PermutationBag(vars, |c.vars|);
    assert pick' in vars;
    var q: nat :| q < |vars| && vars[q] == pick';
    if q == pick {
      vars2, clauses2 := vars, clauses;
    } else {
      assert Tied(c.vars, pick, q);
      var a, b :| Automorphism(occ, cls, c, a, b) && pick < |a| && a[pick] == q;
      vars2, clauses2 := Compose(a, vars), Compose(b, clauses);
      MatchedCompose(occ, cls, occ', cls', a, b, vars, clauses);
      CarriedCompose(c.vars, c.vars, c'.vars, a, vars);
      CarriedCompose(c.clauses, c.clauses, c'.clauses, b, clauses);
    }
  }

  /** When ties are symmetric, some renaming carries all that individualisation does, and what it started from. */
  lemma {:induction false} IndividualiseCarried(occ: Adjacency, cls: Adjacency, occ': Adjacency, cls': Adjacency,
                                                c: Colouring, c': Colouring,
                                                vars: seq<nat>, clauses: seq<nat>, work: nat)
    returns (vars2: seq<nat>, clauses2: seq<nat>)
    requires Matched(occ, cls, occ', cls', vars, clauses) && Shaped(occ, cls, c) && Shaped(occ', cls', c')
    requires BothCarried(c, c', vars, clauses) && TiesSymmetric(occ, cls, c, work)
    ensures Matched(occ, cls, occ', cls', vars2, clauses2) && BothCarried(c, c', vars2, clauses2)
    ensures BothCarried(IndividualiseFrom(occ, cls, c, work), IndividualiseFrom(occ', cls', c', work), vars2, clauses2)
    decreases |occ| - Colours(c.vars)
  {
    hide Matched, BothCarried, RefineColouring, Bump, Alike, FirstTiedVariable;
    VarsCarried(c, c', vars, clauses);
    PicksCarried(c.vars, c'.vars, vars);
    match FirstTiedVariable(c.vars)
    case None => vars2, clauses2 := vars, clauses;
    case Some(pick) =>
      var pick' := FirstTiedVariable(c'.vars).value;
      var v1, c1 := PickRenaming(occ, cls, occ', cls', c, c', vars, clauses, pick, pick');
      BumpCarried(c, c', v1, c1, pick);
      BumpShaped(occ, cls, c, pick);
      BumpShaped(occ', cls', c', pick');
      var r, r' := RefineColouring(occ, cls, Bump(c, pick), work), RefineColouring(occ', cls', Bump(c', pick'), work);
      RefiningCarried(occ, cls, occ', cls', Bump(c, pick), Bump(c', pick'), v1, c1, work);
      IndividualisationSplits(occ, cls, c, pick, work);
      IndividualisationSplits(occ', cls', c', pick', work);
      if r.complete {
        vars2, clauses2 := IndividualiseCarried(occ, cls, occ', cls', r.colours, r'.colours, v1, c1, r.workLeft);
        BothCarriedBack(c, c', r.colours, r'.colours, v1, c1, vars2, clauses2);
      } else {
        vars2, clauses2 := v1, c1;
      }
  }

  lemma VarsCarried(c: Colouring, c': Colouring, vars: seq<nat>, clauses: seq<nat>)
    requires BothCarried(c, c', vars, clauses)
    ensures Carried(c.vars, c'.vars, vars)
  {
  }

  lemma RefiningCarried(occ: Adjacency, cls: Adjacency, occ': Adjacency, cls': Adjacency, c: Colouring, c': Colouring,
                        vars: seq<nat>, clauses: seq<nat>, work: nat)
    requires Matched(occ, cls, occ', cls', vars, clauses) && Shaped(occ, cls, c) && Shaped(occ', cls', c')
    requires BothCarried(c, c', vars, clauses)
    ensures RefinedAlike(RefineColouring(occ, cls, c, work), RefineColouring(occ', cls', c', work), vars, clauses)
  {
    hide RefineFrom, Classes, BothCarried;
    ClassesCarried(c, c', vars, clauses);
    LengthsCarried(cls, cls', vars, clauses);
    RefineCarried(occ, cls, occ', cls', c, c', vars, clauses, RoundCost(c, cls), work, Classes(c));
  }

  // ---- copies meet ----

  /** What the order is read from tells every variable apart: the work sufficed and no tie is left. */
  ghost predicate TellsApart(n: nat, cls: Adjacency, show: Option<ShowMask>, work: nat) {
    Distinct(FinalColours(n, cls, show, work).vars)
  }

  /** Whatever ties individualisation has to break are between variables an automorphism relates. */
  ghost predicate BreaksSymmetricTies(n: nat, cls: Adjacency, show: Option<ShowMask>, work: nat) {
    var r := FirstRefinement(n, cls, show, work);
    r.complete && n + |cls| <= MAX_INDIVIDUALISED_SIZE ==>
        TiesSymmetric(Occurrences(n, cls), cls, r.colours, r.workLeft)
  }

  /** Copies meet: a renamed and reordered copy gets the same key under any work limit that tells every variable
      apart, when the ties broken on the way are between variables an automorphism relates. */
  lemma CopiesMeet(f: Formula, show: Option<ShowMask>, g: Formula, show': Option<ShowMask>, vars: seq<nat>,
                   clauses: seq<nat>, work: nat)
    requires WellFormed(f) && WellFormed(g) && f.numVars == g.numVars
    requires RenamedCopy(FormulaPairs(f), FormulaPairs(g), f.numVars, vars, clauses)
    requires ShownAlike(show, show', f.numVars, vars)
    requires f.numVars + |f.clauses| <= MAX_REFINED_SIZE
    requires TellsApart(f.numVars, FormulaPairs(f), show, work)
              && BreaksSymmetricTies(f.numVars, FormulaPairs(f), show, work)
    ensures FormUnder(f, show, RefinedOrderOf(f.numVars, FormulaPairs(f), show, work)).key
         == FormUnder(g, show', RefinedOrderOf(g.numVars, FormulaPairs(g), show', work)).key
  {
    hide RefinedOrderOf, FinalColours, FirstRefinement, KeyClauses, ShowUnder, Inverse, Copies, FormulaPairs,
         TellsApart, BreaksSymmetricTies;
    var n, cls, cls' := f.numVars, FormulaPairs(f), FormulaPairs(g);
    assert |cls| == |f.clauses| by { FormulaPairsLength(f); }
    var vars2, clauses2 := FinalColoursCarried(n, cls, cls', show, show', vars, clauses, work);
    OrdersCarried(n, cls, cls', show, show', vars2, clauses2, work);
    SameKey(f, show, g, show', vars2, clauses2, RefinedOrderOf(n, cls, show, work));
  }

  /** Corresponding orders give the same key. */
  lemma SameKey(f: Formula, show: Option<ShowMask>, g: Formula, show': Option<ShowMask>, vars: seq<nat>,
                clauses: seq<nat>, order: seq<nat>)
    requires WellFormed(f) && WellFormed(g) && f.numVars == g.numVars && IsPermutation(order, f.numVars)
    requires RenamedCopy(FormulaPairs(f), FormulaPairs(g), f.numVars, vars, clauses)
              && ShownAlike(show, show', f.numVars, vars)
    ensures IsPermutation(Compose(order, vars), f.numVars)
    ensures FormUnder(f, show, order).key == FormUnder(g, show', Compose(order, vars)).key
  {
    hide KeyClauses, ShowUnder, Inverse, Copies, FormulaPairs;
    var n := f.numVars;
    ComposePermutes(order, vars, n);
    var name, name' := Inverse(order, n), Inverse(Compose(order, vars), n);
    forall v | 0 <= v < n ensures name'[vars[v]] == name[v] { NamesAgree(order, vars, n, v); }
    KeyClausesAgree(FormulaPairs(f), FormulaPairs(g), n, vars, clauses, name, name');
    ShowUnderAgrees(show, show', order, vars, n);
  }

  lemma FormulaPairsLength(f: Formula)
    ensures |FormulaPairs(f)| == |f.clauses|
  {
  }

  lemma ShowUnderAgrees(show: Option<ShowMask>, show': Option<ShowMask>, order: seq<nat>, vars: seq<nat>, n: nat)
    requires IsPermutation(order, n) && IsPermutation(vars, n) && ShownAlike(show, show', n, vars)
    ensures ShowUnder(show, order) == ShowUnder(show', Compose(order, vars))
  {
    var moved := Compose(order, vars);
    assert forall k :: 0 <= k < n ==> ShownAt(show, order[k]) == ShownAt(show', moved[k]);
    if show.Some? { assert ShowUnder(show, order).value == ShowUnder(show', moved).value; }
  }

  /** A renaming that carries the final colours, the incidence and the show mask. */
  lemma FinalColoursCarried(n: nat, cls: Adjacency, cls': Adjacency, show: Option<ShowMask>, show': Option<ShowMask>,
                            vars: seq<nat>, clauses: seq<nat>, work: nat) returns (vars2: seq<nat>, clauses2: seq<nat>)
    requires RenamedCopy(cls, cls', n, vars, clauses) && ShownAlike(show, show', n, vars)
              && BreaksSymmetricTies(n, cls, show, work)
    ensures RenamedCopy(cls, cls', n, vars2, clauses2) && ShownAlike(show, show', n, vars2)
    ensures Carried(FinalColours(n, cls, show, work).vars, FinalColours(n, cls', show', work).vars, vars2)
  {
    hide FirstRefinement, Occurrences, InitialColours, Copies, BothCarried, IndividualiseFrom, TiesSymmetric, Carried;
    var r, r' := FirstRefinement(n, cls, show, work), FirstRefinement(n, cls', show', work);
    FirstRefinementCarried(n, cls, cls', show, show', vars, clauses, work);
    CopySizes(cls, cls', clauses, vars);
    vars2, clauses2 := vars, clauses;
    VarsCarried(r.colours, r'.colours, vars, clauses);
    if r.complete && n + |cls| <= MAX_INDIVIDUALISED_SIZE {
      var occ, occ' := Occurrences(n, cls), Occurrences(n, cls');
      OccurrencesCopy(cls, cls', n, vars, clauses);
      FirstShaped(n, cls, show, work);
      FirstShaped(n, cls', show', work);
      vars2, clauses2 := IndividualiseCarried(occ, cls, occ', cls', r.colours, r'.colours, vars, clauses, r.workLeft);
      VarsCarried(IndividualiseFrom(occ, cls, r.colours, r.workLeft),
                  IndividualiseFrom(occ', cls', r'.colours, r'.workLeft), vars2, clauses2);
      VarsCarried(r.colours, r'.colours, vars2, clauses2);
      MatchedIsCopy(n, cls, cls', vars2, clauses2);
      ShownBack(n, cls, cls', show, show', vars, vars2, work);
    }
  }

  lemma FirstShaped(n: nat, cls: Adjacency, show: Option<ShowMask>, work: nat)
    ensures Shaped(Occurrences(n, cls), cls, FirstRefinement(n, cls, show, work).colours)
  {
  }

  lemma CopySizes(adj: Adjacency, adj': Adjacency, rows: seq<nat>, cols: seq<nat>)
    requires Copies(adj, adj', rows, cols)
    ensures |adj| == |adj'|
  {
  }

  lemma MatchedIsCopy(n: nat, cls: Adjacency, cls': Adjacency, vars: seq<nat>, clauses: seq<nat>)
    requires Matched(Occurrences(n, cls), cls, Occurrences(n, cls'), cls', vars, clauses) && LinksBelow(cls', n)
    ensures RenamedCopy(cls, cls', n, vars, clauses)
  {
  }

  /** Colours of the first refinement tell shown variables from hidden ones. */
  lemma ShownBack(n: nat, cls: Adjacency, cls': Adjacency, show: Option<ShowMask>, show': Option<ShowMask>,
                  vars: seq<nat>, vars2: seq<nat>, work: nat)
    requires |vars| == n && ShownAlike(show, show', n, vars)
    requires Carried(FirstRefinement(n, cls, show, work).colours.vars,
                     FirstRefinement(n, cls', show', work).colours.vars, vars)
    requires Carried(FirstRefinement(n, cls, show, work).colours.vars,
                     FirstRefinement(n, cls', show', work).colours.vars, vars2)
    ensures |vars2| == n && ShownAlike(show, show', n, vars2)
  {
    hide RefineFrom, Occurrences;
    var c, c' := InitialColours(n, cls, show), InitialColours(n, cls', show');
    RefineNeverMerges(Occurrences(n, cls'), cls', c', RoundCost(c', cls'), work, Classes(c'));
    CarriedBack(c.vars, c'.vars, FirstRefinement(n, cls, show, work).colours.vars,
                FirstRefinement(n, cls', show', work).colours.vars, vars, vars2);
    forall v | 0 <= v < n ensures ShownAt(show, v) == ShownAt(show', vars2[v]) {
      assert c'.vars[vars2[v]] == c.vars[v];
    }
  }

  lemma OrdersCarried(n: nat, cls: Adjacency, cls': Adjacency, show: Option<ShowMask>, show': Option<ShowMask>,
                      vars: seq<nat>, clauses: seq<nat>, work: nat)
    requires RenamedCopy(cls, cls', n, vars, clauses) && n + |cls| <= MAX_REFINED_SIZE && TellsApart(n, cls, show, work)
    requires Carried(FinalColours(n, cls, show, work).vars, FinalColours(n, cls', show', work).vars, vars)
    ensures RefinedOrderOf(n, cls', show', work) == Compose(RefinedOrderOf(n, cls, show, work), vars)
  {
    hide FinalColours, ByColour, Copies, Carried;
    CopySizes(cls, cls', clauses, vars);
    OrderCarried(FinalColours(n, cls, show, work).vars, FinalColours(n, cls', show', work).vars, vars);
  }

  lemma DistinctCarried(cols: seq<nat>, cols': seq<nat>, p: seq<nat>)
    requires Carried(cols, cols', p) && Distinct(cols)
    ensures Distinct(cols')
  {
    PermutedBag(cols, cols', p);
    BagDistinct(cols, cols');
  }
}
