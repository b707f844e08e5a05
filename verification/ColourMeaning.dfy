/** What a colour says: tied variables look alike from every clause colour under either polarity, and tied clauses from
    every variable colour; and nothing else is seen. */
module ColourMeaning {
  import opened Wrappers
  import opened Ordering
  import opened ShowSets
  import opened Refinement
  import opened Canonical

  /** How many of the links meet a neighbour of one colour under one polarity. */
  function Seen(links: seq<Link>, colours: seq<nat>, polarity: bool, colour: nat): nat {
    if links == [] then 0
    else
      var last := links[|links| - 1];
      Seen(links[..|links| - 1], colours, polarity, colour)
      + (if last.1 == polarity && ColourAt(colours, last.0) == colour then 1 else 0)
  }

  ghost predicate LookAlike(a: seq<Link>, b: seq<Link>, colours: seq<nat>) {
    forall polarity, colour :: Seen(a, colours, polarity, colour) == Seen(b, colours, polarity, colour)
  }

  /** How many of the links are of one polarity, whatever they meet. */
  function Under(links: seq<Link>, polarity: bool): nat {
    if links == [] then 0
    else Under(links[..|links| - 1], polarity) + (if links[|links| - 1].1 == polarity then 1 else 0)
  }

  // ---- what a signature tells apart ----

  lemma {:induction false} SeenIsCount(links: seq<Link>, colours: seq<nat>, polarity: bool, colour: nat)
    ensures multiset(Map(EntryOf(colours), links))[(polarity, colour)] == Seen(links, colours, polarity, colour)
  {
    if links != [] {
      var n := |links| - 1;
      SeenIsCount(links[..n], colours, polarity, colour);
      assert Map(EntryOf(colours), links) == Map(EntryOf(colours), links[..n]) + [EntryOf(colours)(links[n])];
    }
  }

  /** Two nodes have one signature exactly when they have one colour and look alike. */
  lemma SignatureTellsApart(a: seq<Link>, own: nat, b: seq<Link>, own': nat, colours: seq<nat>)
    ensures SignatureOf(a, own, colours) == SignatureOf(b, own', colours) <==> own == own' && LookAlike(a, b, colours)
  {
    hide Sort, Seen, EntryLess;
    var ea, eb := Map(EntryOf(colours), a), Map(EntryOf(colours), b);
    if SignatureOf(a, own, colours) == SignatureOf(b, own', colours) {
      assert multiset(Sort(ea, EntryLess)) == multiset(ea) && multiset(Sort(eb, EntryLess)) == multiset(eb);
      forall polarity, colour ensures Seen(a, colours, polarity, colour) == Seen(b, colours, polarity, colour) {
        SeenIsCount(a, colours, polarity, colour);
        SeenIsCount(b, colours, polarity, colour);
      }
    }
    if LookAlike(a, b, colours) {
      forall e: Entry ensures multiset(ea)[e] == multiset(eb)[e] {
        SeenIsCount(a, colours, e.0, e.1);
        SeenIsCount(b, colours, e.0, e.1);
      }
      assert multiset(ea) == multiset(eb);
      EntryOrder();
      SortDependsOnBag(ea, eb, EntryLess);
    }
  }

  /** Looking alike, they are of each polarity equally often. */
  lemma LookAlikeUnder(a: seq<Link>, b: seq<Link>, colours: seq<nat>, polarity: bool)
    requires LookAlike(a, b, colours)
    ensures Under(a, polarity) == Under(b, polarity)
  {
    hide Seen, Under;
    var ea, eb := Map(EntryOf(colours), a), Map(EntryOf(colours), b);
    forall e: Entry ensures multiset(ea)[e] == multiset(eb)[e] {
      SeenIsCount(a, colours, e.0, e.1);
      SeenIsCount(b, colours, e.0, e.1);
    }
    assert multiset(ea) == multiset(eb);
    MapBag(PolarityOf(), ea, eb);
    UnderIsCount(a, colours, polarity);
    UnderIsCount(b, colours, polarity);
  }

  function PolarityOf(): Entry -> bool { (e: Entry) => e.0 }

  lemma {:induction false} UnderIsCount(links: seq<Link>, colours: seq<nat>, polarity: bool)
    ensures multiset(Map(PolarityOf(), Map(EntryOf(colours), links)))[polarity] == Under(links, polarity)
  {
    if links != [] {
      var n := |links| - 1;
      UnderIsCount(links[..n], colours, polarity);
      assert Map(PolarityOf(), Map(EntryOf(colours), links))
          == Map(PolarityOf(), Map(EntryOf(colours), links[..n])) + [links[n].1];
    }
  }

  // ---- one round ----

  /** After a round nodes share a colour exactly when they did before and looked alike. */
  lemma RoundTellsApart(adj: Adjacency, own: seq<nat>, other: seq<nat>, u: nat, v: nat)
    requires |own| == |adj| && u < |adj| && v < |adj|
    ensures var next := Ranks(BuildSignatures(adj, own, other));
            next[u] == next[v] <==> own[u] == own[v] && LookAlike(adj[u], adj[v], other)
  {
    hide Ranks, SignatureOf, LookAlike;
    RanksFollowSignatures(BuildSignatures(adj, own, other), u, v);
    SignatureTellsApart(adj[u], own[u], adj[v], own[v], other);
  }

  /** Of two nodes of one colour, the one met under negative links only comes before the one met under positive
      ones only. */
  lemma NegativeFirst(adj: Adjacency, own: seq<nat>, other: seq<nat>, u: nat, v: nat)
    requires |own| == |adj| && u < |adj| && v < |adj| && own[u] == own[v] && adj[u] != [] && adj[v] != []
    requires (forall l :: l in adj[u] ==> !l.1) && forall l :: l in adj[v] ==> l.1
    ensures Ranks(BuildSignatures(adj, own, other))[u] < Ranks(BuildSignatures(adj, own, other))[v]
  {
    hide Ranks, Sort;
    var a, b := Sort(Map(EntryOf(other), adj[u]), EntryLess), Sort(Map(EntryOf(other), adj[v]), EntryLess);
    FirstEntry(adj[u], other, false);
    FirstEntry(adj[v], other, true);
    assert SignatureLess(SignatureOf(adj[u], own[u], other), SignatureOf(adj[v], own[v], other));
    RanksFollowSignatures(BuildSignatures(adj, own, other), u, v);
  }

  lemma FirstEntry(links: seq<Link>, colours: seq<nat>, polarity: bool)
    requires links != [] && forall l :: l in links ==> l.1 == polarity
    ensures var sorted := Sort(Map(EntryOf(colours), links), EntryLess); sorted != [] && sorted[0].0 == polarity
  {
    EntryOrder();
    var entries := Map(EntryOf(colours), links);
    SortSorts(entries, EntryLess);
    var sorted := Sort(entries, EntryLess);
    assert sorted[0] in entries;
    var i :| 0 <= i < |entries| && entries[i] == sorted[0];
    assert links[i] in links;
  }

  // ---- a complete refinement ----

  /** How often a literal is written in the clauses of one colour. */
  function Occurring(cls: Adjacency, colours: seq<nat>, v: nat, polarity: bool, colour: nat): nat {
    if cls == [] then 0
    else
      var n := |cls| - 1;
      Occurring(cls[..n], colours, v, polarity, colour)
      + (if ColourAt(colours, n) == colour then multiset(cls[n])[(v, polarity)] else 0)
  }

  function Written(cls: Adjacency, v: nat, polarity: bool): nat {
    if cls == [] then 0 else Written(cls[..|cls| - 1], v, polarity) + multiset(cls[|cls| - 1])[(v, polarity)]
  }

  lemma {:induction false} SeenConcat(a: seq<Link>, b: seq<Link>, colours: seq<nat>, polarity: bool, colour: nat)
    ensures Seen(a + b, colours, polarity, colour)
         == Seen(a, colours, polarity, colour) + Seen(b, colours, polarity, colour)
    ensures Under(a + b, polarity) == Under(a, polarity) + Under(b, polarity)
  {
    if b == [] {
      assert a + b == a;
    } else {
      var n := |b| - 1;
      SeenConcat(a, b[..n], colours, polarity, colour);
      assert (a + b)[..|a| + n] == a + b[..n] && (a + b)[|a| + n] == b[n];
    }
  }

  lemma {:induction false} SeenInto(c: seq<Link>, v: nat, ci: nat, colours: seq<nat>, polarity: bool, colour: nat)
    ensures Seen(LinksInto(c, v, ci), colours, polarity, colour)
         == if ColourAt(colours, ci) == colour then multiset(c)[(v, polarity)] else 0
    ensures Under(LinksInto(c, v, ci), polarity) == multiset(c)[(v, polarity)]
  {
    hide Seen, Under;
    OneLink((ci, true), colours, polarity, colour);
    if c != [] {
      var n := |c| - 1;
      SeenInto(c[..n], v, ci, colours, polarity, colour);
      SeenConcat(LinksInto(c[..n], v, ci), if c[n].0 == v then [(ci, c[n].1)] else [], colours, polarity, colour);
      assert c == c[..n] + [c[n]];
      OneLink((ci, c[n].1), colours, polarity, colour);
    }
  }

  lemma OneLink(l: Link, colours: seq<nat>, polarity: bool, colour: nat)
    ensures Seen([l], colours, polarity, colour) == if l.1 == polarity && ColourAt(colours, l.0) == colour then 1 else 0
    ensures Under([l], polarity) == if l.1 == polarity then 1 else 0
    ensures Seen([], colours, polarity, colour) == 0 && Under([], polarity) == 0
  {
    assert [l][..0] == [];
  }

  /** What a variable's links see is what the clauses say of its literals. */
  lemma {:induction false} SeenIsOccurring(cls: Adjacency, v: nat, colours: seq<nat>, polarity: bool, colour: nat)
    ensures Seen(LinksOf(cls, v), colours, polarity, colour) == Occurring(cls, colours, v, polarity, colour)
    ensures Under(LinksOf(cls, v), polarity) == Written(cls, v, polarity)
  {
    hide Seen, Under, LinksInto;
    if cls == [] {
      OneLink((0, true), colours, polarity, colour);
    } else {
      var n := |cls| - 1;
      SeenIsOccurring(cls[..n], v, colours, polarity, colour);
      SeenInto(cls[n], v, n, colours, polarity, colour);
      SeenConcat(LinksOf(cls[..n], v), LinksInto(cls[n], v, n), colours, polarity, colour);
    }
  }

  lemma OccurrencesBelow(n: nat, cls: Adjacency)
    ensures LinksBelow(Occurrences(n, cls), |cls|)
  {
    hide LinksOf;
    forall v, l: Link | 0 <= v < n && l in Occurrences(n, cls)[v] ensures l.0 < |cls| { LinksOfMembers(cls, v); }
  }

  /** Variables a complete refinement leaves tied are both shown or both not, are written in clauses of each colour
      equally often under each polarity, and so equally often at all under each. */
  lemma TiedVariablesLookAlike(n: nat, cls: Adjacency, show: Option<ShowMask>, work: nat, u: nat, v: nat,
                               polarity: bool, colour: nat)
    requires LinksBelow(cls, n) && FirstRefinement(n, cls, show, work).complete && u < n && v < n
    requires FirstRefinement(n, cls, show, work).colours.vars[u] == FirstRefinement(n, cls, show, work).colours.vars[v]
    ensures ShownAt(show, u) == ShownAt(show, v)
    ensures Occurring(cls, FirstRefinement(n, cls, show, work).colours.clauses, u, polarity, colour)
         == Occurring(cls, FirstRefinement(n, cls, show, work).colours.clauses, v, polarity, colour)
    ensures Written(cls, u, polarity) == Written(cls, v, polarity)
  {
    hide Seen, Under, RefineFrom, Classes, RoundCost, Occurring, Written, LinksOf, SignatureOf, ShownAt;
    var occ, c := Occurrences(n, cls), FirstRefinement(n, cls, show, work).colours;
    var start := InitialColours(n, cls, show);
    RefineNeverMerges(occ, cls, start, RoundCost(start, cls), work, Classes(start));
    assert start.vars[u] == start.vars[v];
    OccurrencesBelow(n, cls);
    CompleteIsStable(occ, cls, start, work);
    SignatureTellsApart(occ[u], c.vars[u], occ[v], c.vars[v], c.clauses);
    LookAlikeUnder(occ[u], occ[v], c.clauses, polarity);
    SeenIsOccurring(cls, u, c.clauses, polarity, colour);
    SeenIsOccurring(cls, v, c.clauses, polarity, colour);
  }

  /** Clauses a complete refinement leaves tied are of one length, with equally many literals of each polarity over
      variables of each colour. */
  lemma TiedClausesLookAlike(n: nat, cls: Adjacency, show: Option<ShowMask>, work: nat, i: nat, j: nat,
                             polarity: bool, colour: nat)
    requires LinksBelow(cls, n) && FirstRefinement(n, cls, show, work).complete && i < |cls| && j < |cls|
    requires |FirstRefinement(n, cls, show, work).colours.clauses| == |cls|
    requires FirstRefinement(n, cls, show, work).colours.clauses[i]
          == FirstRefinement(n, cls, show, work).colours.clauses[j]
    ensures |cls[i]| == |cls[j]| && Under(cls[i], polarity) == Under(cls[j], polarity)
    ensures Seen(cls[i], FirstRefinement(n, cls, show, work).colours.vars, polarity, colour)
         == Seen(cls[j], FirstRefinement(n, cls, show, work).colours.vars, polarity, colour)
  {
    hide Seen, Under, RefineFrom, Classes, RoundCost, LinksOf, SignatureOf, ShownAt;
    var occ, c := Occurrences(n, cls), FirstRefinement(n, cls, show, work).colours;
    var start := InitialColours(n, cls, show);
    RefineNeverMerges(occ, cls, start, RoundCost(start, cls), work, Classes(start));
    assert start.clauses[i] == start.clauses[j];
    OccurrencesBelow(n, cls);
    CompleteIsStable(occ, cls, start, work);
    SignatureTellsApart(cls[i], c.clauses[i], cls[j], c.clauses[j], c.vars);
    LookAlikeUnder(cls[i], cls[j], c.vars, polarity);
  }
}
