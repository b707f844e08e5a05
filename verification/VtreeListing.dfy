/** What the node lines of a `.vtree` text say, told line by line, and that the reader's tables hold just that. */
module VtreeListing {
  import opened Wrappers
  import opened VtreeText

  // ---- one line by itself ----

  function IdIn(token: string, n: nat): (r: Option<nat>)
    ensures r.Some? ==> r.value < n
  {
    match ReadCount(token)
    case None => None
    case Some(id) => if id < n then Some(id) else None
  }

  /** What a line says of the nodes below `n`, if it is one the format has. */
  function Said(fields: Fields, n: nat): (r: Option<Entry>)
    ensures r.Some? && !r.value.Skip? ==> r.value.id < n
  {
    if fields == [] then Some(Skip)
    else if fields[0] == "L" && |fields| == 3 && IdIn(fields[1], n).Some? then
      match ReadCount(fields[2])
      case None => None
      case Some(v) => if 1 <= v <= MOST_VARIABLE then Some(LeafEntry(IdIn(fields[1], n).value, v)) else None
    else if fields[0] == "I" && |fields| == 4 && IdIn(fields[1], n).Some? && IdIn(fields[2], n).Some?
            && IdIn(fields[3], n).Some? then
      Some(InnerEntry(IdIn(fields[1], n).value, IdIn(fields[2], n).value, IdIn(fields[3], n).value))
    else None
  }

  ghost predicate Spoken(lines: seq<Fields>, n: nat) { forall k :: 0 <= k < |lines| ==> Said(lines[k], n).Some? }

  ghost function Entries(lines: seq<Fields>, n: nat): (es: seq<Entry>)
    requires Spoken(lines, n)
    ensures |es| == |lines| && forall k :: 0 <= k < |es| ==> Some(es[k]) == Said(lines[k], n)
  {
    seq(|lines|, k requires 0 <= k < |lines| => Said(lines[k], n).value)
  }

  /** No variable is put on a leaf twice, not even on the same one. */
  ghost predicate VariablesOnce(es: seq<Entry>) {
    forall j, k :: 0 <= j < k < |es| && es[j].LeafEntry? && es[k].LeafEntry? ==> es[j].v != es[k].v
  }

  // ---- what the lines say together ----

  ghost predicate Names(e: Entry, i: nat) { !e.Skip? && e.id == i }

  /** The last line to name a node settles it. */
  ghost predicate LastNaming(es: seq<Entry>, i: nat, k: nat) {
    k < |es| && Names(es[k], i) && forall j :: k < j < |es| ==> !Names(es[j], i)
  }

  ghost predicate Settles(e: Entry, st: Listing, i: nat)
    requires Sized(st, |st.left|) && i < |st.left|
  {
    match e
    case Skip => false
    case LeafEntry(_, v) => st.left[i] == -1 && st.right[i] == -1 && st.variable[i] == v
    case InnerEntry(_, l, r) => st.left[i] == l && st.right[i] == r && st.variable[i] == 0
  }

  /** A node is listed when some line names it, as the last such line says; otherwise it is as at the start. */
  ghost predicate NodeTold(es: seq<Entry>, st: Listing, i: nat)
    requires Sized(st, |st.left|) && i < |st.left|
  {
    if st.listed[i] then exists k: nat :: LastNaming(es, i, k) && Settles(es[k], st, i)
    else (forall k :: 0 <= k < |es| ==> !Names(es[k], i))
         && st.left[i] == -1 && st.right[i] == -1 && st.variable[i] == 0
  }

  /** The root is the node named last, the widest variable the greatest on any leaf line, and each variable is on
      the node its line names. */
  ghost predicate TallyTold(es: seq<Entry>, t: Tally) {
    && (if t.root < 0 then t.root == -1 && forall k :: 0 <= k < |es| ==> es[k].Skip?
        else exists k :: 0 <= k < |es| && Names(es[k], t.root) && forall j :: k < j < |es| ==> es[j].Skip?)
    && (forall k :: 0 <= k < |es| && es[k].LeafEntry? ==>
          es[k].v <= t.maxVariable && es[k].v in t.leafOf && t.leafOf[es[k].v] == es[k].id)
    && (t.maxVariable > 0 ==> OnALeaf(es, t.maxVariable))
    && forall v :: v in t.leafOf ==> OnALeaf(es, v)
  }

  ghost predicate OnALeaf(es: seq<Entry>, v: nat) { exists k :: 0 <= k < |es| && es[k].LeafEntry? && es[k].v == v }

  ghost predicate Told(es: seq<Entry>, st: Listing, n: nat) {
    && Sized(st, n) && TallyTold(es, st.tally) && forall i: nat :: i < n ==> NodeTold(es, st, i)
  }

  lemma NothingTold(n: nat)
    ensures Told([], Blank(n), n)
  {
  }

  lemma OnALeafStays(es: seq<Entry>, e: Entry, v: nat)
    requires OnALeaf(es, v)
    ensures OnALeaf(es + [e], v)
  {
    var k :| 0 <= k < |es| && es[k].LeafEntry? && es[k].v == v;
    assert (es + [e])[k] == es[k];
  }

  lemma TallyNext(es: seq<Entry>, st: Listing, n: nat, e: Entry)
    requires Sized(st, n) && TallyTold(es, st.tally) && (e.Skip? || e.id < n)
    requires e.LeafEntry? ==> e.v !in st.tally.leafOf
    ensures TallyTold(es + [e], Enter(st, e).tally)
  {
    hide OnALeaf;
    var more, t, t' := es + [e], st.tally, Enter(st, e).tally;
    assert forall k :: 0 <= k < |es| ==> more[k] == es[k];
    assert more[|es|] == e;
    forall v | OnALeaf(es, v) ensures OnALeaf(more, v) { OnALeafStays(es, e, v); }
    if e.LeafEntry? { LastOnALeaf(es, e); }
    if e.Skip? && t.root >= 0 {
      var k :| 0 <= k < |es| && Names(es[k], t.root) && forall j :: k < j < |es| ==> es[j].Skip?;
      assert Names(more[k], t'.root) && forall j :: k < j < |more| ==> more[j].Skip?;
    }
    if !e.Skip? { assert Names(more[|es|], t'.root); }
  }

  lemma LastOnALeaf(es: seq<Entry>, e: Entry)
    requires e.LeafEntry?
    ensures OnALeaf(es + [e], e.v)
  {
    assert (es + [e])[|es|] == e;
  }

  lemma NodeNext(es: seq<Entry>, st: Listing, n: nat, e: Entry, i: nat)
    requires Sized(st, n) && i < n && NodeTold(es, st, i) && (e.Skip? || e.id < n)
    ensures NodeTold(es + [e], Enter(st, e), i)
  {
    var more, st' := es + [e], Enter(st, e);
    assert forall k :: 0 <= k < |es| ==> more[k] == es[k];
    assert more[|es|] == e;
    if Names(e, i) {
      assert LastNaming(more, i, |es|) && Settles(more[|es|], st', i);
    } else if st.listed[i] {
      var k: nat :| LastNaming(es, i, k) && Settles(es[k], st, i);
      assert LastNaming(more, i, k) && Settles(more[k], st', i);
    }
  }

  lemma ToldNext(es: seq<Entry>, st: Listing, n: nat, e: Entry)
    requires Told(es, st, n) && (e.Skip? || e.id < n) && (e.LeafEntry? ==> e.v !in st.tally.leafOf)
    ensures Told(es + [e], Enter(st, e), n)
  {
    hide TallyTold, NodeTold, Enter;
    TallyNext(es, st, n, e);
    forall i: nat | i < n ensures NodeTold(es + [e], Enter(st, e), i) { NodeNext(es, st, n, e, i); }
  }

  // ---- the reader ----

  /** The complaint is about this line, which does not say anything. */
  ghost predicate Complains(e: VtreeError, fields: Fields, line: nat, n: nat) {
    && Said(fields, n).None?
    && match e
       case NotALeafLine(k) => k == line && fields[0] == "L" && |fields| != 3
       case NotAnInnerLine(k) => k == line && fields[0] == "I" && |fields| != 4
       case NeitherLine(k) => k == line && fields[0] != "L" && fields[0] != "I"
       case NotANumber(k) => k == line && exists i :: 1 <= i < |fields| && ReadCount(fields[i]).None?
       case OutOfRange(k, id) =>
         k == line && id >= n && exists i :: 1 <= i < |fields| && ReadCount(fields[i]) == Some(id)
       case VariableZero(k) => k == line && |fields| == 3 && ReadCount(fields[2]) == Some(0)
       case VariableTooLarge(k) =>
         k == line && |fields| == 3 && ReadCount(fields[2]).Some? && ReadCount(fields[2]).value > MOST_VARIABLE
       case _ => false
  }

  /** The complaint names both leaves of a variable met again. */
  ghost predicate MetAgain(e: VtreeError, fields: Fields, n: nat, leafOf: map<nat, nat>) {
    && e.VariableTwice? && Said(fields, n) == Some(LeafEntry(e.second, e.v))
    && e.v in leafOf && leafOf[e.v] == e.first
  }

  /** A line is taken exactly when it is well formed and puts no variable on a leaf again; then it adds what it
      says. */
  lemma LineTaken(fields: Fields, line: nat, n: nat, tally: Tally)
    ensures var r, e := ReadEntry(fields, line, n, tally), Said(fields, n);
            && (r.Ok? <==> e.Some? && (e.value.LeafEntry? ==> e.value.v !in tally.leafOf))
            && (r.Ok? ==> Some(r.value) == e)
            && (r.Err? ==> Complains(r.error, fields, line, n) || MetAgain(r.error, fields, n, tally.leafOf))
  {
    hide ReadCount;
    if fields != [] && fields[0] == "I" && |fields| == 4 {
      assert ReadCount(fields[1]) == ReadCount(fields[1]) && ReadCount(fields[2]) == ReadCount(fields[2]);
      assert ReadCount(fields[3]) == ReadCount(fields[3]);
    }
  }

  /** The lines can be read: each is well formed, and no variable is put on a leaf twice. */
  ghost predicate Readable(lines: seq<Fields>, n: nat) { Spoken(lines, n) && VariablesOnce(Entries(lines, n)) }

  /** Line `k` is the first that cannot be taken, and the complaint is about it. */
  ghost predicate FirstBad(lines: seq<Fields>, n: nat, k: nat, e: VtreeError) {
    && k < |lines| && Readable(lines[..k], n)
    && (Complains(e, lines[k], k + 2, n)
        || (e.VariableTwice? && Said(lines[k], n) == Some(LeafEntry(e.second, e.v))
            && exists j :: 0 <= j < k && Said(lines[j], n) == Some(LeafEntry(e.first, e.v))))
  }

  lemma EntriesNext(lines: seq<Fields>, n: nat, k: nat)
    requires k < |lines| && Spoken(lines[..k], n) && Said(lines[k], n).Some?
    ensures Spoken(lines[..k + 1], n)
    ensures Entries(lines[..k + 1], n) == Entries(lines[..k], n) + [Said(lines[k], n).value]
  {
    hide Said;
  }

  /** With every variable so far on the node its line names, a leaf line fits exactly when its variable is new. */
  lemma FitsWhenNew(es: seq<Entry>, e: Entry, t: Tally)
    requires VariablesOnce(es) && TallyTold(es, t)
    ensures VariablesOnce(es + [e]) <==> (e.LeafEntry? ==> e.v !in t.leafOf)
  {
    var more := es + [e];
    assert more[|es|] == e && forall k :: 0 <= k < |es| ==> more[k] == es[k];
    if e.LeafEntry? && e.v in t.leafOf {
      assert OnALeaf(es, e.v);
      var k :| 0 <= k < |es| && es[k].LeafEntry? && es[k].v == e.v;
      assert more[k].v == more[|es|].v;
    }
  }

  lemma ReadablePrefix(lines: seq<Fields>, n: nat, k: nat)
    requires k <= |lines| && Readable(lines, n)
    ensures Readable(lines[..k], n)
  {
    hide Said;
    var all, es := Entries(lines, n), Entries(lines[..k], n);
    forall i | 0 <= i < k ensures es[i] == all[i] { assert lines[..k][i] == lines[i]; }
  }

  /** The tables of a text that is read say what its lines say; a refusal is for the first line that does not fit. */
  lemma {:induction false} ReadIsTold(lines: seq<Fields>, n: nat, k: nat, st: Listing)
    requires k <= |lines| && Readable(lines[..k], n) && Told(Entries(lines[..k], n), st, n)
    ensures var r := ReadNodes(lines[k..], k + 2, st);
            && (r.Ok? <==> Readable(lines, n))
            && (r.Ok? ==> Told(Entries(lines, n), r.value, n))
            && (r.Err? ==> exists j :: FirstBad(lines, n, j, r.error))
    decreases |lines| - k
  {
    hide Told, TallyTold, Said, ReadEntry, Enter, VariablesOnce, Complains, FirstBad;
    ToldSized(Entries(lines[..k], n), st, n);
    if k == |lines| {
      assert lines[..k] == lines && lines[k..] == [];
    } else {
      var es, line := Entries(lines[..k], n), lines[k];
      assert lines[k..][0] == line && lines[k..][1..] == lines[k + 1..];
      LineTaken(line, k + 2, n, st.tally);
      var r := ReadEntry(line, k + 2, n, st.tally);
      if Said(line, n).Some? {
        EntriesNext(lines, n, k);
        FitsWhenNew(es, Said(line, n).value, st.tally);
      } else {
        assert lines[..k + 1][k] == line;
      }
      if r.Ok? {
        ToldNext(es, st, n, r.value);
        ReadIsTold(lines, n, k + 1, Enter(st, r.value));
      } else {
        BadHere(lines, n, k, st, r.error);
        if Readable(lines, n) { ReadablePrefix(lines, n, k + 1); }
      }
    }
  }

  lemma ToldSized(es: seq<Entry>, st: Listing, n: nat)
    requires Told(es, st, n)
    ensures Sized(st, n) && TallyTold(es, st.tally)
  {
  }

  lemma BadHere(lines: seq<Fields>, n: nat, k: nat, st: Listing, e: VtreeError)
    requires k < |lines| && Readable(lines[..k], n) && Told(Entries(lines[..k], n), st, n)
    requires Complains(e, lines[k], k + 2, n) || MetAgain(e, lines[k], n, st.tally.leafOf)
    ensures FirstBad(lines, n, k, e)
  {
    hide Complains, Said, NodeTold;
    if MetAgain(e, lines[k], n, st.tally.leafOf) {
      var es := Entries(lines[..k], n);
      assert OnALeaf(es, e.v);
      var j :| 0 <= j < k && es[j].LeafEntry? && es[j].v == e.v;
      assert es[j] == LeafEntry(e.first, e.v) && lines[..k][j] == lines[j];
    }
  }

  /** The whole listing: read exactly when every line is well formed and no variable is put on a leaf twice, and then
      each node is as the last line naming it says and the root is the node named last. */
  lemma ListingIsTold(lines: seq<Fields>, n: nat)
    ensures ReadAll(n, lines).Ok? <==> Readable(lines, n)
    ensures ReadAll(n, lines).Ok? ==> Told(Entries(lines, n), ReadAll(n, lines).value, n)
    ensures ReadAll(n, lines).Err? ==> exists k :: FirstBad(lines, n, k, ReadAll(n, lines).error)
  {
    hide Told, FirstBad, ReadNodes, Blank;
    NothingTold(n);
    assert lines[..0] == [] && lines[0..] == lines && Entries(lines[..0], n) == [];
    ReadIsTold(lines, n, 0, Blank(n));
  }
}
