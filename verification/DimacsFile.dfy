/** What a DIMACS file says, told without reading it in order: the clause numbers run through line ends, show and weight
    lines add up, comments and blank lines say nothing. The reader accepts exactly the sound files and returns that. */
module DimacsFile {
  import opened Wrappers
  import opened Cnf
  import opened Rationals
  import opened WeightTables
  import opened Dimacs

  // ---- stretches between zeros ----

  ghost predicate Naming(ns: seq<int>) { forall n :: n in ns ==> NamesVariable(n) }

  /** Literals and the zeros that end clauses. */
  ghost predicate Clausal(ns: seq<int>) { forall n :: n in ns ==> n == 0 || NamesVariable(n) }

  /** The stretches, each with the zero that ends it. */
  ghost function Ended(stretches: seq<seq<int>>): seq<int> {
    if stretches == [] then [] else Ended(stretches[..|stretches| - 1]) + stretches[|stretches| - 1] + [0]
  }

  /** The numbers are these stretches, each ended by a zero, and an open one behind. */
  ghost predicate Split(ns: seq<int>, ended: seq<seq<int>>, open: seq<int>) {
    ns == Ended(ended) + open && Naming(open) && forall s :: s in ended ==> Naming(s)
  }

  ghost function Stretches(ns: seq<int>): (p: (seq<seq<int>>, seq<int>))
    requires Clausal(ns)
    ensures Split(ns, p.0, p.1)
  {
    if ns == [] then ([], [])
    else
      var n := |ns| - 1;
      var (ended, open) := Stretches(ns[..n]);
      assert ns[n] in ns && ns == ns[..n] + [ns[n]];
      if ns[n] == 0 then
        assert (ended + [open])[..|ended|] == ended;
        assert ns == Ended(ended + [open]) + [];
        (ended + [open], [])
      else
        assert ns == Ended(ended) + (open + [ns[n]]);
        (ended, open + [ns[n]])
  }

  /** There is one way to split. */
  lemma {:induction false} SplitIsUnique(ns: seq<int>, ended: seq<seq<int>>, open: seq<int>,
                                         ended': seq<seq<int>>, open': seq<int>)
    requires Split(ns, ended, open) && Split(ns, ended', open')
    ensures ended == ended' && open == open'
    decreases |ns|
  {
    if ns != [] {
      var n := |ns| - 1;
      SplitBack(ns, ended, open);
      SplitBack(ns, ended', open');
      if ns[n] == 0 {
        SplitIsUnique(ns[..n], ended[..|ended| - 1], ended[|ended| - 1], ended'[..|ended'| - 1], ended'[|ended'| - 1]);
        assert ended == ended[..|ended| - 1] + [ended[|ended| - 1]];
        assert ended' == ended'[..|ended'| - 1] + [ended'[|ended'| - 1]];
      } else {
        SplitIsUnique(ns[..n], ended, open[..|open| - 1], ended', open'[..|open'| - 1]);
      }
    } else {
      NothingEnded(ended, open);
      NothingEnded(ended', open');
    }
  }

  lemma NothingEnded(ended: seq<seq<int>>, open: seq<int>)
    requires Ended(ended) + open == []
    ensures ended == [] && open == []
  {
  }

  /** A last zero ends the last stretch; any other last number is the end of the open one. */
  lemma SplitBack(ns: seq<int>, ended: seq<seq<int>>, open: seq<int>)
    requires Split(ns, ended, open) && ns != []
    ensures ns[|ns| - 1] == 0 ==> open == [] && ended != []
                                  && Split(ns[..|ns| - 1], ended[..|ended| - 1], ended[|ended| - 1])
    ensures ns[|ns| - 1] != 0 ==> open != [] && open[|open| - 1] == ns[|ns| - 1]
                                  && Split(ns[..|ns| - 1], ended, open[..|open| - 1])
  {
    var n := |ns| - 1;
    if open == [] {
      assert ended != [];
      var front, last := ended[..|ended| - 1], ended[|ended| - 1];
      assert ns == Ended(front) + last + [0];
      assert ns[..n] == Ended(front) + last;
      assert last in ended && forall s :: s in front ==> s in ended;
    } else {
      assert open[|open| - 1] in open && ns[n] == open[|open| - 1];
      assert ns[..n] == Ended(ended) + open[..|open| - 1];
      assert forall m :: m in open[..|open| - 1] ==> m in open;
    }
  }

  ghost function Literals(ns: seq<int>): (c: Clause)
    requires Naming(ns)
    ensures |c| == |ns|
  {
    seq(|ns|, i requires 0 <= i < |ns| => assert ns[i] in ns; LiteralOf(ns[i]))
  }

  /** The stretches' normal forms; a stretch with a literal and its negation has none. */
  ghost function NormalForms(stretches: seq<seq<int>>): seq<Clause>
    requires forall s :: s in stretches ==> Naming(s)
  {
    if stretches == [] then []
    else
      var n := |stretches| - 1;
      var c := Normalize(Literals(stretches[n]));
      NormalForms(stretches[..n]) + (if c.Some? then [c.value] else [])
  }

  /** The clauses of a file's clause numbers: an unended last stretch counts, unless it is empty. */
  ghost function ClausesOf(ns: seq<int>): seq<Clause>
    requires Clausal(ns)
  {
    var (ended, open) := Stretches(ns);
    NormalForms(ended + if open == [] then [] else [open])
  }

  // ---- what one line says ----

  /** The parts of a file that matter; later headers and tracks replace earlier ones. */
  datatype Contents = Contents(numbers: seq<int>, shown: seq<int>, shows: bool, weights: seq<WeightPair>,
                               track: Option<Mode>, header: Option<nat>, ids: seq<int>)

  const SILENT := Contents([], [], false, [], None, None, [])

  function Later<T>(first: Option<T>, second: Option<T>): Option<T> { if second.Some? then second else first }

  function Then(c: Contents, d: Contents): Contents {
    Contents(c.numbers + d.numbers, c.shown + d.shown, c.shows || d.shows, c.weights + d.weights,
             Later(c.track, d.track), Later(c.header, d.header), c.ids + d.ids)
  }

  function NumberOf(t: string): int { if ParseI32(t).Some? then ParseI32(t).value else 0 }

  function NumbersOf(toks: Line): (r: seq<int>)
    ensures |r| == |toks| && forall i :: 0 <= i < |r| ==> r[i] == NumberOf(toks[i])
  {
    seq(|toks|, i requires 0 <= i < |toks| => NumberOf(toks[i]))
  }

  /** The numbers before the first zero. */
  function ShownOf(toks: Line): seq<int> {
    if toks == [] || ParseI64(toks[0]).None? || ParseI64(toks[0]).value == 0 then []
    else [ParseI64(toks[0]).value] + ShownOf(toks[1..])
  }

  function ShowContents(toks: Line): Contents {
    SILENT.(shown := ShownOf(toks), shows := true, ids := ShownOf(toks))
  }

  function WeightContents(lit: string, w: string): Contents {
    if ParseWeight(w).Ok?
    then SILENT.(weights := [(NumberOf(lit), ParseWeight(w).value)], ids := [NumberOf(lit)])
    else SILENT
  }

  function Says(toks: Line): Contents {
    if IsClauseLine(toks) then SILENT.(numbers := NumbersOf(toks), ids := NumbersOf(toks))
    else if Skipped(toks) then SILENT
    else if StartsWith(toks, 'p') then SILENT.(header := if |toks| > 2 then ParseUnsigned(toks[2], U32_MAX) else None)
    else if IsTrackLine(toks) then SILENT.(track := ParseTrack(toks[2]))
    else if IsShowLine(toks) then ShowContents(toks[3..])
    else if IsWeightLine(toks) then WeightContents(toks[3], toks[4])
    else SILENT
  }

  /** Up to the first zero there are only positive numbers. */
  ghost predicate ShowFine(toks: Line) {
    forall i :: 0 <= i < |toks| && (forall j :: 0 <= j < i ==> ParseI64(toks[j]) != Some(0)) ==>
      ParseI64(toks[i]).Some? && ParseI64(toks[i]).value >= 0
  }

  /** A line the reader has no quarrel with, whatever came before it. */
  ghost predicate Fine(toks: Line) {
    if IsClauseLine(toks) then forall i :: 0 <= i < |toks| ==> ParseI32(toks[i]).Some?
    else if Skipped(toks) then true
    else if StartsWith(toks, 'p') then
      && |toks| >= 4 && toks[1] == "cnf" && ParseUnsigned(toks[2], U32_MAX).Some?
      && ParseUnsigned(toks[2], U32_MAX).value <= MAX_VAR && ParseUnsigned(toks[3], U64_MAX).Some?
    else if IsTrackLine(toks) then ParseTrack(toks[2]).Some?
    else if IsShowLine(toks) then ShowFine(toks[3..])
    else if IsWeightLine(toks) then
      ParseI32(toks[3]).Some? && ParseI32(toks[3]).value != 0 && ParseWeight(toks[4]).Ok?
    else true
  }

  // ---- what a file says ----

  /** The lines up to the first that ends the file. */
  function Body(lines: seq<Line>): seq<Line> {
    if lines == [] || EndsFile(lines[0]) then [] else [lines[0]] + Body(lines[1..])
  }

  function ContentsOf(lines: seq<Line>): Contents {
    if lines == [] then SILENT else Then(Says(lines[0]), ContentsOf(lines[1..]))
  }

  ghost predicate AllFine(lines: seq<Line>) { forall i :: 0 <= i < |lines| ==> Fine(lines[i]) }

  lemma ThenAssociates(c: Contents, d: Contents, e: Contents)
    ensures Then(Then(c, d), e) == Then(c, Then(d, e))
    ensures Then(c, SILENT) == c == Then(SILENT, c)
  {
  }

  /** Contents add up line by line. */
  lemma {:induction false} ContentsConcat(a: seq<Line>, b: seq<Line>)
    ensures ContentsOf(a + b) == Then(ContentsOf(a), ContentsOf(b))
  {
    hide Then, Says;
    if a == [] {
      assert a + b == b;
      ThenAssociates(ContentsOf(b), SILENT, SILENT);
    } else {
      assert (a + b)[0] == a[0] && (a + b)[1..] == a[1..] + b;
      ContentsConcat(a[1..], b);
      ThenAssociates(Says(a[0]), ContentsOf(a[1..]), ContentsOf(b));
    }
  }

  // ---- the reader's state says the same ----

  /** The widest id kept is the widest of all. */
  ghost predicate IsWidest(widest: Option<WidestId>, ids: seq<int>) {
    && (widest.None? ==> forall id :: id in ids ==> id == 0)
    && (widest.Some? ==>
          && (exists id :: id in ids && Magnitude(id) == Magnitude(widest.value.written))
          && forall id :: id in ids ==> Magnitude(id) <= Magnitude(widest.value.written))
  }

  lemma WidestNoted(widest: Option<WidestId>, ids: seq<int>, kind: IdKind, id: int, line: nat)
    requires IsWidest(widest, ids)
    ensures IsWidest(Note(widest, kind, id, line), ids + [id])
  {
    var noted := Note(widest, kind, id, line);
    assert id in ids + [id] && forall i :: i in ids + [id] <==> i in ids || i == id;
    if noted == widest {
      var top :| top in ids && Magnitude(top) == Magnitude(widest.value.written);
      assert top in ids + [id];
    }
  }

  lemma WidestFits(widest: Option<WidestId>, ids: seq<int>, n: nat)
    requires IsWidest(widest, ids)
    ensures Fits(widest, n) <==> forall id :: id in ids ==> Magnitude(id) <= n
  {
  }

  /** The state's clauses are the ended stretches, its open clause the open one. */
  ghost predicate HoldsNumbers(st: ReadState, ns: seq<int>) {
    && Clausal(ns)
    && st.clauses == NormalForms(Stretches(ns).0) && st.current == Literals(Stretches(ns).1)
  }

  ghost predicate Tells(st: ReadState, c: Contents) {
    && HoldsNumbers(st, c.numbers) && st.show == c.shown && st.sawShow == c.shows && st.weightLines == c.weights
    && st.track == c.track && st.header == c.header && IsWidest(st.widest, c.ids)
  }

  /** One more number: a zero closes the clause, a literal joins it. */
  lemma OneMoreNumber(st: ReadState, ns: seq<int>, v: int)
    requires HoldsNumbers(st, ns) && (v == 0 || NamesVariable(v))
    ensures v == 0 ==> HoldsNumbers(CloseClause(st), ns + [v])
    ensures v != 0 ==> HoldsNumbers(st.(current := st.current + [LiteralOf(v)]), ns + [v])
  {
    hide Normalize, Stretches, NormalForms, Literals;
    OneMoreStretched(ns, v);
    var (ended, open) := Stretches(ns);
    if v == 0 {
      OneMoreForm(ended, open);
      assert Literals([]) == [];
    } else {
      OneMoreLiteral(open, v);
    }
  }

  lemma OneMoreStretched(ns: seq<int>, v: int)
    requires Clausal(ns) && (v == 0 || NamesVariable(v))
    ensures Clausal(ns + [v])
    ensures var (ended, open) := Stretches(ns);
            Stretches(ns + [v]) == if v == 0 then (ended + [open], []) else (ended, open + [v])
  {
    hide Split;
    assert (ns + [v])[..|ns|] == ns;
    assert forall n :: n in ns + [v] ==> n in ns || n == v;
  }

  lemma OneMoreForm(stretches: seq<seq<int>>, s: seq<int>)
    requires Naming(s) && forall t :: t in stretches ==> Naming(t)
    ensures forall t :: t in stretches + [s] ==> Naming(t)
    ensures NormalForms(stretches + [s])
         == NormalForms(stretches)
            + (if Normalize(Literals(s)).Some? then [Normalize(Literals(s)).value] else [])
  {
    hide Normalize, Literals, Naming;
    assert (stretches + [s])[..|stretches|] == stretches;
  }

  lemma OneMoreLiteral(ns: seq<int>, v: int)
    requires Naming(ns) && NamesVariable(v)
    ensures Naming(ns + [v]) && Literals(ns + [v]) == Literals(ns) + [LiteralOf(v)]
  {
    assert forall n :: n in ns + [v] ==> n in ns || n == v;
  }

  ghost predicate SameBut(st: ReadState, st': ReadState) {
    st' == st.(clauses := st'.clauses, current := st'.current, widest := st'.widest)
  }

  /** A clause line adds its numbers, and fails exactly on a token that is none. */
  lemma {:induction false} ClauseTokensTell(toks: Line, line: nat, st: ReadState, ns: seq<int>, ids: seq<int>)
    requires TokensName(toks) && HoldsNumbers(st, ns) && IsWidest(st.widest, ids)
    ensures ReadClauseTokens(toks, line, st).Ok? <==> forall i :: 0 <= i < |toks| ==> ParseI32(toks[i]).Some?
    ensures ReadClauseTokens(toks, line, st).Ok? ==>
              var st' := ReadClauseTokens(toks, line, st).value;
              SameBut(st, st') && HoldsNumbers(st', ns + NumbersOf(toks)) && IsWidest(st'.widest, ids + NumbersOf(toks))
    decreases |toks|
  {
    hide HoldsNumbers, IsWidest, ParseI32, Note, CloseClause;
    if toks == [] {
      assert ns + NumbersOf(toks) == ns && ids + NumbersOf(toks) == ids;
    } else if ParseI32(toks[0]).Some? {
      assert forall i :: 0 <= i < |toks| - 1 ==> toks[1..][i] == toks[i + 1];
      var v := ParseI32(toks[0]).value;
      NumbersFirst(toks, v, ns);
      NumbersFirst(toks, v, ids);
      I32Names(toks[0]);
      OneMoreNumber(st, ns, v);
      if v == 0 {
        ClosingKeeps(st);
        ZeroIsNoId(st.widest, ids);
        ClauseTokensTell(toks[1..], line, CloseClause(st), ns + [v], ids + [v]);
      } else {
        var next := st.(current := st.current + [LiteralOf(v)], widest := Note(st.widest, ClauseLiteral, v, line));
        WidestNoted(st.widest, ids, ClauseLiteral, v, line);
        WidestApart(st.(current := st.current + [LiteralOf(v)]), next, ns + [v]);
        ClauseTokensTell(toks[1..], line, next, ns + [v], ids + [v]);
      }
    }
  }

  lemma I32Names(t: string)
    requires ParseI32(t).Some? && ParseI32(t).value != I32_MIN
    ensures ParseI32(t).value == 0 || NamesVariable(ParseI32(t).value)
  {
  }

  lemma ClosingKeeps(st: ReadState)
    ensures CloseClause(st) == st.(clauses := CloseClause(st).clauses, current := [])
  {
  }

  lemma ZeroIsNoId(widest: Option<WidestId>, ids: seq<int>)
    requires IsWidest(widest, ids)
    ensures IsWidest(widest, ids + [0])
  {
    assert forall id :: id in ids + [0] <==> id in ids || id == 0;
  }

  lemma WidestApart(st: ReadState, st': ReadState, ns: seq<int>)
    requires HoldsNumbers(st, ns) && st'.clauses == st.clauses && st'.current == st.current
    ensures HoldsNumbers(st', ns)
  {
  }

  lemma NumbersFirst(toks: Line, v: int, before: seq<int>)
    requires toks != [] && ParseI32(toks[0]) == Some(v)
    ensures before + NumbersOf(toks) == before + [v] + NumbersOf(toks[1..])
  {
    hide ParseI32;
    assert NumbersOf(toks) == [v] + NumbersOf(toks[1..]);
  }

  /** A show line adds its numbers up to the zero. */
  lemma {:induction false} ShowTokensTell(toks: Line, line: nat, st: ReadState, ids: seq<int>)
    requires IsWidest(st.widest, ids)
    ensures ReadShowTokens(toks, line, st).Ok? <==> ShowFine(toks)
    ensures ReadShowTokens(toks, line, st).Ok? ==>
              var st' := ReadShowTokens(toks, line, st).value;
              && st' == st.(show := st.show + ShownOf(toks), widest := st'.widest)
              && IsWidest(st'.widest, ids + ShownOf(toks))
    decreases |toks|
  {
    hide IsWidest, Note, ParseI64;
    if toks == [] || ParseI64(toks[0]).None? || ParseI64(toks[0]).value == 0 {
      assert st.show + [] == st.show && ids + [] == ids;
      ShowFineFirst(toks);
    } else {
      var v := ParseI64(toks[0]).value;
      ShowFineFirst(toks);
      if v > 0 {
        WidestNoted(st.widest, ids, ShowVar, v, line);
        ShowTokensTell(toks[1..], line, st.(show := st.show + [v], widest := Note(st.widest, ShowVar, v, line)),
                       ids + [v]);
        assert st.show + [v] + ShownOf(toks[1..]) == st.show + ([v] + ShownOf(toks[1..]));
        assert ids + [v] + ShownOf(toks[1..]) == ids + ([v] + ShownOf(toks[1..]));
      }
    }
  }

  lemma ShowFineFirst(toks: Line)
    ensures toks == [] ==> ShowFine(toks)
    ensures toks != [] ==>
              (ShowFine(toks) <==> ParseI64(toks[0]).Some? && ParseI64(toks[0]).value >= 0
                                   && (ParseI64(toks[0]).value != 0 ==> ShowFine(toks[1..])))
  {
    hide ParseI64;
    if toks != [] && ParseI64(toks[0]).Some? && ParseI64(toks[0]).value > 0 {
      ShowFineRest(toks);
      if ShowFine(toks[1..]) { ShowFineAll(toks); }
    }
  }

  lemma ShowFineRest(toks: Line)
    requires toks != [] && ParseI64(toks[0]) != Some(0)
    ensures ShowFine(toks) ==> ShowFine(toks[1..])
  {
    hide ParseI64;
    if ShowFine(toks) {
      forall i | 0 <= i < |toks[1..]| && (forall j :: 0 <= j < i ==> ParseI64(toks[1..][j]) != Some(0))
        ensures ParseI64(toks[1..][i]).Some? && ParseI64(toks[1..][i]).value >= 0
      {
        forall j | 0 <= j < i + 1 ensures ParseI64(toks[j]) != Some(0) {
          if j > 0 { assert toks[1..][j - 1] == toks[j]; }
        }
        assert toks[1..][i] == toks[i + 1];
      }
    }
  }

  lemma ShowFineAll(toks: Line)
    requires toks != [] && ParseI64(toks[0]).Some? && ParseI64(toks[0]).value > 0 && ShowFine(toks[1..])
    ensures ShowFine(toks)
  {
    hide ParseI64;
    forall i | 0 <= i < |toks| && (forall j :: 0 <= j < i ==> ParseI64(toks[j]) != Some(0))
      ensures ParseI64(toks[i]).Some? && ParseI64(toks[i]).value >= 0
    {
      if i > 0 {
        assert forall j :: 0 <= j < i - 1 ==> toks[1..][j] == toks[j + 1];
        assert toks[1..][i - 1] == toks[i];
      }
    }
  }

  /** Any line: accepted exactly when it is fine, and then the state tells what it told and what the line says. */
  lemma LineTells(toks: Line, line: nat, st: ReadState, c: Contents)
    requires Readable(toks) && !EndsFile(toks) && Tells(st, c)
    ensures ReadLine(toks, line, st).Ok? <==> Fine(toks)
    ensures ReadLine(toks, line, st).Ok? ==> Tells(ReadLine(toks, line, st).value, Then(c, Says(toks)))
  {
    hide HoldsNumbers, IsWidest, ParseI32, ParseI64, ParseUnsigned, ParseWeight, ParseTrack, Note, ShowFine, NumbersOf,
         ShownOf, ReadClauseTokens, ReadShowTokens;
    ThenAssociates(c, SILENT, SILENT);
    if IsClauseLine(toks) {
      ClauseTokensTell(toks, line, st, c.numbers, c.ids);
    } else if !Skipped(toks) && StartsWith(toks, 'c') {
      CommentTells(toks, line, st, c);
    } else if !Skipped(toks) && StartsWith(toks, 'p') && Fine(toks) {
      WidestApart(st, st.(header := Some(ParseUnsigned(toks[2], U32_MAX).value)), c.numbers);
    }
  }

  lemma CommentTells(toks: Line, line: nat, st: ReadState, c: Contents)
    requires Readable(toks) && !Skipped(toks) && StartsWith(toks, 'c') && Tells(st, c)
    ensures ReadComment(toks, line, st).Ok? <==> Fine(toks)
    ensures ReadComment(toks, line, st).Ok? ==> Tells(ReadComment(toks, line, st).value, Then(c, Says(toks)))
  {
    hide HoldsNumbers, IsWidest, ParseI32, ParseI64, ParseWeight, ParseTrack, Note, ShowFine, NumbersOf, ShownOf,
         ReadShowTokens;
    ThenAssociates(c, SILENT, SILENT);
    if IsTrackLine(toks) {
      if ParseTrack(toks[2]).Some? { WidestApart(st, st.(track := ParseTrack(toks[2])), c.numbers); }
    } else if IsShowLine(toks) {
      var seen := st.(sawShow := true);
      ShowTokensTell(toks[3..], line, seen, c.ids);
      if ReadShowTokens(toks[3..], line, seen).Ok? {
        WidestApart(st, ReadShowTokens(toks[3..], line, seen).value, c.numbers);
      }
    } else if IsWeightLine(toks) && ParseI32(toks[3]).Some? && ParseWeight(toks[4]).Ok? {
      var l, val := ParseI32(toks[3]).value, ParseWeight(toks[4]).value;
      var widest := Note(st.widest, WeightLiteral, l, line);
      WidestNoted(st.widest, c.ids, WeightLiteral, l, line);
      WidestApart(st, st.(weightLines := st.weightLines + [(l, val)], widest := widest), c.numbers);
    }
  }

  lemma {:induction false} LinesTell(lines: seq<Line>, line: nat, st: ReadState, c: Contents)
    requires AllReadable(lines) && Tells(st, c)
    ensures ReadLines(lines, line, st).Ok? <==> AllFine(Body(lines))
    ensures ReadLines(lines, line, st).Ok? ==>
              Tells(ReadLines(lines, line, st).value, Then(c, ContentsOf(Body(lines))))
    decreases |lines|
  {
    hide Tells, Then, Says, Fine, ReadLine, Readable;
    if lines == [] || EndsFile(lines[0]) {
      ThenAssociates(c, SILENT, SILENT);
    } else {
      assert forall i :: 0 <= i < |lines| - 1 ==> lines[1..][i] == lines[i + 1];
      var rest := Body(lines[1..]);
      assert Body(lines)[0] == lines[0] && Body(lines)[1..] == rest;
      assert AllFine(Body(lines)) <==> Fine(lines[0]) && AllFine(rest);
      LineTells(lines[0], line, st, c);
      match ReadLine(lines[0], line, st)
      case Err(_) =>
      case Ok(st') =>
        LinesTell(lines[1..], line + 1, st', Then(c, Says(lines[0])));
        ThenAssociates(c, Says(lines[0]), ContentsOf(rest));
    }
  }

  lemma StartTells()
    ensures Tells(START, SILENT)
  {
    assert Stretches([]) == ([], []);
    assert Literals([]) == [];
  }

  // ---- which files are accepted, and what is made of them ----

  function Declared(c: Contents): nat { if c.header.Some? then c.header.value else 0 }

  /** A header, unless there are no clauses; every id within the declared ones; weights that can be completed. */
  ghost predicate Sound(c: Contents) {
    && Clausal(c.numbers) && (c.header.Some? || ClausesOf(c.numbers) == [])
    && (forall id :: id in c.ids ==> Magnitude(id) <= Declared(c))
    && (c.weights != [] ==> PairsInRange(c.weights, Declared(c)) && NoLoneWeights(c.weights))
  }

  ghost predicate Holds(p: Parsed, c: Contents) {
    && Clausal(c.numbers) && p.formula == Formula(Declared(c), ClausesOf(c.numbers)) && p.track == c.track
    && (p.show.Some? <==> c.shows)
    && (p.show.Some? ==> forall v: VarId :: v in p.show.value <==> PosLit(v) in c.shown)
    && (p.weights.Some? <==> c.weights != [])
    && (p.weights.Some? ==> Records(p.weights.value, c.weights, Declared(c)))
  }

  ghost predicate Accepted(lines: seq<Line>) {
    AllFine(Body(lines)) && Sound(ContentsOf(Body(lines)))
  }

  lemma FileTells(lines: seq<Line>)
    requires AllReadable(lines)
    ensures ReadLines(lines, 1, START).Ok? <==> AllFine(Body(lines))
    ensures ReadLines(lines, 1, START).Ok? ==> Tells(ReadLines(lines, 1, START).value, ContentsOf(Body(lines)))
  {
    hide Tells, ReadLines, AllFine;
    StartTells();
    LinesTell(lines, 1, START, SILENT);
    ThenAssociates(ContentsOf(Body(lines)), SILENT, SILENT);
  }

  /** Closing the open clause is taking the open stretch in. */
  lemma ClosedIsClauses(st: ReadState, ns: seq<int>)
    requires HoldsNumbers(st, ns)
    ensures Closed(st).clauses == ClausesOf(ns)
  {
    hide Normalize;
    var (ended, open) := Stretches(ns);
    if open == [] {
      assert ended + [] == ended;
    } else {
      assert (ended + [open])[..|ended|] == ended;
    }
  }

  lemma StateIsSound(st: ReadState, c: Contents)
    requires Tells(st, c)
    ensures Finishable(st) <==> Sound(c)
  {
    hide HoldsNumbers, IsWidest, Fits, ClausesOf, NoLoneWeights, PairsInRange, Closed;
    ClosedIsClauses(st, c.numbers);
    WidestFits(st.widest, c.ids, Declared(c));
    assert Clausal(c.numbers) by { HeldIsClausal(st, c.numbers); }
  }

  lemma HeldIsClausal(st: ReadState, ns: seq<int>)
    requires HoldsNumbers(st, ns)
    ensures Clausal(ns)
  {
  }

  lemma StateHolds(st: ReadState, c: Contents, p: Parsed)
    requires Tells(st, c) && Finished(st, p)
    ensures Holds(p, c)
  {
    hide HoldsNumbers, IsWidest, ClausesOf, Records, Closed;
    ClosedIsClauses(st, c.numbers);
    HeldIsClausal(st, c.numbers);
  }

  /** The parsed file, or the first thing wrong with it. */
  method ParseDimacs(lines: seq<Line>) returns (r: Result<Parsed, ParseError>)
    requires AllReadable(lines)
    ensures match ReadLines(lines, 1, START)
            case Err(e) => r == Err(e)
            case Ok(st) => (r.Ok? <==> Finishable(st)) && (r.Ok? ==> Finished(st, r.value))
    ensures r.Ok? ==> WellFormed(r.value.formula) && (forall c :: c in r.value.formula.clauses ==> Canonical(c))
                      && (r.value.show.Some? ==> forall v :: v in r.value.show.value ==> v <= r.value.formula.numVars)
    ensures r.Ok? <==> Accepted(lines)
    ensures r.Ok? ==> Holds(r.value, ContentsOf(Body(lines)))
  {
    hide Held, ReadLine, Finishable, Finished, Sound, Holds, Tells, AllFine, Body, ContentsOf;
    FileTells(lines);
    var st := START;
    StartHeld();
    LinesHeld(lines, 1, START);
    for k := 0 to |lines|
      invariant ReadLines(lines, 1, START) == ReadLines(lines[k..], k + 1, st)
    {
      assert lines[k..][1..] == lines[k + 1..] && lines[k..][0] == lines[k];
      if EndsFile(lines[k]) { break; }
      var next := ReadOneLine(lines[k], k + 1, st);
      if next.Err? { return Err(next.error); }
      st := next.value;
    }
    assert ReadLines(lines, 1, START) == Ok(st);
    StateIsSound(st, ContentsOf(Body(lines)));
    r := Finish(st);
    if r.Ok? {
      AcceptedInRange(st, r.value);
      StateHolds(st, ContentsOf(Body(lines)), r.value);
    }
  }

  lemma StartHeld()
    ensures Held(START)
  {
  }

  // ---- what may be changed without changing what is read ----

  /** Accepted or refused together, and read as the same. */
  ghost predicate ReadAlike(lines: seq<Line>, lines': seq<Line>) {
    && (AllFine(Body(lines)) <==> AllFine(Body(lines')))
    && ContentsOf(Body(lines)) == ContentsOf(Body(lines'))
  }

  lemma {:induction false} BodyConcat(a: seq<Line>, b: seq<Line>)
    ensures Body(a + b) == if Body(a) == a then a + Body(b) else Body(a)
  {
    if a == [] {
      assert a + b == b;
    } else if !EndsFile(a[0]) {
      assert (a + b)[0] == a[0] && (a + b)[1..] == a[1..] + b;
      BodyConcat(a[1..], b);
      assert a == [a[0]] + a[1..];
      if Body(a) == a { assert Body(a)[1..] == Body(a[1..]); }
    } else {
      assert (a + b)[0] == a[0];
    }
  }

  /** Lines that say the same may replace each other anywhere. */
  lemma ReplacedAlike(before: seq<Line>, x: seq<Line>, y: seq<Line>, after: seq<Line>)
    requires Body(x) == x && Body(y) == y && ReadAlike(x, y)
    ensures ReadAlike(before + x + after, before + y + after)
  {
    hide ContentsOf, Fine, Body, Then;
    BodyConcat(before + x, after);
    BodyConcat(before + y, after);
    BodyConcat(before, x);
    BodyConcat(before, y);
    if Body(before) == before {
      var rest := Body(after);
      ContentsConcat(before + x, rest);
      ContentsConcat(before + y, rest);
      ContentsConcat(before, x);
      ContentsConcat(before, y);
      FineConcat(before + x, rest);
      FineConcat(before + y, rest);
      FineConcat(before, x);
      FineConcat(before, y);
    } else {
      assert |before + x| == |before| + |x|;
      BodyShorter(before);
    }
  }

  lemma {:induction false} BodyShorter(lines: seq<Line>)
    ensures |Body(lines)| <= |lines| && (|Body(lines)| == |lines| ==> Body(lines) == lines)
  {
    if lines != [] && !EndsFile(lines[0]) { BodyShorter(lines[1..]); }
  }

  lemma FineConcat(a: seq<Line>, b: seq<Line>)
    ensures AllFine(a + b) <==> AllFine(a) && AllFine(b)
  {
    hide Fine;
    if AllFine(a + b) {
      forall i | 0 <= i < |a| ensures Fine(a[i]) { assert (a + b)[i] == a[i]; }
      forall i | 0 <= i < |b| ensures Fine(b[i]) { assert (a + b)[|a| + i] == b[i]; }
    }
  }

  /** A blank line, a weight line of an older spelling, or a comment that is no track, show or weight line. */
  predicate Ignored(toks: Line) {
    Skipped(toks) || (StartsWith(toks, 'c') && !IsTrackLine(toks) && !IsShowLine(toks) && !IsWeightLine(toks))
  }

  lemma OneLine(toks: Line)
    requires !EndsFile(toks)
    ensures Body([toks]) == [toks] && ContentsOf([toks]) == Says(toks) && (AllFine([toks]) <==> Fine(toks))
  {
    hide Says, Fine;
    assert [toks][1..] == [];
    ThenAssociates(Says(toks), SILENT, SILENT);
    assert [toks][0] == toks;
  }

  lemma IgnoredIsSilent(toks: Line)
    requires Ignored(toks)
    ensures Says(toks) == SILENT && Fine(toks) && !EndsFile(toks)
  {
  }

  lemma NoLine()
    ensures Body([]) == [] && ContentsOf([]) == SILENT && AllFine([])
  {
  }

  /** Blank lines and ordinary comments may be put in and taken out anywhere. */
  lemma IgnoredChangesNothing(before: seq<Line>, toks: Line, after: seq<Line>)
    requires Ignored(toks)
    ensures ReadAlike(before + [toks] + after, before + after)
  {
    hide Says, Fine, AllFine, Ignored, EndsFile;
    IgnoredIsSilent(toks);
    OneLine(toks);
    NoLine();
    ReplacedAlike(before, [toks], [], after);
    assert before + [] + after == before + after;
  }

  lemma JoinedClauseLine(front: Line, back: Line)
    requires IsClauseLine(front) && IsClauseLine(back)
    ensures Says(front + back) == Then(Says(front), Says(back))
    ensures Fine(front + back) <==> Fine(front) && Fine(back)
  {
    hide ParseI32, NumberOf;
    var joined := front + back;
    assert joined[0] == front[0];
    assert NumbersOf(joined) == NumbersOf(front) + NumbersOf(back);
    if Fine(joined) {
      forall i | 0 <= i < |front| ensures ParseI32(front[i]).Some? { assert joined[i] == front[i]; }
      forall i | 0 <= i < |back| ensures ParseI32(back[i]).Some? { assert joined[|front| + i] == back[i]; }
    }
  }

  /** The numbers of a clause line may go on in the next line instead, whatever clause they are in the middle of. */
  lemma LineBreakChangesNothing(before: seq<Line>, front: Line, back: Line, after: seq<Line>)
    requires IsClauseLine(front) && IsClauseLine(back)
    ensures ReadAlike(before + [front + back] + after, before + [front, back] + after)
  {
    hide Fine, Says, Then, AllFine, Body, ContentsOf;
    var joined := front + back;
    assert joined[0] == front[0];
    assert Body([joined]) == [joined] by { OneLine(joined); }
    OneLine(joined);
    OneLine(front);
    OneLine(back);
    assert [front, back] == [front] + [back];
    ContentsConcat([front], [back]);
    FineConcat([front], [back]);
    BodyConcat([front], [back]);
    JoinedClauseLine(front, back);
    ReplacedAlike(before, [joined], [front, back], after);
  }

  lemma ShowLineSays(toks: Line)
    requires IsShowLine(toks)
    ensures Says(toks) == ShowContents(toks[3..]) && !EndsFile(toks)
  {
    hide ShowContents;
    assert toks[0][0] == 'c' && |toks[0]| == 1;
  }

  /** The variables of every show line are shown. */
  lemma ShowLinesAddUp(before: seq<Line>, toks: Line, after: seq<Line>)
    requires IsShowLine(toks)
    ensures var all := ContentsOf(before + [toks] + after);
            && all.shown == ContentsOf(before).shown + ShownOf(toks[3..]) + ContentsOf(after).shown && all.shows
  {
    hide Says, Fine, ShownOf, IsShowLine, EndsFile;
    ShowLineSays(toks);
    OneLine(toks);
    ContentsConcat(before + [toks], after);
    ContentsConcat(before, [toks]);
  }

  /** Files read alike are accepted together and hold the same. */
  lemma AlikeIsSame(lines: seq<Line>, lines': seq<Line>, p: Parsed)
    requires ReadAlike(lines, lines')
    ensures Accepted(lines) <==> Accepted(lines')
    ensures Holds(p, ContentsOf(Body(lines))) <==> Holds(p, ContentsOf(Body(lines')))
  {
  }
}
