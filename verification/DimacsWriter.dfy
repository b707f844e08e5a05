/** Writing a formula and its metadata as DIMACS lines, and reading exactly that back. */
module DimacsWriter {
  import opened Wrappers
  import opened Cnf
  import opened Sequences
  import opened ShowSets
  import opened Rationals
  import opened WeightTables
  import opened Dimacs
  import W = Weights

  /** One written weight row: a literal and its weight as text. */
  datatype LiteralWeight = LiteralWeight(literal: int, weight: string)

  datatype DimacsHeader = DimacsHeader(track: Option<Mode>, show: Option<ShowSet>, weights: Option<seq<LiteralWeight>>)

  // ---- the lines ----

  function ProblemLine(f: Formula): Line { ["p", "cnf", NatText(f.numVars), NatText(|f.clauses|)] }

  function TrackLine(m: Mode): Line { ["c", "t", Token(m)] }

  function NumberTokens(vars: seq<VarId>): Line {
    if vars == [] then [] else NumberTokens(vars[..|vars| - 1]) + [IntText(PosLit(vars[|vars| - 1]))]
  }

  function ShowLine(show: ShowSet): Line { ["c", "p", "show"] + (NumberTokens(show) + ["0"]) }

  function WeightRow(row: LiteralWeight): Line { ["c", "p", "weight", IntText(row.literal), row.weight, "0"] }

  function WeightRows(rows: seq<LiteralWeight>): seq<Line> {
    if rows == [] then [] else WeightRows(rows[..|rows| - 1]) + [WeightRow(rows[|rows| - 1])]
  }

  function LiteralTokens(c: Clause): Line {
    if c == [] then [] else LiteralTokens(c[..|c| - 1]) + [IntText(ToDimacs(c[|c| - 1]))]
  }

  function ClauseLine(c: Clause): Line { LiteralTokens(c) + ["0"] }

  function ClauseLines(cs: seq<Clause>): seq<Line> {
    if cs == [] then [] else ClauseLines(cs[..|cs| - 1]) + [ClauseLine(cs[|cs| - 1])]
  }

  function MetaLines(h: DimacsHeader): seq<Line> {
    (if h.track.Some? then [TrackLine(h.track.value)] else [])
    + (if h.show.Some? then [ShowLine(h.show.value)] else [])
    + (if h.weights.Some? then WeightRows(h.weights.value) else [])
  }

  function DimacsLines(f: Formula, h: DimacsHeader): seq<Line> {
    [ProblemLine(f)] + MetaLines(h) + ClauseLines(f.clauses)
  }

  /** The writer: the header line first, then the metadata, then a line per clause. */
  method WriteDimacs(f: Formula, h: DimacsHeader) returns (out: seq<Line>)
    ensures out == DimacsLines(f, h)
  {
    hide ProblemLine, TrackLine, ShowLine, WeightRows, ClauseLines;
    out := [ProblemLine(f)];
    if h.track.Some? { out := out + [TrackLine(h.track.value)]; }
    if h.show.Some? { out := out + [ShowLine(h.show.value)]; }
    if h.weights.Some? { out := EmitWeights(h.weights.value, out); }
    out := EmitClauses(f.clauses, out);
  }

  method EmitWeights(rows: seq<LiteralWeight>, before: seq<Line>) returns (out: seq<Line>)
    ensures out == before + WeightRows(rows)
  {
    hide WeightRow;
    out := before;
    for k := 0 to |rows|
      invariant out == before + WeightRows(rows[..k])
    {
      assert rows[..k + 1][..k] == rows[..k];
      out := out + [WeightRow(rows[k])];
    }
    assert rows[..|rows|] == rows;
  }

  method EmitClauses(cs: seq<Clause>, before: seq<Line>) returns (out: seq<Line>)
    ensures out == before + ClauseLines(cs)
  {
    hide ClauseLine;
    out := before;
    for k := 0 to |cs|
      invariant out == before + ClauseLines(cs[..k])
    {
      assert cs[..k + 1][..k] == cs[..k];
      var line := EmitClause(cs[k]);
      out := out + [line];
    }
    assert cs[..|cs|] == cs;
  }

  method EmitClause(c: Clause) returns (line: Line)
    ensures line == ClauseLine(c)
  {
    line := [];
    for i := 0 to |c|
      invariant line == LiteralTokens(c[..i])
    {
      assert c[..i + 1][..i] == c[..i];
      line := line + [IntText(ToDimacs(c[i]))];
    }
    assert c[..|c|] == c;
    line := line + ["0"];
  }

  /** The rows of a full table, every literal listed with its exact weight. */
  function RecordRows(w: W.Table<Rational>): seq<LiteralWeight> {
    if w == [] then []
    else
      var n := |w|;
      RecordRows(w[..n - 1]) + [LiteralWeight(n, RationalText(w[n - 1].1)), LiteralWeight(-n, RationalText(w[n - 1].0))]
  }

  // ---- reading numbers back ----

  lemma PrintedI32(i: int)
    requires I32_MIN <= i <= MAX_VAR
    ensures ParseI32(IntText(i)) == Some(i)
  {
    ParsePrintedInt(i);
  }

  lemma ZeroToken()
    ensures ParseI32("0") == Some(0) && ParseI64("0") == Some(0)
  {
    ParsePrintedInt(0);
    assert IntText(0) == "0";
  }

  lemma PrintedUnsigned(n: nat, most: int)
    requires n <= most
    ensures ParseUnsigned(NatText(n), most) == Some(n)
  {
    ParsePrintedInt(n);
    assert IsDigit(NatText(n)[0]);
  }

  /** A printed number starts no other kind of line. */
  lemma PrintedStart(i: int, rest: Line)
    ensures IsClauseLine([IntText(i)] + rest)
  {
    var s := IntText(i);
    NumberChars(i);
    assert s[0] in s;
  }

  lemma NumberChars(i: int)
    ensures IntText(i) != [] && forall c :: c in IntText(i) ==> IsDigit(c) || c == '-'
  {
    var s := IntText(i);
    assert forall k :: 0 <= k < |s| ==> IsDigit(s[k]) || s[k] == '-';
  }

  // ---- reading lines back ----

  /** Lines none of which ends the file are read one after the other. */
  lemma {:induction false} ReadInTwo(a: seq<Line>, b: seq<Line>, line: nat, st: ReadState)
    requires AllReadable(a) && AllReadable(b) && forall i :: 0 <= i < |a| ==> !EndsFile(a[i])
    requires ReadLines(a, line, st).Ok?
    ensures AllReadable(a + b)
    ensures ReadLines(a + b, line, st) == ReadLines(b, line + |a|, ReadLines(a, line, st).value)
    decreases |a|
  {
    assert AllReadable(a + b);
    if a == [] {
      assert a + b == b;
    } else {
      assert (a + b)[0] == a[0] && (a + b)[1..] == a[1..] + b;
      assert forall i :: 0 <= i < |a| - 1 ==> a[1..][i] == a[i + 1];
      ReadInTwo(a[1..], b, line + 1, ReadLine(a[0], line, st).value);
    }
  }

  lemma ReadOne(toks: Line, line: nat, st: ReadState)
    requires Readable(toks) && !EndsFile(toks)
    ensures AllReadable([toks])
    ensures ReadLines([toks], line, st) == ReadLine(toks, line, st)
  {
    assert [toks][1..] == [];
  }

  /** Some lines that read without fault. */
  ghost predicate Reads(lines: seq<Line>, line: nat, st: ReadState, st': ReadState) {
    && AllReadable(lines) && (forall i :: 0 <= i < |lines| ==> !EndsFile(lines[i]))
    && ReadLines(lines, line, st) == Ok(st')
  }

  lemma ReadsSplit(a: seq<Line>, b: seq<Line>, line: nat, st: ReadState, st': ReadState, st'': ReadState)
    requires Reads(a, line, st, st') && Reads(b, line + |a|, st', st'')
    ensures Reads(a + b, line, st, st'')
  {
    ReadInTwo(a, b, line, st);
  }

  lemma ReadsOne(toks: Line, line: nat, st: ReadState, st': ReadState)
    requires Readable(toks) && !EndsFile(toks) && ReadLine(toks, line, st) == Ok(st')
    ensures Reads([toks], line, st, st')
  {
    ReadOne(toks, line, st);
  }

  lemma ReadsNothing(line: nat, st: ReadState)
    ensures Reads([], line, st, st)
  {
  }

  // ---- each kind of line ----

  lemma ProblemReads(f: Formula, line: nat, st: ReadState)
    requires f.numVars <= MAX_VAR && |f.clauses| <= U64_MAX
    ensures Reads([ProblemLine(f)], line, st, st.(header := Some(f.numVars)))
  {
    PrintedUnsigned(f.numVars, U32_MAX);
    PrintedUnsigned(|f.clauses|, U64_MAX);
    ReadsOne(ProblemLine(f), line, st, st.(header := Some(f.numVars)));
  }

  lemma TrackReads(m: Mode, line: nat, st: ReadState)
    ensures Reads([TrackLine(m)], line, st, st.(track := Some(m)))
  {
    ReadsOne(TrackLine(m), line, st, st.(track := Some(m)));
  }

  lemma ShowTokenStep(v: VarId, rest: Line, line: nat, st: ReadState)
    ensures ReadShowTokens([IntText(PosLit(v))] + rest, line, st)
         == ReadShowTokens(rest, line,
                           st.(show := st.show + [PosLit(v)], widest := Note(st.widest, ShowVar, PosLit(v), line)))
  {
    hide IntText, ParseInt, Note;
    ParsePrintedInt(PosLit(v));
    assert ([IntText(PosLit(v))] + rest)[1..] == rest;
  }

  lemma NumbersHead(vars: seq<VarId>, before: seq<int>)
    requires vars != []
    ensures before + Numbers(vars) == before + [PosLit(vars[0])] + Numbers(vars[1..])
  {
  }

  lemma ShowTokensEnd(line: nat, st: ReadState)
    ensures ReadShowTokens(["0"], line, st) == Ok(st)
  {
    hide ParseInt;
    ZeroToken();
  }

  lemma ShowTokensFirst(vars: seq<VarId>)
    requires vars != []
    ensures NumberTokens(vars) + ["0"] == [IntText(PosLit(vars[0]))] + (NumberTokens(vars[1..]) + ["0"])
  {
    hide IntText;
    NumberTokensHead(vars);
  }

  /** Show tokens one at a time from the left. */
  lemma {:induction false} ShowTokensRead(vars: seq<VarId>, line: nat, st: ReadState, n: nat)
    returns (top: Option<WidestId>)
    requires Fits(st.widest, n) && forall v :: v in vars ==> v <= n
    ensures Fits(top, n)
    ensures ReadShowTokens(NumberTokens(vars) + ["0"], line, st)
         == Ok(st.(show := st.show + Numbers(vars), widest := top))
    decreases |vars|
  {
    hide ReadShowTokens, IntText, Numbers;
    if vars == [] {
      ShowTokensEnd(line, st);
      top := st.widest;
      assert NumberTokens(vars) + ["0"] == ["0"];
      assert st.show + Numbers(vars) == st.show;
    } else {
      var v := vars[0];
      assert v in vars && forall u :: u in vars[1..] ==> u in vars;
      ShowTokensFirst(vars);
      ShowTokenStep(v, NumberTokens(vars[1..]) + ["0"], line, st);
      NumbersHead(vars, st.show);
      top := ShowTokensRead(vars[1..], line,
                  st.(show := st.show + [PosLit(v)], widest := Note(st.widest, ShowVar, PosLit(v), line)), n);
    }
  }

  function Numbers(vars: seq<VarId>): (r: seq<int>)
    ensures |r| == |vars| && forall i :: 0 <= i < |r| ==> r[i] == PosLit(vars[i])
  {
    seq(|vars|, i requires 0 <= i < |vars| => PosLit(vars[i]))
  }

  lemma {:induction false} NumberTokensHead(vars: seq<VarId>)
    requires vars != []
    ensures NumberTokens(vars) == [IntText(PosLit(vars[0]))] + NumberTokens(vars[1..])
  {
    hide IntText;
    if |vars| > 1 {
      NumberTokensHead(vars[..|vars| - 1]);
      assert vars[..|vars| - 1][1..] == vars[1..][..|vars| - 2];
    }
  }

  lemma ShowReads(show: ShowSet, line: nat, st: ReadState, n: nat) returns (top: Option<WidestId>)
    requires Fits(st.widest, n) && forall v :: v in show ==> v <= n
    ensures Fits(top, n)
    ensures Reads([ShowLine(show)], line, st, st.(sawShow := true, show := st.show + Numbers(show), widest := top))
  {
    hide ReadShowTokens, Numbers, NumberTokens, Fits, Note;
    var toks := ShowLine(show);
    assert toks[3..] == NumberTokens(show) + ["0"];
    top := ShowTokensRead(show, line, st.(sawShow := true), n);
    ReadsOne(toks, line, st, st.(sawShow := true, show := st.show + Numbers(show), widest := top));
  }

  lemma WeightReads(lit: int, w: Rational, line: nat, st: ReadState, n: nat) returns (top: Option<WidestId>)
    requires NamesVariable(lit) && Magnitude(lit) <= n && Lowest(w) && Fits(st.widest, n)
    ensures Fits(top, n)
    ensures Reads([WeightRow(LiteralWeight(lit, RationalText(w)))], line, st,
                  st.(weightLines := st.weightLines + [(lit, w)], widest := top))
  {
    hide IntText, RationalText, ParseInt, ParseI32, ParseWeight;
    PrintedI32(lit);
    ParsePrintedWeight(w);
    top := Note(st.widest, WeightLiteral, lit, line);
    ReadsOne(WeightRow(LiteralWeight(lit, RationalText(w))), line, st,
             st.(weightLines := st.weightLines + [(lit, w)], widest := top));
  }

  ghost predicate AllLowest(w: W.Table<Rational>) {
    forall i :: 0 <= i < |w| ==> Lowest(w[i].0) && Lowest(w[i].1)
  }

  lemma RowsOfTwo(front: seq<LiteralWeight>, p: LiteralWeight, q: LiteralWeight)
    ensures WeightRows(front + [p, q]) == WeightRows(front) + ([WeightRow(p)] + [WeightRow(q)])
  {
    hide WeightRow;
    assert (front + [p, q])[..|front| + 1] == front + [p];
    assert (front + [p])[..|front|] == front;
    assert WeightRows(front + [p]) == WeightRows(front) + [WeightRow(p)];
    assert WeightRows(front + [p, q]) == WeightRows(front + [p]) + [WeightRow(q)];
  }

  lemma WeightRowsSplit(w: W.Table<Rational>)
    requires w != []
    ensures WeightRows(RecordRows(w))
         == WeightRows(RecordRows(w[..|w| - 1]))
            + ([WeightRow(LiteralWeight(|w|, RationalText(w[|w| - 1].1)))]
               + [WeightRow(LiteralWeight(-|w|, RationalText(w[|w| - 1].0)))])
  {
    hide WeightRow, WeightRows, RationalText;
    RowsOfTwo(RecordRows(w[..|w| - 1]), LiteralWeight(|w|, RationalText(w[|w| - 1].1)),
              LiteralWeight(-|w|, RationalText(w[|w| - 1].0)));
  }

  lemma NoRows(w: W.Table<Rational>)
    requires w == []
    ensures WeightRows(RecordRows(w)) == []
  {
  }

  lemma {:induction false} WeightRowsRead(w: W.Table<Rational>, line: nat, st: ReadState, n: nat)
    returns (top: Option<WidestId>)
    requires |w| <= n <= MAX_VAR && AllLowest(w) && Fits(st.widest, n)
    ensures Fits(top, n)
    ensures Reads(WeightRows(RecordRows(w)), line, st,
                  st.(weightLines := st.weightLines + W.ToDimacsPairs(w), widest := top))
  {
    hide Reads, WeightRow, WeightRows, RationalText, Fits;
    if w == [] {
      top := st.widest;
      NoRows(w);
      ReadsNothing(line, st);
      assert st.weightLines + W.ToDimacsPairs(w) == st.weightLines;
    } else {
      var k := |w|;
      var front := WeightRows(RecordRows(w[..k - 1]));
      var p, q := (k, w[k - 1].1), (-k, w[k - 1].0);
      var widest0 := WeightRowsRead(w[..k - 1], line, st, n);
      var st0 := st.(weightLines := st.weightLines + W.ToDimacsPairs(w[..k - 1]), widest := widest0);
      var widest1 := WeightReads(k, p.1, line + |front|, st0, n);
      var st1 := st0.(weightLines := st0.weightLines + [p], widest := widest1);
      top := WeightReads(-k, q.1, line + |front| + 1, st1, n);
      var st2 := st1.(weightLines := st1.weightLines + [q], widest := top);
      var rowP, rowQ := [WeightRow(LiteralWeight(k, RationalText(p.1)))],
          [WeightRow(LiteralWeight(-k, RationalText(q.1)))];
      ReadsSplit(rowP, rowQ, line + |front|, st0, st1, st2);
      ReadsSplit(front, rowP + rowQ, line, st, st0, st2);
      WeightRowsSplit(w);
      assert st2.weightLines == st.weightLines + W.ToDimacsPairs(w);
    }
  }

  lemma {:induction false} LiteralTokensHead(c: Clause)
    requires c != []
    ensures LiteralTokens(c) == [IntText(ToDimacs(c[0]))] + LiteralTokens(c[1..])
  {
    hide IntText, ToDimacs;
    if |c| > 1 {
      LiteralTokensHead(c[..|c| - 1]);
      assert c[..|c| - 1][1..] == c[1..][..|c| - 2];
    }
  }

  lemma LiteralTokenStep(l: Literal, rest: Line, line: nat, st: ReadState)
    requires TokensName(rest)
    ensures TokensName([IntText(ToDimacs(l))] + rest)
    ensures ReadClauseTokens([IntText(ToDimacs(l))] + rest, line, st)
         == ReadClauseTokens(rest, line,
                             st.(current := st.current + [l],
                                 widest := Note(st.widest, ClauseLiteral, ToDimacs(l), line)))
  {
    hide IntText, ParseInt, ParseI32, Note, CloseClause;
    LiteralRoundTrip(l);
    PrintedI32(ToDimacs(l));
    assert ([IntText(ToDimacs(l))] + rest)[1..] == rest;
  }

  lemma ZeroTokenCloses(line: nat, st: ReadState)
    ensures TokensName(["0"]) && ReadClauseTokens(["0"], line, st) == Ok(CloseClause(st))
  {
    hide ParseI32, CloseClause;
    ZeroToken();
    assert ["0"][1..] == [];
  }

  lemma ClauseLineFirst(c: Clause)
    requires c != []
    ensures ClauseLine(c) == [IntText(ToDimacs(c[0]))] + ClauseLine(c[1..])
  {
    hide IntText, ToDimacs;
    LiteralTokensHead(c);
  }

  /** Clause tokens one at a time from the left, up to the closing zero. */
  lemma {:induction false} LiteralTokensRead(c: Clause, line: nat, st: ReadState, n: nat)
    returns (top: Option<WidestId>)
    requires Fits(st.widest, n) && InRange(c, n)
    ensures Fits(top, n) && TokensName(ClauseLine(c))
    ensures ReadClauseTokens(ClauseLine(c), line, st)
         == Ok(CloseClause(st.(current := st.current + c, widest := top)))
    decreases |c|
  {
    hide ReadClauseTokens, IntText, CloseClause, TokensName;
    if c == [] {
      ZeroTokenCloses(line, st);
      top := st.widest;
      assert ClauseLine(c) == ["0"] && st.current + c == st.current;
    } else {
      var l := c[0];
      ClauseLineFirst(c);
      assert l in c && forall m :: m in c[1..] ==> m in c;
      var next := Note(st.widest, ClauseLiteral, ToDimacs(l), line);
      top := LiteralTokensRead(c[1..], line, st.(current := st.current + [l], widest := next), n);
      LiteralTokenStep(l, ClauseLine(c[1..]), line, st);
      assert st.current + c == st.current + [l] + c[1..];
    }
  }

  lemma ClauseLineStart(c: Clause)
    ensures IsClauseLine(ClauseLine(c)) && !EndsFile(ClauseLine(c))
  {
    if c == [] {
      PrintedStart(0, []);
      assert ClauseLine(c) == [IntText(0)] + [];
    } else {
      LiteralTokensHead(c);
      PrintedStart(ToDimacs(c[0]), LiteralTokens(c[1..]) + ["0"]);
      assert ClauseLine(c) == [IntText(ToDimacs(c[0]))] + (LiteralTokens(c[1..]) + ["0"]);
    }
  }

  lemma ClauseReads(c: Clause, line: nat, st: ReadState, n: nat) returns (top: Option<WidestId>)
    requires Fits(st.widest, n) && InRange(c, n) && Canonical(c) && st.current == []
    ensures Fits(top, n)
    ensures Reads([ClauseLine(c)], line, st, st.(clauses := st.clauses + [c], widest := top))
  {
    top := LiteralTokensRead(c, line, st, n);
    assert [] + c == c;
    NormalFormIs(c, c);
    ClauseLineStart(c);
    ReadsOne(ClauseLine(c), line, st, st.(clauses := st.clauses + [c], widest := top));
  }

  lemma {:induction false} ClauseLinesRead(cs: seq<Clause>, line: nat, st: ReadState, n: nat)
    returns (top: Option<WidestId>)
    requires Fits(st.widest, n) && st.current == []
    requires forall i :: 0 <= i < |cs| ==> InRange(cs[i], n) && Canonical(cs[i])
    ensures Fits(top, n)
    ensures Reads(ClauseLines(cs), line, st, st.(clauses := st.clauses + cs, widest := top))
  {
    if cs == [] {
      top := st.widest;
      ReadsNothing(line, st);
      assert st.clauses + cs == st.clauses;
    } else {
      var k := |cs| - 1;
      var widest0 := ClauseLinesRead(cs[..k], line, st, n);
      var st0 := st.(clauses := st.clauses + cs[..k], widest := widest0);
      top := ClauseReads(cs[k], line + |ClauseLines(cs[..k])|, st0, n);
      var st1 := st0.(clauses := st0.clauses + [cs[k]], widest := top);
      ReadsSplit(ClauseLines(cs[..k]), [ClauseLine(cs[k])], line, st, st0, st1);
      assert st1.clauses == st.clauses + cs;
    }
  }

  // ---- the whole file ----

  function HeaderOf(track: Option<Mode>, show: Option<ShowSet>, w: Option<W.Table<Rational>>): DimacsHeader {
    DimacsHeader(track, show, if w.Some? then Some(RecordRows(w.value)) else None)
  }

  /** What the writer is handed: canonical clauses, a show set and weights over the formula's variables. */
  ghost predicate Writable(f: Formula, show: Option<ShowSet>, w: Option<W.Table<Rational>>) {
    && WellFormed(f) && |f.clauses| <= U64_MAX && (forall c :: c in f.clauses ==> Canonical(c))
    && (show.Some? ==> forall v :: v in show.value ==> v <= f.numVars)
    && (w.Some? ==> |w.value| == f.numVars > 0 && AllLowest(w.value))
  }

  /** The state the reader ends in. */
  function EndState(f: Formula, track: Option<Mode>, show: Option<ShowSet>, w: Option<W.Table<Rational>>,
                    widest: Option<WidestId>): ReadState {
    ReadState(Some(f.numVars), f.clauses, [], track, ShownNumbers(show), show.Some?, ListedPairs(w), widest)
  }

  function TrackLines(track: Option<Mode>): seq<Line> { if track.Some? then [TrackLine(track.value)] else [] }

  function ShowLines(show: Option<ShowSet>): seq<Line> { if show.Some? then [ShowLine(show.value)] else [] }

  function WeightLines(w: Option<W.Table<Rational>>): seq<Line> {
    if w.Some? then WeightRows(RecordRows(w.value)) else []
  }

  function ShownNumbers(show: Option<ShowSet>): seq<int> { if show.Some? then Numbers(show.value) else [] }

  function ListedPairs(w: Option<W.Table<Rational>>): seq<WeightPair> {
    if w.Some? then W.ToDimacsPairs(w.value) else []
  }

  lemma TrackPartReads(n: nat, track: Option<Mode>, line: nat)
    ensures Reads(TrackLines(track), line, ReadState(Some(n), [], [], None, [], false, [], None),
                  ReadState(Some(n), [], [], track, [], false, [], None))
  {
    hide Reads, TrackLine;
    var st := ReadState(Some(n), [], [], None, [], false, [], None);
    if track.Some? { TrackReads(track.value, line, st); } else { ReadsNothing(line, st); }
  }

  lemma ShowPartReads(n: nat, track: Option<Mode>, show: Option<ShowSet>, line: nat) returns (top: Option<WidestId>)
    requires show.Some? ==> forall v :: v in show.value ==> v <= n
    ensures Fits(top, n)
    ensures Reads(ShowLines(show), line, ReadState(Some(n), [], [], track, [], false, [], None),
                  ReadState(Some(n), [], [], track, ShownNumbers(show), show.Some?, [], top))
  {
    hide Reads, ShowLine, Numbers;
    var st := ReadState(Some(n), [], [], track, [], false, [], None);
    if show.Some? {
      top := ShowReads(show.value, line, st, n);
      assert [] + Numbers(show.value) == Numbers(show.value);
    } else {
      top := None;
      ReadsNothing(line, st);
    }
  }

  lemma WeightPartReads(n: nat, track: Option<Mode>, show: Option<ShowSet>, w: Option<W.Table<Rational>>, line: nat,
                        wide: Option<WidestId>) returns (top: Option<WidestId>)
    requires n <= MAX_VAR && Fits(wide, n) && (w.Some? ==> |w.value| == n && AllLowest(w.value))
    ensures Fits(top, n)
    ensures Reads(WeightLines(w), line, ReadState(Some(n), [], [], track, ShownNumbers(show), show.Some?, [], wide),
                  ReadState(Some(n), [], [], track, ShownNumbers(show), show.Some?, ListedPairs(w), top))
  {
    hide Reads, WeightRows, RecordRows, ShownNumbers, Fits;
    var st := ReadState(Some(n), [], [], track, ShownNumbers(show), show.Some?, [], wide);
    if w.Some? {
      top := WeightRowsRead(w.value, line, st, n);
      assert [] + W.ToDimacsPairs(w.value) == W.ToDimacsPairs(w.value);
    } else {
      top := wide;
      ReadsNothing(line, st);
    }
  }

  lemma MetaReads(f: Formula, track: Option<Mode>, show: Option<ShowSet>, w: Option<W.Table<Rational>>, line: nat)
    returns (top: Option<WidestId>)
    requires Writable(f, show, w)
    ensures Fits(top, f.numVars)
    ensures Reads(MetaLines(HeaderOf(track, show, w)), line,
                  ReadState(Some(f.numVars), [], [], None, [], false, [], None),
                  ReadState(Some(f.numVars), [], [], track, ShownNumbers(show), show.Some?, ListedPairs(w), top))
  {
    hide Reads, ShownNumbers, ListedPairs, TrackLine, ShowLine, WeightRows, RecordRows, Fits;
    var n := f.numVars;
    var a, b, c := TrackLines(track), ShowLines(show), WeightLines(w);
    TrackPartReads(n, track, line);
    var wide := ShowPartReads(n, track, show, line + |a|);
    top := WeightPartReads(n, track, show, w, line + |a| + |b|, wide);
    var s0, s1 := ReadState(Some(n), [], [], None, [], false, [], None),
        ReadState(Some(n), [], [], track, [], false, [], None);
    var s2 := ReadState(Some(n), [], [], track, ShownNumbers(show), show.Some?, [], wide);
    ReadsSplit(a, b, line, s0, s1, s2);
    ReadsSplit(a + b, c, line, s0, s2,
               ReadState(Some(n), [], [], track, ShownNumbers(show), show.Some?, ListedPairs(w), top));
    assert MetaLines(HeaderOf(track, show, w)) == a + b + c;
  }

  /** Reading what was written ends in the state the file describes. */
  lemma FileReads(f: Formula, track: Option<Mode>, show: Option<ShowSet>, w: Option<W.Table<Rational>>)
    returns (top: Option<WidestId>)
    requires Writable(f, show, w)
    ensures Fits(top, f.numVars)
    ensures Reads(DimacsLines(f, HeaderOf(track, show, w)), 1, START, EndState(f, track, show, w, top))
  {
    hide Reads, MetaLines, ClauseLines, HeaderOf, ShownNumbers, ListedPairs, ProblemLine;
    var n := f.numVars;
    var head, meta, body := [ProblemLine(f)], MetaLines(HeaderOf(track, show, w)), ClauseLines(f.clauses);
    ProblemReads(f, 1, START);
    var s1 := ReadState(Some(n), [], [], None, [], false, [], None);
    var wide := MetaReads(f, track, show, w, 2);
    var s2 := EndState(Formula(n, []), track, show, w, wide);
    forall i | 0 <= i < |f.clauses| ensures InRange(f.clauses[i], n) && Canonical(f.clauses[i]) {
      assert f.clauses[i] in f.clauses;
    }
    top := ClauseLinesRead(f.clauses, 2 + |meta|, s2, n);
    assert [] + f.clauses == f.clauses;
    ReadsSplit(head, meta, 1, START, s1, s2);
    ReadsSplit(head + meta, body, 1, START, s2, EndState(f, track, show, w, top));
  }

  /** What a read file is: the formula, track, show set and weights that were written. */
  ghost predicate Same(p: Parsed, f: Formula, track: Option<Mode>, show: Option<ShowSet>,
                       w: Option<W.Table<Rational>>) {
    && p.formula == f && p.track == track && p.show == show
    && (p.weights.Some? <==> w.Some?)
    && (p.weights.Some? ==>
          Fine(p.weights.value) && f.numVars <= MAX_VAR
          && WeightTables.Resolve(p.weights.value, f.numVars) == w.value)
  }

  /** Reading a written file succeeds and gives back everything that was written. */
  lemma WriteThenRead(f: Formula, track: Option<Mode>, show: Option<ShowSet>, w: Option<W.Table<Rational>>)
    requires Writable(f, show, w)
    ensures AllReadable(DimacsLines(f, HeaderOf(track, show, w)))
    ensures ReadLines(DimacsLines(f, HeaderOf(track, show, w)), 1, START).Ok?
    ensures Finishable(ReadLines(DimacsLines(f, HeaderOf(track, show, w)), 1, START).value)
    ensures forall p :: Finished(ReadLines(DimacsLines(f, HeaderOf(track, show, w)), 1, START).value, p) ==>
              Same(p, f, track, show, w)
  {
    hide DimacsLines, HeaderOf, EndState;
    var widest := FileReads(f, track, show, w);
    EndFinishable(f, track, show, w, widest);
    forall p | Finished(EndState(f, track, show, w, widest), p) ensures Same(p, f, track, show, w) {
      EndIsSame(f, track, show, w, widest, p);
    }
  }

  lemma EndFinishable(f: Formula, track: Option<Mode>, show: Option<ShowSet>, w: Option<W.Table<Rational>>,
                      widest: Option<WidestId>)
    requires Writable(f, show, w) && Fits(widest, f.numVars)
    ensures Finishable(EndState(f, track, show, w, widest))
  {
    if w.Some? {
      RowsInRange(w.value);
      RowsNeverLone(w.value);
    }
  }

  lemma RowsNeverLone(w: W.Table<Rational>)
    ensures NoLoneWeights(W.ToDimacsPairs(w))
  {
    forall v: VarId
      ensures LoneIsFine(GivenBy(W.ToDimacsPairs(w), PosLit(v)), GivenBy(W.ToDimacsPairs(w), NegLit(v)))
    {
      RowsGive(w, PosLit(v));
      RowsGive(w, NegLit(v));
    }
  }

  lemma EndIsSame(f: Formula, track: Option<Mode>, show: Option<ShowSet>, w: Option<W.Table<Rational>>,
                  widest: Option<WidestId>, p: Parsed)
    requires Writable(f, show, w) && Finished(EndState(f, track, show, w, widest), p)
    ensures Same(p, f, track, show, w)
  {
    if show.Some? {
      forall v: VarId ensures v in p.show.value <==> v in show.value { NumbersMember(show.value, v); }
      IncreasingByUnique(p.show.value, show.value, VarNumber);
    }
    if w.Some? {
      var n := |w.value|;
      assert W.ToDimacsPairs(w.value) != [];
      RowsRoundTrip(w.value, p.weights.value);
    }
  }

  lemma NumbersMember(vars: seq<VarId>, v: VarId)
    ensures PosLit(v) in Numbers(vars) <==> v in vars
  {
    if v in vars {
      var i :| 0 <= i < |vars| && vars[i] == v;
      assert Numbers(vars)[i] == PosLit(v);
    }
  }
}
