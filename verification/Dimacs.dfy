/** DIMACS files as lines of tokens: the reader, the writer, and why one undoes the other. */
module Dimacs {
  import opened Wrappers
  import opened Cnf
  import opened ShowSets
  import opened Rationals
  import opened WeightTables

  /** The whitespace-separated tokens of one line. */
  type Line = seq<string>

  datatype Mode = Mc | Wmc | Pmc | Pwmc

  function Token(m: Mode): string {
    match m
    case Mc => "mc"
    case Wmc => "wmc"
    case Pmc => "pmc"
    case Pwmc => "pwmc"
  }

  function ParseTrack(s: string): Option<Mode> {
    if s == "mc" then Some(Mc) else if s == "wmc" then Some(Wmc)
    else if s == "pmc" then Some(Pmc) else if s == "pwmc" then Some(Pwmc) else None
  }

  datatype IdKind = ClauseLiteral | ShowVar | WeightLiteral

  /** The widest id named so far, as written, and the line that named it. */
  datatype WidestId = WidestId(kind: IdKind, written: int, line: nat)

  datatype ParseError =
    | UnknownTrack(line: nat)
    | BadShowVar(line: nat)
    | NegativeShowVar(line: nat)
    | BadWeightLiteral(line: nat)
    | ZeroWeightLiteral(line: nat)
    | BadWeight(line: nat, why: WeightError)
    | BadProblemLine(line: nat)
    | BadVarCount(line: nat)
    | TooManyVars(line: nat)
    | BadClauseCount(line: nat)
    | BadClauseToken(line: nat)
    | MissingProblemLine
    | TooWide(id: WidestId)
    | BadTable(table: TableError)

  // ---- numbers ----

  const I32_MIN: int := -0x8000_0000
  const U32_MAX: int := 0xFFFF_FFFF
  const U64_MAX: int := 0xFFFF_FFFF_FFFF_FFFF

  function ParseI32(s: string): Option<int> {
    match ParseInt(s)
    case None => None
    case Some(i) => if I32_MIN <= i <= MAX_VAR then Some(i) else None
  }

  /** Unsigned: a minus sign is refused, even before zero. */
  function ParseUnsigned(s: string, most: int): Option<nat> {
    if s != [] && s[0] == '-' then None
    else
      match ParseInt(s)
      case None => None
      case Some(i) => if 0 <= i <= most then Some(i) else None
  }

  // ---- the widest id ----

  function Note(widest: Option<WidestId>, kind: IdKind, written: int, line: nat): Option<WidestId> {
    if widest.None? || Magnitude(written) > Magnitude(widest.value.written)
    then Some(WidestId(kind, written, line))
    else widest
  }

  predicate Fits(widest: Option<WidestId>, n: nat) {
    widest.Some? ==> Magnitude(widest.value.written) <= n
  }

  /** No id named so far is wider than the one kept. */
  ghost predicate Covers(widest: Option<WidestId>, id: int) {
    widest.Some? && Magnitude(id) <= Magnitude(widest.value.written)
  }

  function NoteAll(widest: Option<WidestId>, ids: seq<WidestId>): Option<WidestId>
    decreases |ids|
  {
    if ids == [] then widest else NoteAll(Note(widest, ids[0].kind, ids[0].written, ids[0].line), ids[1..])
  }

  /** Keeping only the widest id decides the range check for all of them. */
  lemma {:induction false} WidestDecides(widest: Option<WidestId>, ids: seq<WidestId>, n: nat)
    ensures Fits(NoteAll(widest, ids), n)
       <==> Fits(widest, n) && forall k :: 0 <= k < |ids| ==> Magnitude(ids[k].written) <= n
    decreases |ids|
  {
    if ids != [] {
      WidestDecides(Note(widest, ids[0].kind, ids[0].written, ids[0].line), ids[1..], n);
      assert forall k :: 0 <= k < |ids| - 1 ==> ids[1..][k] == ids[k + 1];
      if forall k :: 0 <= k < |ids[1..]| ==> Magnitude(ids[1..][k].written) <= n {
        forall k | 1 <= k < |ids| ensures Magnitude(ids[k].written) <= n { assert ids[1..][k - 1] == ids[k]; }
      }
    }
  }

  // ---- the reader's state ----

  datatype ReadState = ReadState(header: Option<nat>, clauses: seq<Clause>, current: Clause, track: Option<Mode>,
                                 show: seq<int>, sawShow: bool, weightLines: seq<WeightPair>, widest: Option<WidestId>)

  const START := ReadState(None, [], [], None, [], false, [], None)

  function LiteralOf(n: int): Literal
    requires NamesVariable(n)
  {
    Literal(Magnitude(n), n > 0)
  }

  function ToDimacs(l: Literal): int { if l.positive then PosLit(l.v) else NegLit(l.v) }

  lemma LiteralRoundTrip(l: Literal)
    ensures NamesVariable(ToDimacs(l)) && LiteralOf(ToDimacs(l)) == l
  {
  }

  function CloseClause(st: ReadState): ReadState {
    var c := Normalize(st.current);
    st.(clauses := if c.Some? then st.clauses + [c.value] else st.clauses, current := [])
  }

  /** No clause token is the one 32-bit integer that names no variable and ends no clause. */
  predicate TokensName(toks: Line) {
    forall i :: 0 <= i < |toks| ==> ParseI32(toks[i]) != Some(I32_MIN)
  }

  function ReadClauseTokens(toks: Line, line: nat, st: ReadState): Result<ReadState, ParseError>
    requires TokensName(toks)
    decreases |toks|
  {
    if toks == [] then Ok(st)
    else
      assert forall i :: 0 <= i < |toks| - 1 ==> toks[1..][i] == toks[i + 1];
      match ParseI32(toks[0])
      case None => Err(BadClauseToken(line))
      case Some(v) =>
        if v == 0 then ReadClauseTokens(toks[1..], line, CloseClause(st))
        else ReadClauseTokens(toks[1..], line,
               st.(current := st.current + [LiteralOf(v)], widest := Note(st.widest, ClauseLiteral, v, line)))
  }

  function ReadShowTokens(toks: Line, line: nat, st: ReadState): Result<ReadState, ParseError>
    decreases |toks|
  {
    if toks == [] then Ok(st)
    else
      match ParseI64(toks[0])
      case None => Err(BadShowVar(line))
      case Some(v) =>
        if v == 0 then Ok(st)
        else if v < 0 then Err(NegativeShowVar(line))
        else ReadShowTokens(toks[1..], line, st.(show := st.show + [v], widest := Note(st.widest, ShowVar, v, line)))
  }

  function ReadWeight(lit: string, w: string, line: nat, st: ReadState): Result<ReadState, ParseError> {
    match ParseI32(lit)
    case None => Err(BadWeightLiteral(line))
    case Some(l) =>
      if l == 0 then Err(ZeroWeightLiteral(line))
      else
        match ParseWeight(w)
        case Err(why) => Err(BadWeight(line, why))
        case Ok(val) => Ok(st.(weightLines := st.weightLines + [(l, val)],
                               widest := Note(st.widest, WeightLiteral, l, line)))
  }

  predicate IsTrackLine(toks: Line) { |toks| == 3 && toks[0] == "c" && toks[1] == "t" }

  predicate IsShowLine(toks: Line) { |toks| >= 3 && toks[0] == "c" && toks[1] == "p" && toks[2] == "show" }

  predicate IsWeightLine(toks: Line) { |toks| >= 5 && toks[0] == "c" && toks[1] == "p" && toks[2] == "weight" }

  function ReadComment(toks: Line, line: nat, st: ReadState): Result<ReadState, ParseError> {
    if IsTrackLine(toks) then
      match ParseTrack(toks[2])
      case None => Err(UnknownTrack(line))
      case Some(m) => Ok(st.(track := Some(m)))
    else if IsShowLine(toks) then ReadShowTokens(toks[3..], line, st.(sawShow := true))
    else if IsWeightLine(toks) then ReadWeight(toks[3], toks[4], line, st)
    else Ok(st)
  }

  function ReadProblemLine(toks: Line, line: nat, st: ReadState): Result<ReadState, ParseError> {
    if |toks| < 4 || toks[1] != "cnf" then Err(BadProblemLine(line))
    else
      match ParseUnsigned(toks[2], U32_MAX)
      case None => Err(BadVarCount(line))
      case Some(n) =>
        if n > MAX_VAR then Err(TooManyVars(line))
        else if ParseUnsigned(toks[3], U64_MAX).None? then Err(BadClauseCount(line))
        else Ok(st.(header := Some(n)))
  }

  // ---- one line ----

  predicate StartsWith(toks: Line, c: char) { toks != [] && toks[0] != [] && toks[0][0] == c }

  /** Blank, or a weight line of the two older spellings. */
  predicate Skipped(toks: Line) { toks == [] || StartsWith(toks, 'w') || '.' in toks[0] }

  predicate IsClauseLine(toks: Line) {
    !Skipped(toks) && !StartsWith(toks, '%') && !StartsWith(toks, 'c') && !StartsWith(toks, 'p')
  }

  predicate Readable(toks: Line) { IsClauseLine(toks) ==> TokensName(toks) }

  function ReadLine(toks: Line, line: nat, st: ReadState): Result<ReadState, ParseError>
    requires Readable(toks)
  {
    if Skipped(toks) then Ok(st)
    else if StartsWith(toks, 'c') then ReadComment(toks, line, st)
    else if StartsWith(toks, 'p') then ReadProblemLine(toks, line, st)
    else if StartsWith(toks, '%') then Ok(st)
    else ReadClauseTokens(toks, line, st)
  }

  predicate EndsFile(toks: Line) { !Skipped(toks) && StartsWith(toks, '%') }

  predicate AllReadable(lines: seq<Line>) { forall i :: 0 <= i < |lines| ==> Readable(lines[i]) }

  function ReadLines(lines: seq<Line>, line: nat, st: ReadState): Result<ReadState, ParseError>
    requires AllReadable(lines)
    decreases |lines|
  {
    if lines == [] || EndsFile(lines[0]) then Ok(st)
    else
      assert forall i :: 0 <= i < |lines| - 1 ==> lines[1..][i] == lines[i + 1];
      match ReadLine(lines[0], line, st)
      case Err(e) => Err(e)
      case Ok(st') => ReadLines(lines[1..], line + 1, st')
  }

  method ReadClauseLine(toks: Line, line: nat, st0: ReadState) returns (r: Result<ReadState, ParseError>)
    requires TokensName(toks)
    ensures r == ReadClauseTokens(toks, line, st0)
  {
    var st := st0;
    for k := 0 to |toks|
      invariant ReadClauseTokens(toks, line, st0) == ReadClauseTokens(toks[k..], line, st)
    {
      assert toks[k..][1..] == toks[k + 1..] && toks[k..][0] == toks[k];
      var value := ParseI32(toks[k]);
      if value.None? { return Err(BadClauseToken(line)); }
      if value.value == 0 {
        st := CloseClause(st);
      } else {
        var widest := Note(st.widest, ClauseLiteral, value.value, line);
        st := st.(current := st.current + [LiteralOf(value.value)], widest := widest);
      }
    }
    assert toks[|toks|..] == [];
    return Ok(st);
  }

  method ReadShowLine(toks: Line, line: nat, st0: ReadState) returns (r: Result<ReadState, ParseError>)
    ensures r == ReadShowTokens(toks, line, st0)
  {
    var st := st0;
    for k := 0 to |toks|
      invariant ReadShowTokens(toks, line, st0) == ReadShowTokens(toks[k..], line, st)
    {
      assert toks[k..][1..] == toks[k + 1..] && toks[k..][0] == toks[k];
      var value := ParseI64(toks[k]);
      if value.None? { return Err(BadShowVar(line)); }
      if value.value == 0 { return Ok(st); }
      if value.value < 0 { return Err(NegativeShowVar(line)); }
      var widest := Note(st.widest, ShowVar, value.value, line);
      st := st.(show := st.show + [value.value], widest := widest);
    }
    assert toks[|toks|..] == [];
    return Ok(st);
  }

  // ---- the whole file ----

  datatype Parsed = Parsed(formula: Formula, track: Option<Mode>, show: Option<ShowSet>, weights: Option<WeightTable>)

  /** A final clause whose `0` the file omits is closed like any other. */
  function Closed(st: ReadState): ReadState { if st.current == [] then st else CloseClause(st) }

  predicate HasHeader(st: ReadState) { st.header.Some? || Closed(st).clauses == [] }

  function DeclaredVars(st: ReadState): nat { if st.header.Some? then st.header.value else 0 }

  ghost predicate Finishable(st: ReadState) {
    && HasHeader(st) && Fits(st.widest, DeclaredVars(st))
    && (st.weightLines != [] ==> PairsInRange(st.weightLines, DeclaredVars(st)) && NoLoneWeights(st.weightLines))
  }

  ghost predicate Finished(st: ReadState, p: Parsed) {
    && p.formula == Formula(DeclaredVars(st), Closed(st).clauses) && p.track == st.track
    && (p.show.Some? <==> st.sawShow)
    && (p.show.Some? ==> forall v: VarId :: v in p.show.value <==> PosLit(v) in st.show)
    && (p.weights.Some? <==> st.weightLines != [])
    && (p.weights.Some? ==> Records(p.weights.value, st.weightLines, DeclaredVars(st)))
  }

  // ---- what every id of a read file keeps ----

  /** Every id the state holds is covered by the widest one, and what it holds is well formed. */
  ghost predicate Held(st: ReadState) {
    && (st.header.Some? ==> st.header.value <= MAX_VAR)
    && (forall c, l :: c in st.clauses && l in c ==> Covers(st.widest, PosLit(l.v)))
    && (forall c :: c in st.clauses ==> Canonical(c))
    && (forall l :: l in st.current ==> Covers(st.widest, PosLit(l.v)))
    && (forall v :: v in st.show ==> v > 0 && Covers(st.widest, v))
    && (forall k :: 0 <= k < |st.weightLines| ==> st.weightLines[k].0 != 0 && Covers(st.widest, st.weightLines[k].0))
  }

  lemma NoteCovers(widest: Option<WidestId>, kind: IdKind, written: int, line: nat)
    ensures Covers(Note(widest, kind, written, line), written)
    ensures forall id :: Covers(widest, id) ==> Covers(Note(widest, kind, written, line), id)
  {
  }

  lemma CloseHeld(st: ReadState)
    requires Held(st)
    ensures Held(CloseClause(st))
  {
    NormalizeMeaning(st.current);
  }

  lemma {:induction false} ClauseTokensHeld(toks: Line, line: nat, st: ReadState)
    requires TokensName(toks) && Held(st)
    ensures ReadClauseTokens(toks, line, st).Ok? ==> Held(ReadClauseTokens(toks, line, st).value)
    decreases |toks|
  {
    if toks != [] && ParseI32(toks[0]).Some? {
      assert forall i :: 0 <= i < |toks| - 1 ==> toks[1..][i] == toks[i + 1];
      var v := ParseI32(toks[0]).value;
      if v == 0 {
        CloseHeld(st);
        ClauseTokensHeld(toks[1..], line, CloseClause(st));
      } else {
        NoteCovers(st.widest, ClauseLiteral, v, line);
        ClauseTokensHeld(toks[1..], line,
          st.(current := st.current + [LiteralOf(v)], widest := Note(st.widest, ClauseLiteral, v, line)));
      }
    }
  }

  lemma {:induction false} ShowTokensHeld(toks: Line, line: nat, st: ReadState)
    requires Held(st)
    ensures ReadShowTokens(toks, line, st).Ok? ==> Held(ReadShowTokens(toks, line, st).value)
    decreases |toks|
  {
    if toks != [] && ParseI64(toks[0]).Some? && ParseI64(toks[0]).value > 0 {
      var v := ParseI64(toks[0]).value;
      NoteCovers(st.widest, ShowVar, v, line);
      ShowTokensHeld(toks[1..], line, st.(show := st.show + [v], widest := Note(st.widest, ShowVar, v, line)));
    }
  }

  lemma LineHeld(toks: Line, line: nat, st: ReadState)
    requires Readable(toks) && Held(st)
    ensures ReadLine(toks, line, st).Ok? ==> Held(ReadLine(toks, line, st).value)
  {
    if IsClauseLine(toks) {
      ClauseTokensHeld(toks, line, st);
    } else if IsShowLine(toks) {
      ShowTokensHeld(toks[3..], line, st.(sawShow := true));
    } else if IsWeightLine(toks) && ParseI32(toks[3]).Some? {
      NoteCovers(st.widest, WeightLiteral, ParseI32(toks[3]).value, line);
    }
  }

  lemma {:induction false} LinesHeld(lines: seq<Line>, line: nat, st: ReadState)
    requires AllReadable(lines) && Held(st)
    ensures ReadLines(lines, line, st).Ok? ==> Held(ReadLines(lines, line, st).value)
    decreases |lines|
  {
    if lines != [] && !EndsFile(lines[0]) {
      assert forall i :: 0 <= i < |lines| - 1 ==> lines[1..][i] == lines[i + 1];
      LineHeld(lines[0], line, st);
      match ReadLine(lines[0], line, st)
      case Err(_) =>
      case Ok(st') => LinesHeld(lines[1..], line + 1, st');
    }
  }

  /** Every accepted file names ids in `1..=vars` only: clause literals, shown variables and weights. */
  lemma AcceptedInRange(st: ReadState, p: Parsed)
    requires Held(st) && Finishable(st) && Finished(st, p)
    ensures WellFormed(p.formula) && forall c :: c in p.formula.clauses ==> Canonical(c)
    ensures p.show.Some? ==> forall v :: v in p.show.value ==> v <= p.formula.numVars
    ensures p.weights.Some? ==> forall lit: int :: lit != 0 && p.weights.value.Given(lit).Some? ==>
              Magnitude(lit) <= p.formula.numVars
  {
    CloseHeld(st);
    var n := p.formula.numVars;
    forall c, l | c in p.formula.clauses && l in c ensures l.v <= n {
      assert Covers(st.widest, PosLit(l.v));
    }
    if p.show.Some? {
      forall v | v in p.show.value ensures v <= n { assert PosLit(v) in st.show; }
    }
  }

  method ReadOneLine(toks: Line, line: nat, st: ReadState) returns (r: Result<ReadState, ParseError>)
    requires Readable(toks)
    ensures r == ReadLine(toks, line, st)
  {
    if Skipped(toks) || StartsWith(toks, '%') { return ReadLine(toks, line, st); }
    if StartsWith(toks, 'c') {
      if IsShowLine(toks) && !IsTrackLine(toks) {
        r := ReadShowLine(toks[3..], line, st.(sawShow := true));
        return r;
      }
      return ReadComment(toks, line, st);
    }
    if StartsWith(toks, 'p') { return ReadProblemLine(toks, line, st); }
    r := ReadClauseLine(toks, line, st);
  }

  method Finish(st0: ReadState) returns (r: Result<Parsed, ParseError>)
    requires Held(st0)
    ensures r.Ok? <==> Finishable(st0)
    ensures r.Ok? ==> Finished(st0, r.value)
  {
    var st := Closed(st0);
    if st.header.None? && st.clauses != [] { return Err(MissingProblemLine); }
    var n := if st.header.Some? then st.header.value else 0;
    if st.widest.Some? && Magnitude(st.widest.value.written) > n { return Err(TooWide(st.widest.value)); }
    var show: Option<ShowSet> := None;
    if st.sawShow {
      var vars := ShownVars(st.show, n);
      show := Some(FromVars(vars));
    }
    var weights: Option<WeightTable> := None;
    if st.weightLines != [] {
      var table := FromDimacsPairs(st.weightLines, n);
      if table.Err? { return Err(BadTable(table.error)); }
      weights := Some(table.value);
    }
    return Ok(Parsed(Formula(n, st.clauses), st.track, show, weights));
  }

  /** The written show ids as variables; every one is known to fit. */
  method ShownVars(show: seq<int>, n: nat) returns (vars: seq<VarId>)
    requires n <= MAX_VAR && forall v :: v in show ==> 0 < v <= n
    ensures |vars| == |show| && forall v: VarId :: v in vars <==> PosLit(v) in show
    ensures forall i :: 0 <= i < |vars| ==> PosLit(vars[i]) == show[i]
  {
    vars := [];
    for k := 0 to |show|
      invariant |vars| == k && (forall v: VarId :: v in vars <==> PosLit(v) in show[..k])
      invariant forall i :: 0 <= i < k ==> PosLit(vars[i]) == show[i]
    {
      assert show[k] in show && show[..k + 1] == show[..k] + [show[k]];
      vars := vars + [show[k]];
    }
    assert show[..|show|] == show;
  }
}
