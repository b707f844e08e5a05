/** The codecs of the two results that cross the process boundary. */
module ForkResult {
  import opened Wrappers
  import opened Cnf
  import opened Payload
  import opened Rationals
  import ShowSets
  import Weights

  // ---- formulas ----

  function PutClause(c: Clause): Bytes { PutVec(c, PutLiteral) }

  function GetClause(s: Bytes): Option<(Clause, Bytes)> { GetVec(GetLiteral, s) }

  function PutFormula(f: Formula): Bytes {
    PutU32(f.numVars) + PutVec(f.clauses, PutClause)
  }

  function GetFormula(s: Bytes): Option<(Formula, Bytes)> {
    var (numVars, s1) :- GetU32(s);
    var (clauses, s2) :- GetVec(GetClause, s1);
    Some((Formula(numVars, clauses), s2))
  }

  /** What the machine types bound: 32-bit counts and ids, 64-bit lengths. */
  ghost predicate Sized(f: Formula) {
    f.numVars < TWO_32 && |f.clauses| < TWO_64 && forall c :: c in f.clauses ==> |c| < TWO_64
  }

  lemma ClauseInverts(c: Clause)
    requires |c| < TWO_64
    ensures Inverts(GetClause, PutClause(c), c) && PutClause(c) != []
  {
    forall i | 0 <= i < |c| ensures PutLiteral(c[i]) != [] && Inverts(GetLiteral, PutLiteral(c[i]), c[i]) {
      LiteralInverts(c[i]);
    }
    forall t: Bytes ensures InvertsAt(GetClause, PutClause(c), c, t) {
      VecInverts(GetLiteral, PutLiteral, c, t);
    }
  }

  lemma ClauseStable()
    ensures Stable(GetClause)
  {
    LiteralStable();
    forall s: Bytes, t: Bytes ensures StableAt(GetClause, s, t) { VecStable(GetLiteral, s, t); }
  }

  lemma FormulaInverts(f: Formula, t: Bytes)
    requires Sized(f)
    ensures GetFormula(PutFormula(f) + t) == Some((f, t))
  {
    Pow256Values();
    var tail := PutVec(f.clauses, PutClause) + t;
    assert PutFormula(f) + t == PutU32(f.numVars) + tail;
    UintInverts(f.numVars, 4, tail);
    forall i | 0 <= i < |f.clauses|
      ensures PutClause(f.clauses[i]) != [] && Inverts(GetClause, PutClause(f.clauses[i]), f.clauses[i])
    {
      ClauseInverts(f.clauses[i]);
    }
    VecInverts(GetClause, PutClause, f.clauses, t);
  }

  lemma FormulaStable(s: Bytes, t: Bytes)
    ensures GetFormula(s).Some? ==>
              GetFormula(s + t) == Some((GetFormula(s).value.0, GetFormula(s).value.1 + t))
  {
    UintStable(s, 4, t);
    ClauseStable();
    if GetU32(s).Some? { VecStable(GetClause, GetU32(s).value.1, t); }
  }

  // ---- elements of the other vectors ----

  function PutPair(p: (Literal, Literal)): Bytes { PutLiteral(p.0) + PutLiteral(p.1) }

  function GetPair(s: Bytes): Option<((Literal, Literal), Bytes)> {
    var (a, s1) :- GetLiteral(s);
    var (b, s2) :- GetLiteral(s1);
    Some(((a, b), s2))
  }

  lemma PairInverts(p: (Literal, Literal))
    ensures Inverts(GetPair, PutPair(p), p)
  {
    LiteralInverts(p.0);
    LiteralInverts(p.1);
    forall t: Bytes ensures InvertsAt(GetPair, PutPair(p), p, t) {
      assert PutPair(p) + t == PutLiteral(p.0) + (PutLiteral(p.1) + t);
      assert InvertsAt(GetLiteral, PutLiteral(p.0), p.0, PutLiteral(p.1) + t);
      assert InvertsAt(GetLiteral, PutLiteral(p.1), p.1, t);
    }
  }

  lemma PairStable()
    ensures Stable(GetPair)
  {
    LiteralStable();
    forall s: Bytes, t: Bytes ensures StableAt(GetPair, s, t) {
      assert StableAt(GetLiteral, s, t);
      if GetLiteral(s).Some? { assert StableAt(GetLiteral, GetLiteral(s).value.1, t); }
    }
  }

  function PutInts(c: seq<I32>): Bytes { PutVec(c, PutI32) }

  function GetInts(s: Bytes): Option<(seq<I32>, Bytes)> { GetVec(GetI32, s) }

  lemma IntsInverts(c: seq<I32>)
    requires |c| < TWO_64
    ensures Inverts(GetInts, PutInts(c), c) && PutInts(c) != []
  {
    forall i | 0 <= i < |c| ensures PutI32(c[i]) != [] && Inverts(GetI32, PutI32(c[i]), c[i]) {
      I32Inverts(c[i]);
    }
    forall t: Bytes ensures InvertsAt(GetInts, PutInts(c), c, t) { VecInverts(GetI32, PutI32, c, t); }
  }

  lemma IntsStable()
    ensures Stable(GetInts)
  {
    I32Stable();
    forall s: Bytes, t: Bytes ensures StableAt(GetInts, s, t) { VecStable(GetI32, s, t); }
  }

  function PutVar(v: VarId): Bytes { PutU32(v) }

  function GetVar(s: Bytes): Option<(VarId, Bytes)> {
    var (v, rest) :- GetU32(s);
    if 1 <= v <= MAX_VAR then Some((v, rest)) else None
  }

  lemma VarInverts(v: VarId)
    ensures Inverts(GetVar, PutVar(v), v)
  {
    Pow256Values();
    forall t: Bytes ensures InvertsAt(GetVar, PutVar(v), v, t) { UintInverts(v, 4, t); }
  }

  lemma VarStable()
    ensures Stable(GetVar)
  {
    forall s: Bytes, t: Bytes ensures StableAt(GetVar, s, t) { UintStable(s, 4, t); }
  }

  /** A variable-map entry; a source variable with no counterpart is written as 0. */
  type Entry = Option<I32>

  function PutEntry(e: Entry): Bytes {
    match e case None => PutI32(0) case Some(l) => PutI32(l)
  }

  function GetEntry(s: Bytes): Option<(Entry, Bytes)> {
    var (l, rest) :- GetI32(s);
    Some((if l == 0 then None else Some(l), rest))
  }

  lemma EntryInverts(e: Entry)
    requires e != Some(0)
    ensures Inverts(GetEntry, PutEntry(e), e)
  {
    var l: I32 := if e.Some? then e.value else 0;
    I32Inverts(l);
    forall t: Bytes ensures InvertsAt(GetEntry, PutEntry(e), e, t) { assert InvertsAt(GetI32, PutI32(l), l, t); }
  }

  lemma EntryStable()
    ensures Stable(GetEntry)
  {
    I32Stable();
    forall s: Bytes, t: Bytes ensures StableAt(GetEntry, s, t) { assert StableAt(GetI32, s, t); }
  }

  lemma RationalTextAscii(r: Rational)
    ensures forall i :: 0 <= i < |RationalText(r)| ==> RationalText(r)[i] as int < 0x80
  {
    assert forall i :: 0 <= i < |RationalText(r)| ==>
        IsDigit(RationalText(r)[i]) || RationalText(r)[i] == '-' || RationalText(r)[i] == '/';
  }

  /** A rational travels as its exact `num/den` text. */
  function PutRational(r: Rational): Bytes {
    RationalTextAscii(r);
    PutText(RationalText(r))
  }

  function GetRational(s: Bytes): Option<(Rational, Bytes)> {
    var (text, rest) :- GetText(s);
    match ParseWeight(text)
    case Ok(r) => Some((r, rest))
    case Err(_) => None
  }

  lemma RationalInverts(r: Rational, t: Bytes)
    requires Lowest(r) && |RationalText(r)| < TWO_64
    ensures GetRational(PutRational(r) + t) == Some((r, t))
  {
    RationalTextAscii(r);
    TextInverts(RationalText(r), t);
    ParsePrintedWeight(r);
  }

  lemma RationalStable(s: Bytes, t: Bytes)
    ensures GetRational(s).Some? ==>
              GetRational(s + t) == Some((GetRational(s).value.0, GetRational(s).value.1 + t))
  {
    TextStable(s, t);
  }

  function PutWeight(p: (I32, Rational)): Bytes { PutI32(p.0) + PutRational(p.1) }

  function GetWeight(s: Bytes): Option<((I32, Rational), Bytes)> {
    var (lit, s1) :- GetI32(s);
    var (w, s2) :- GetRational(s1);
    Some(((lit, w), s2))
  }

  lemma WeightInverts(p: (I32, Rational))
    requires Lowest(p.1) && |RationalText(p.1)| < TWO_64
    ensures Inverts(GetWeight, PutWeight(p), p)
  {
    I32Inverts(p.0);
    forall t: Bytes ensures InvertsAt(GetWeight, PutWeight(p), p, t) {
      assert PutWeight(p) + t == PutI32(p.0) + (PutRational(p.1) + t);
      assert InvertsAt(GetI32, PutI32(p.0), p.0, PutRational(p.1) + t);
      RationalInverts(p.1, t);
    }
  }

  lemma WeightStable()
    ensures Stable(GetWeight)
  {
    I32Stable();
    forall s: Bytes, t: Bytes ensures StableAt(GetWeight, s, t) {
      assert StableAt(GetI32, s, t);
      if GetI32(s).Some? { RationalStable(GetI32(s).value.1, t); }
    }
  }

  // ---- the unweighted result ----

  datatype ArjunResult = ArjunResult(
    formula: Formula, multiplierExp: nat, backbone: seq<Literal>, equiv: seq<(Literal, Literal)>,
    learntClauses: seq<seq<I32>>, independentSupport: ShowSets.ShowSet, inputToReduced: seq<Entry>)

  ghost predicate Sendable(r: ArjunResult) {
    && Sized(r.formula)
    && r.multiplierExp < TWO_32
    && |r.backbone| < TWO_64 && |r.equiv| < TWO_64 && |r.learntClauses| < TWO_64
    && |r.independentSupport| < TWO_64 && |r.inputToReduced| < TWO_64
    && (forall c :: c in r.learntClauses ==> |c| < TWO_64)
    && (forall e :: e in r.inputToReduced ==> e != Some(0))
  }

  function Encode(r: ArjunResult): Bytes {
    PutFormula(r.formula) + (PutU32(r.multiplierExp) + (PutVec(r.backbone, PutLiteral) + (PutVec(r.equiv, PutPair)
      + (PutVec(r.learntClauses, PutInts)
         + (PutVec(r.independentSupport, PutVar) + PutVec(r.inputToReduced, PutEntry))))))
  }

  function Decode(s: Bytes): Option<(ArjunResult, Bytes)> {
    var (formula, s1) :- GetFormula(s);
    var (exp, s2) :- GetU32(s1);
    var (backbone, s3) :- GetVec(GetLiteral, s2);
    var (equiv, s4) :- GetVec(GetPair, s3);
    var (learnt, s5) :- GetVec(GetInts, s4);
    var (support, s6) :- GetVec(GetVar, s5);
    var (entries, s7) :- GetVec(GetEntry, s6);
    Some((ArjunResult(formula, exp, backbone, equiv, learnt, ShowSets.FromVars(support), entries), s7))
  }

  lemma LiteralsInvert(xs: seq<Literal>, t: Bytes)
    requires |xs| < TWO_64
    ensures GetVec(GetLiteral, PutVec(xs, PutLiteral) + t) == Some((xs, t))
  {
    forall i | 0 <= i < |xs| ensures PutLiteral(xs[i]) != [] && Inverts(GetLiteral, PutLiteral(xs[i]), xs[i]) {
      LiteralInverts(xs[i]);
    }
    VecInverts(GetLiteral, PutLiteral, xs, t);
  }

  lemma PairsInvert(xs: seq<(Literal, Literal)>, t: Bytes)
    requires |xs| < TWO_64
    ensures GetVec(GetPair, PutVec(xs, PutPair) + t) == Some((xs, t))
  {
    forall i | 0 <= i < |xs| ensures PutPair(xs[i]) != [] && Inverts(GetPair, PutPair(xs[i]), xs[i]) {
      PairInverts(xs[i]);
    }
    VecInverts(GetPair, PutPair, xs, t);
  }

  lemma LearntInvert(xs: seq<seq<I32>>, t: Bytes)
    requires |xs| < TWO_64 && forall c :: c in xs ==> |c| < TWO_64
    ensures GetVec(GetInts, PutVec(xs, PutInts) + t) == Some((xs, t))
  {
    forall i | 0 <= i < |xs| ensures PutInts(xs[i]) != [] && Inverts(GetInts, PutInts(xs[i]), xs[i]) {
      IntsInverts(xs[i]);
    }
    VecInverts(GetInts, PutInts, xs, t);
  }

  lemma VarsInvert(xs: seq<VarId>, t: Bytes)
    requires |xs| < TWO_64
    ensures GetVec(GetVar, PutVec(xs, PutVar) + t) == Some((xs, t))
  {
    forall i | 0 <= i < |xs| ensures PutVar(xs[i]) != [] && Inverts(GetVar, PutVar(xs[i]), xs[i]) {
      VarInverts(xs[i]);
    }
    VecInverts(GetVar, PutVar, xs, t);
  }

  lemma EntriesInvert(xs: seq<Entry>, t: Bytes)
    requires |xs| < TWO_64 && forall e :: e in xs ==> e != Some(0)
    ensures GetVec(GetEntry, PutVec(xs, PutEntry) + t) == Some((xs, t))
  {
    forall i | 0 <= i < |xs| ensures PutEntry(xs[i]) != [] && Inverts(GetEntry, PutEntry(xs[i]), xs[i]) {
      assert xs[i] in xs;
      EntryInverts(xs[i]);
    }
    VecInverts(GetEntry, PutEntry, xs, t);
  }

  /** A result decodes from its encoding, whatever follows. */
  lemma DecodeInverts(r: ArjunResult)
    requires Sendable(r)
    ensures Inverts(Decode, Encode(r), r)
  {
    forall t: Bytes ensures InvertsAt(Decode, Encode(r), r, t) { DecodeAt(r, t); }
  }

  lemma DecodeAt(r: ArjunResult, t: Bytes)
    requires Sendable(r)
    ensures Decode(Encode(r) + t) == Some((r, t))
  {
    hide GetVec, PutVec, GetFormula, PutFormula;
    Pow256Values();
    var t6 := PutVec(r.inputToReduced, PutEntry) + t;
    var t5 := PutVec(r.independentSupport, PutVar) + t6;
    var t4 := PutVec(r.learntClauses, PutInts) + t5;
    var t3 := PutVec(r.equiv, PutPair) + t4;
    var t2 := PutVec(r.backbone, PutLiteral) + t3;
    var t1 := PutU32(r.multiplierExp) + t2;
    assert Encode(r) + t == PutFormula(r.formula) + t1;
    FormulaInverts(r.formula, t1);
    UintInverts(r.multiplierExp, 4, t2);
    LiteralsInvert(r.backbone, t3);
    PairsInvert(r.equiv, t4);
    LearntInvert(r.learntClauses, t5);
    VarsInvert(r.independentSupport, t6);
    EntriesInvert(r.inputToReduced, t);
    ShowSets.FromVarsOfSet(r.independentSupport);
  }

  lemma DecodeStable()
    ensures Stable(Decode)
  {
    forall s: Bytes, t: Bytes ensures StableAt(Decode, s, t) {
      if Decode(s).Some? {
        FormulaStable(s, t);
        var s1 := GetFormula(s).value.1;
        UintStable(s1, 4, t);
        var s2 := GetU32(s1).value.1;
        LiteralStable();
        VecStable(GetLiteral, s2, t);
        var s3 := GetVec(GetLiteral, s2).value.1;
        PairStable();
        VecStable(GetPair, s3, t);
        var s4 := GetVec(GetPair, s3).value.1;
        IntsStable();
        VecStable(GetInts, s4, t);
        var s5 := GetVec(GetInts, s4).value.1;
        VarStable();
        VecStable(GetVar, s5, t);
        var s6 := GetVec(GetVar, s5).value.1;
        EntryStable();
        VecStable(GetEntry, s6, t);
      }
    }
  }

  lemma Regroup(a: Bytes, b: Bytes, c: Bytes)
    ensures a + b + c == a + (b + c)
  {
  }

  lemma EncodeFlat(start: Bytes, a: Bytes, b: Bytes, c: Bytes, d: Bytes, e: Bytes, f: Bytes, g: Bytes)
    ensures start + a + b + c + d + e + f + g == start + (a + (b + (c + (d + (e + (f + g))))))
  {
    Regroup(start + a + b + c + d + e, f, g);
    Regroup(start + a + b + c + d, e, f + g);
    Regroup(start + a + b + c, d, e + (f + g));
    Regroup(start + a + b, c, d + (e + (f + g)));
    Regroup(start + a, b, c + (d + (e + (f + g))));
    Regroup(start, a, b + (c + (d + (e + (f + g)))));
  }

  method PutFormulaInto(enc: Enc, f: Formula)
    modifies enc
    ensures enc.out == old(enc.out) + PutFormula(f)
  {
    enc.Append(PutU32(f.numVars));
    enc.Vec(f.clauses, PutClause);
    Regroup(old(enc.out), PutU32(f.numVars), PutVec(f.clauses, PutClause));
  }

  /** The encoder: each field appended in turn. */
  method PutResult(enc: Enc, r: ArjunResult)
    modifies enc
    ensures enc.out == old(enc.out) + Encode(r)
  {
    PutFormulaInto(enc, r.formula);
    enc.Append(PutU32(r.multiplierExp));
    enc.Vec(r.backbone, PutLiteral);
    enc.Vec(r.equiv, PutPair);
    enc.Vec(r.learntClauses, PutInts);
    enc.Vec(r.independentSupport, PutVar);
    enc.Vec(r.inputToReduced, PutEntry);
    EncodeFlat(old(enc.out), PutFormula(r.formula), PutU32(r.multiplierExp), PutVec(r.backbone, PutLiteral),
               PutVec(r.equiv, PutPair), PutVec(r.learntClauses, PutInts), PutVec(r.independentSupport, PutVar),
               PutVec(r.inputToReduced, PutEntry));
  }

  /** The decoder: the first field that fails abandons the result. */
  method GetResult(d: Dec) returns (r: Option<ArjunResult>)
    modifies d
    ensures match Decode(old(d.rest))
            case Some((v, left)) => r == Some(v) && d.rest == left
            case None => r == None
  {
    var numVars := d.Uint(4);
    if numVars.None? { return None; }
    var clauses := d.Vec(GetClause);
    if clauses.None? { return None; }
    var exp := d.Uint(4);
    if exp.None? { return None; }
    var backbone := d.Vec(GetLiteral);
    if backbone.None? { return None; }
    var equiv := d.Vec(GetPair);
    if equiv.None? { return None; }
    var learnt := d.Vec(GetInts);
    if learnt.None? { return None; }
    var support := d.Vec(GetVar);
    if support.None? { return None; }
    var entries := d.Vec(GetEntry);
    if entries.None? { return None; }
    return Some(ArjunResult(Formula(numVars.value, clauses.value), exp.value, backbone.value, equiv.value,
                            learnt.value, ShowSets.FromVars(support.value), entries.value));
  }

  // ---- the weighted result ----

  const ONE: Rational := Rational(1, 1)

  datatype ArjunWeightedResult = ArjunWeightedResult(
    formula: Formula, weights: Weights.Table<Rational>, multiplier: Rational, inputToReduced: seq<Entry>)

  ghost predicate SendableRational(r: Rational) {
    Lowest(r) && |RationalText(r)| < TWO_64
  }

  ghost predicate SendableWeighted(r: ArjunWeightedResult) {
    && Sized(r.formula) && r.formula.numVars <= MAX_VAR
    && |r.weights| == r.formula.numVars
    && (forall p :: p in r.weights ==> SendableRational(p.0) && SendableRational(p.1))
    && SendableRational(r.multiplier)
    && |r.inputToReduced| < TWO_64 && forall e :: e in r.inputToReduced ==> e != Some(0)
  }

  /** The table's literals as machine integers. */
  function LiteralWeights(w: Weights.Table<Rational>): (r: seq<(I32, Rational)>)
    requires |w| <= MAX_VAR
    ensures |r| == 2 * |w|
  {
    if w == [] then []
    else
      var n := |w|;
      LiteralWeights(w[..n - 1]) + [(n, w[n - 1].1), (-n, w[n - 1].0)]
  }

  lemma {:induction false} LiteralWeightsListed(w: Weights.Table<Rational>)
    requires |w| <= MAX_VAR
    ensures LiteralWeights(w) == Weights.ToDimacsPairs(w)
  {
    if w != [] { LiteralWeightsListed(w[..|w| - 1]); }
  }

  lemma {:induction false} LiteralWeightsSendable(w: Weights.Table<Rational>)
    requires |w| <= MAX_VAR && forall p :: p in w ==> SendableRational(p.0) && SendableRational(p.1)
    ensures forall i :: 0 <= i < |LiteralWeights(w)| ==> SendableRational(LiteralWeights(w)[i].1)
  {
    if w != [] {
      LiteralWeightsSendable(w[..|w| - 1]);
      assert w[|w| - 1] in w;
    }
  }

  lemma WeightsInvert(w: Weights.Table<Rational>, t: Bytes)
    requires |w| <= MAX_VAR && forall p :: p in w ==> SendableRational(p.0) && SendableRational(p.1)
    ensures GetVec(GetWeight, PutVec(LiteralWeights(w), PutWeight) + t) == Some((LiteralWeights(w), t))
  {
    var pairs := LiteralWeights(w);
    LiteralWeightsSendable(w);
    forall i | 0 <= i < |pairs| ensures PutWeight(pairs[i]) != [] && Inverts(GetWeight, PutWeight(pairs[i]), pairs[i]) {
      WeightInverts(pairs[i]);
    }
    VecInverts(GetWeight, PutWeight, pairs, t);
  }

  function EncodeWeighted(r: ArjunWeightedResult): Bytes
    requires |r.weights| <= MAX_VAR
  {
    PutFormula(r.formula) + (PutVec(LiteralWeights(r.weights), PutWeight)
      + (PutRational(r.multiplier) + PutVec(r.inputToReduced, PutEntry)))
  }

  function DecodeWeighted(s: Bytes): Option<(ArjunWeightedResult, Bytes)> {
    var (formula, s1) :- GetFormula(s);
    var (pairs, s2) :- GetVec(GetWeight, s1);
    var (multiplier, s3) :- GetRational(s2);
    var (entries, s4) :- GetVec(GetEntry, s3);
    Some((ArjunWeightedResult(formula, Weights.FromDimacsPairs(pairs, formula.numVars, ONE), multiplier, entries), s4))
  }

  lemma WeightsBack(w: Weights.Table<Rational>)
    requires |w| <= MAX_VAR
    ensures Weights.FromDimacsPairs(LiteralWeights(w), |w|, ONE) == w
  {
    LiteralWeightsListed(w);
    Weights.PairsRoundTrip(w, ONE);
  }

  /** The four parts, each before what follows it. */
  lemma EncodedWeighted(r: ArjunWeightedResult, t: Bytes)
    requires |r.weights| <= MAX_VAR
    ensures EncodeWeighted(r) + t
         == PutFormula(r.formula) + (PutVec(LiteralWeights(r.weights), PutWeight)
              + (PutRational(r.multiplier) + (PutVec(r.inputToReduced, PutEntry) + t)))
  {
    hide PutVec, PutFormula, PutRational, LiteralWeights;
  }

  lemma DecodeWeightedAt(r: ArjunWeightedResult, t: Bytes)
    requires SendableWeighted(r)
    ensures DecodeWeighted(EncodeWeighted(r) + t) == Some((r, t))
  {
    hide GetVec, PutVec, GetFormula, PutFormula, GetRational, PutRational, LiteralWeights, Weights.FromDimacsPairs,
         EncodeWeighted;
    var t3 := PutVec(r.inputToReduced, PutEntry) + t;
    var t2 := PutRational(r.multiplier) + t3;
    var t1 := PutVec(LiteralWeights(r.weights), PutWeight) + t2;
    EncodedWeighted(r, t);
    FormulaInverts(r.formula, t1);
    WeightsInvert(r.weights, t2);
    RationalInverts(r.multiplier, t3);
    EntriesInvert(r.inputToReduced, t);
    WeightsBack(r.weights);
  }

  lemma DecodeWeightedInverts(r: ArjunWeightedResult)
    requires SendableWeighted(r)
    ensures Inverts(DecodeWeighted, EncodeWeighted(r), r)
  {
    forall t: Bytes ensures InvertsAt(DecodeWeighted, EncodeWeighted(r), r, t) {
      DecodeWeightedAt(r, t);
    }
  }

  lemma DecodeWeightedStable()
    ensures Stable(DecodeWeighted)
  {
    forall s: Bytes, t: Bytes ensures StableAt(DecodeWeighted, s, t) {
      if DecodeWeighted(s).Some? {
        FormulaStable(s, t);
        var s1 := GetFormula(s).value.1;
        WeightStable();
        VecStable(GetWeight, s1, t);
        var s2 := GetVec(GetWeight, s1).value.1;
        RationalStable(s2, t);
        var s3 := GetRational(s2).value.1;
        EntryStable();
        VecStable(GetEntry, s3, t);
      }
    }
  }
}
