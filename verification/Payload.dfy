/** The wire codec of the forked child's result: little-endian integers, length-prefixed vectors,
    packed literals, and the two properties the reader relies on. */
module Payload {
  import opened Wrappers
  import opened Cnf

  type Byte = b: int | 0 <= b < 256 witness 0
  type Bytes = seq<Byte>

  /** Decoders take what they need from the front and pass on the rest. */
  type Decoder<!T> = Bytes -> Option<(T, Bytes)>

  type I32 = i: int | -0x8000_0000 <= i < 0x8000_0000 witness 0

  const TWO_8: int := 0x100
  const TWO_31: int := 0x8000_0000
  const TWO_32: int := 0x1_0000_0000
  const TWO_64: int := 0x1_0000_0000_0000_0000

  // ---- the two properties ----

  /** A success is not undone by more input: the extra bytes are simply left over. */
  ghost predicate StableAt<T>(dec: Decoder<T>, s: Bytes, t: Bytes) {
    dec(s).Some? ==> dec(s + t) == Some((dec(s).value.0, dec(s).value.1 + t))
  }

  ghost predicate Stable<T>(dec: Decoder<T>) {
    forall s: Bytes, t: Bytes :: StableAt(dec, s, t)
  }

  /** Decoding undoes an encoding, whatever follows it. */
  ghost predicate Inverts<T>(dec: Decoder<T>, code: Bytes, x: T) {
    forall t: Bytes :: InvertsAt(dec, code, x, t)
  }

  ghost predicate InvertsAt<T>(dec: Decoder<T>, code: Bytes, x: T, t: Bytes) {
    dec(code + t) == Some((x, t))
  }

  /** No strict prefix of an encoding decodes at all. */
  lemma PrefixFree<T>(dec: Decoder<T>, code: Bytes, x: T, prefix: Bytes)
    requires Stable(dec) && Inverts(dec, code, x)
    requires prefix < code
    ensures dec(prefix) == None
  {
    var rest := code[|prefix|..];
    assert prefix + rest == code && code + [] == code;
    assert StableAt(dec, prefix, rest) && InvertsAt(dec, code, x, []);
  }

  // ---- fixed-width integers ----

  function LittleEndian(v: nat, width: nat): (r: Bytes)
    ensures |r| == width
  {
    if width == 0 then [] else [v % 256] + LittleEndian(v / 256, width - 1)
  }

  function FromLittleEndian(s: Bytes): nat {
    if s == [] then 0 else s[0] + 256 * FromLittleEndian(s[1..])
  }

  function Pow256(n: nat): nat {
    if n == 0 then 1 else 256 * Pow256(n - 1)
  }

  lemma {:induction false} LittleEndianRoundTrip(v: nat, width: nat)
    requires v < Pow256(width)
    ensures FromLittleEndian(LittleEndian(v, width)) == v
  {
    if width > 0 {
      LittleEndianRoundTrip(v / 256, width - 1);
      assert LittleEndian(v, width)[1..] == LittleEndian(v / 256, width - 1);
    }
  }

  lemma {:induction false} FromLittleEndianBound(s: Bytes)
    ensures FromLittleEndian(s) < Pow256(|s|)
  {
    if s != [] { FromLittleEndianBound(s[1..]); }
  }

  lemma Pow256Values()
    ensures Pow256(1) == TWO_8 && Pow256(4) == TWO_32 && Pow256(8) == TWO_64
  {
    assert Pow256(2) == 0x1_0000 && Pow256(3) == 0x100_0000;
    assert Pow256(5) == 0x100_0000_0000 && Pow256(6) == 0x1_0000_0000_0000 && Pow256(7) == 0x100_0000_0000_0000;
  }

  /** The next `n` bytes, or nothing at all. */
  function Take(s: Bytes, n: nat): Option<(Bytes, Bytes)> {
    if |s| < n then None else Some((s[..n], s[n..]))
  }

  /** An unsigned integer of `width` bytes. */
  function GetUint(s: Bytes, width: nat): Option<(nat, Bytes)> {
    var (head, rest) :- Take(s, width);
    Some((FromLittleEndian(head), rest))
  }

  function GetU8(s: Bytes): Option<(nat, Bytes)> { GetUint(s, 1) }
  function GetU32(s: Bytes): Option<(nat, Bytes)> { GetUint(s, 4) }
  function GetU64(s: Bytes): Option<(nat, Bytes)> { GetUint(s, 8) }

  /** Two's complement on 32 bits. */
  function ToU32(i: I32): nat {
    if i < 0 then i + TWO_32 else i
  }

  function FromU32(u: nat): I32
    requires u < TWO_32
  {
    if u < TWO_31 then u else u - TWO_32
  }

  function GetI32(s: Bytes): Option<(I32, Bytes)> {
    var (u, rest) :- GetU32(s);
    U32Bound(s);
    Some((FromU32(u), rest))
  }

  lemma U32Bound(s: Bytes)
    ensures GetU32(s).Some? ==> GetU32(s).value.0 < TWO_32
  {
    if |s| >= 4 { FromLittleEndianBound(s[..4]); }
    Pow256Values();
  }

  function PutU32(v: nat): Bytes { LittleEndian(v, 4) }

  function PutI32(i: I32): Bytes { PutU32(ToU32(i)) }

  function PutLen(n: nat): Bytes { LittleEndian(n, 8) }

  /** A length prefix, refused when it exceeds the bytes actually left. */
  function GetLen(s: Bytes): Option<(nat, Bytes)> {
    var (n, rest) :- GetU64(s);
    if n <= |rest| then Some((n, rest)) else None
  }

  lemma UintInverts(v: nat, width: nat, t: Bytes)
    requires v < Pow256(width)
    ensures GetUint(LittleEndian(v, width) + t, width) == Some((v, t))
  {
    LittleEndianRoundTrip(v, width);
    assert (LittleEndian(v, width) + t)[..width] == LittleEndian(v, width);
    assert (LittleEndian(v, width) + t)[width..] == t;
  }

  lemma UintStable(s: Bytes, width: nat, t: Bytes)
    ensures GetUint(s, width).Some? ==>
              GetUint(s + t, width) == Some((GetUint(s, width).value.0, GetUint(s, width).value.1 + t))
  {
    if |s| >= width {
      assert (s + t)[..width] == s[..width] && (s + t)[width..] == s[width..] + t;
    }
  }

  // ---- literals ----

  /** `var * 2 + polarity` in one unsigned word. */
  function PutLiteral(l: Literal): Bytes {
    PutU32(2 * l.v + (if l.positive then 1 else 0))
  }

  /** Refuses a word whose upper part is no variable. */
  function GetLiteral(s: Bytes): Option<(Literal, Bytes)> {
    var (packed, rest) :- GetU32(s);
    if 1 <= packed / 2 <= MAX_VAR then Some((Literal(packed / 2, packed % 2 == 1), rest)) else None
  }

  lemma LiteralInverts(l: Literal)
    ensures Inverts(GetLiteral, PutLiteral(l), l)
  {
    Pow256Values();
    var packed := 2 * l.v + (if l.positive then 1 else 0);
    forall t: Bytes ensures InvertsAt(GetLiteral, PutLiteral(l), l, t) {
      UintInverts(packed, 4, t);
    }
  }

  lemma LiteralStable()
    ensures Stable(GetLiteral)
  {
    forall s: Bytes, t: Bytes ensures StableAt(GetLiteral, s, t) { UintStable(s, 4, t); }
  }

  lemma I32Inverts(i: I32)
    ensures Inverts(GetI32, PutI32(i), i)
  {
    Pow256Values();
    forall t: Bytes ensures InvertsAt(GetI32, PutI32(i), i, t) { UintInverts(ToU32(i), 4, t); }
  }

  lemma I32Stable()
    ensures Stable(GetI32)
  {
    forall s: Bytes, t: Bytes ensures StableAt(GetI32, s, t) { UintStable(s, 4, t); }
  }

  lemma LenInverts(n: nat, t: Bytes)
    requires n < TWO_64 && n <= |t|
    ensures GetLen(PutLen(n) + t) == Some((n, t))
  {
    Pow256Values();
    UintInverts(n, 8, t);
  }

  lemma LenStable(s: Bytes, t: Bytes)
    ensures GetLen(s).Some? ==> GetLen(s + t) == Some((GetLen(s).value.0, GetLen(s).value.1 + t))
  {
    UintStable(s, 8, t);
  }

  // ---- vectors ----

  function PutEach<T>(xs: seq<T>, put: T -> Bytes): Bytes {
    if xs == [] then [] else put(xs[0]) + PutEach(xs[1..], put)
  }

  function PutVec<T>(xs: seq<T>, put: T -> Bytes): Bytes {
    PutLen(|xs|) + PutEach(xs, put)
  }

  function GetEach<T>(n: nat, elem: Decoder<T>, s: Bytes): Option<(seq<T>, Bytes)> {
    if n == 0 then Some(([], s))
    else
      var (x, rest) :- elem(s);
      var (xs, left) :- GetEach(n - 1, elem, rest);
      Some(([x] + xs, left))
  }

  function GetVec<T>(elem: Decoder<T>, s: Bytes): Option<(seq<T>, Bytes)> {
    var (n, rest) :- GetLen(s);
    GetEach(n, elem, rest)
  }

  /** Every element decodes from its own encoding, which is not empty. */
  ghost predicate EachInverts<T>(elem: Decoder<T>, put: T -> Bytes, xs: seq<T>) {
    forall i :: 0 <= i < |xs| ==> put(xs[i]) != [] && Inverts(elem, put(xs[i]), xs[i])
  }

  lemma {:induction false} EachRoundTrip<T>(elem: Decoder<T>, put: T -> Bytes, xs: seq<T>, t: Bytes)
    requires EachInverts(elem, put, xs)
    ensures GetEach(|xs|, elem, PutEach(xs, put) + t) == Some((xs, t))
    ensures |xs| <= |PutEach(xs, put)|
  {
    if xs != [] {
      EachRoundTrip(elem, put, xs[1..], t);
      var tail := PutEach(xs[1..], put) + t;
      assert PutEach(xs, put) + t == put(xs[0]) + tail;
      assert InvertsAt(elem, put(xs[0]), xs[0], tail);
      assert [xs[0]] + xs[1..] == xs;
    } else {
      assert PutEach(xs, put) + t == t;
    }
  }

  /** A vector decodes from its encoding; the length guard always lets a real vector through. */
  lemma VecInverts<T>(elem: Decoder<T>, put: T -> Bytes, xs: seq<T>, t: Bytes)
    requires EachInverts(elem, put, xs) && |xs| < TWO_64
    ensures GetVec(elem, PutVec(xs, put) + t) == Some((xs, t))
  {
    hide GetLen, PutLen, PutEach, GetEach, EachInverts;
    EachRoundTrip(elem, put, xs, t);
    LenInverts(|xs|, PutEach(xs, put) + t);
    assert PutVec(xs, put) + t == PutLen(|xs|) + (PutEach(xs, put) + t);
  }

  lemma {:induction false} EachStable<T>(n: nat, elem: Decoder<T>, s: Bytes, t: Bytes)
    requires Stable(elem)
    ensures GetEach(n, elem, s).Some? ==>
              GetEach(n, elem, s + t) == Some((GetEach(n, elem, s).value.0, GetEach(n, elem, s).value.1 + t))
  {
    if n > 0 && elem(s).Some? {
      assert StableAt(elem, s, t);
      EachStable(n - 1, elem, elem(s).value.1, t);
    }
  }

  lemma VecStable<T>(elem: Decoder<T>, s: Bytes, t: Bytes)
    requires Stable(elem)
    ensures GetVec(elem, s).Some? ==>
              GetVec(elem, s + t) == Some((GetVec(elem, s).value.0, GetVec(elem, s).value.1 + t))
  {
    LenStable(s, t);
    if GetLen(s).Some? { EachStable(GetLen(s).value.0, elem, GetLen(s).value.1, t); }
  }

  // ---- text ----

  type Ascii = s: string | forall i :: 0 <= i < |s| ==> s[i] as int < 0x80 witness ""

  /** Text travels as its bytes; every text sent is ASCII. */
  function PutText(s: Ascii): Bytes {
    PutLen(|s|) + seq(|s|, i requires 0 <= i < |s| => s[i] as int)
  }

  /** Text read back; a byte outside ASCII is refused. */
  function GetText(s: Bytes): Option<(string, Bytes)> {
    var (n, rest) :- GetLen(s);
    var (raw, left) :- Take(rest, n);
    if forall i :: 0 <= i < n ==> raw[i] < 0x80
    then Some((seq(n, i requires 0 <= i < n => raw[i] as char), left))
    else None
  }

  lemma TextInverts(text: Ascii, t: Bytes)
    requires |text| < TWO_64
    ensures GetText(PutText(text) + t) == Some((text, t))
  {
    var raw := PutText(text)[8..];
    LenInverts(|text|, raw + t);
    assert PutText(text) + t == PutLen(|text|) + (raw + t);
    assert (raw + t)[..|text|] == raw && (raw + t)[|text|..] == t;
    var back := seq(|text|, i requires 0 <= i < |text| => raw[i] as char);
    assert forall i :: 0 <= i < |text| ==> raw[i] == text[i] as int && raw[i] as char == text[i];
    assert back == text;
  }

  lemma TextStable(s: Bytes, t: Bytes)
    ensures GetText(s).Some? ==> GetText(s + t) == Some((GetText(s).value.0, GetText(s).value.1 + t))
  {
    LenStable(s, t);
    if GetLen(s).Some? {
      var (n, rest) := GetLen(s).value;
      assert (rest + t)[..n] == rest[..n] && (rest + t)[n..] == rest[n..] + t;
    }
  }

  // ---- the cursor and the buffer the source works with ----

  /** Cursor over the child's byte stream. */
  class Dec {
    var rest: Bytes

    constructor (bytes: Bytes)
      ensures rest == bytes
    {
      rest := bytes;
    }

    method Uint(width: nat) returns (v: Option<nat>)
      modifies this
      ensures match GetUint(old(rest), width)
              case Some((n, left)) => v == Some(n) && rest == left
              case None => v == None && rest == old(rest)
    {
      if |rest| < width { return None; }
      v := Some(FromLittleEndian(rest[..width]));
      rest := rest[width..];
    }

    method Len() returns (v: Option<nat>)
      modifies this
      ensures match GetLen(old(rest))
              case Some((n, left)) => v == Some(n) && rest == left
              case None => v == None
    {
      v := Uint(8);
      if v.Some? && v.value > |rest| { v := None; }
    }

    /** The length-prefixed loop; the first element that fails abandons the vector. */
    method Vec<T>(elem: Decoder<T>) returns (v: Option<seq<T>>)
      modifies this
      ensures match GetVec(elem, old(rest))
              case Some((xs, left)) => v == Some(xs) && rest == left
              case None => v == None
    {
      var n := Len();
      if n.None? { return None; }
      var out: seq<T> := [];
      ghost var whole := GetEach(n.value, elem, rest);
      PrependNothing(whole);
      for i := 0 to n.value
        invariant whole == Prepend(out, GetEach(n.value - i, elem, rest))
      {
        match elem(rest) {
          case None => return None;
          case Some((x, left)) =>
            PrependOne(out, x, GetEach(n.value - i - 1, elem, left));
            out, rest := out + [x], left;
        }
      }
      assert out + [] == out;
      return Some(out);
    }
  }

  lemma PrependNothing<T>(r: Option<(seq<T>, Bytes)>)
    ensures Prepend([], r) == r
  {
    if r.Some? { assert [] + r.value.0 == r.value.0; }
  }

  ghost function Prepend<T>(xs: seq<T>, r: Option<(seq<T>, Bytes)>): Option<(seq<T>, Bytes)> {
    match r
    case None => None
    case Some((ys, left)) => Some((xs + ys, left))
  }

  lemma PrependOne<T>(xs: seq<T>, x: T, r: Option<(seq<T>, Bytes)>)
    ensures Prepend(xs, Prepend([x], r)) == Prepend(xs + [x], r)
  {
    if r.Some? { assert xs + ([x] + r.value.0) == xs + [x] + r.value.0; }
  }

  /** The buffer an encoder appends to. */
  class Enc {
    var out: Bytes

    constructor ()
      ensures out == []
    {
      out := [];
    }

    method Append(bytes: Bytes)
      modifies this
      ensures out == old(out) + bytes
    {
      out := out + bytes;
    }

    method Vec<T>(xs: seq<T>, put: T -> Bytes)
      modifies this
      ensures out == old(out) + PutVec(xs, put)
    {
      Append(PutLen(|xs|));
      ghost var start := out;
      assert xs[0..] == xs;
      for i := 0 to |xs|
        invariant out + PutEach(xs[i..], put) == start + PutEach(xs, put)
      {
        assert xs[i..][1..] == xs[i + 1..];
        assert PutEach(xs[i..], put) == put(xs[i]) + PutEach(xs[i + 1..], put);
        assert out + put(xs[i]) + PutEach(xs[i + 1..], put) == out + PutEach(xs[i..], put);
        Append(put(xs[i]));
      }
      assert xs[|xs|..] == [];
      assert out + [] == out;
      assert old(out) + PutLen(|xs|) + PutEach(xs, put) == old(out) + PutVec(xs, put);
    }
  }
}
