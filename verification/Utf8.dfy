/**
 UTF-8 (RFC 3629): the encoding of section 3 and the well-formed byte sequences of section 4,
 the latter as an automaton that reads one byte at a time.
 */
module Utf8 {
  import opened Bytes

  /** Where the automaton stands inside a character, named by the bytes it still expects. */
  datatype State = Start | Tail1 | Tail2 | Tail3 | AfterE0 | AfterED | AfterF0 | AfterF4 | Reject

  function Step(st: State, b: Byte): State {
    match st
    case Start =>
      if b < 0x80 then Start
      else if 0xC2 <= b <= 0xDF then Tail1
      else if b == 0xE0 then AfterE0
      else if b == 0xED then AfterED
      else if 0xE1 <= b <= 0xEF then Tail2
      else if b == 0xF0 then AfterF0
      else if 0xF1 <= b <= 0xF3 then Tail3
      else if b == 0xF4 then AfterF4
      else Reject
    case Tail1 => if 0x80 <= b <= 0xBF then Start else Reject
    case Tail2 => if 0x80 <= b <= 0xBF then Tail1 else Reject
    case Tail3 => if 0x80 <= b <= 0xBF then Tail2 else Reject
    case AfterE0 => if 0xA0 <= b <= 0xBF then Tail1 else Reject
    case AfterED => if 0x80 <= b <= 0x9F then Tail1 else Reject
    case AfterF0 => if 0x90 <= b <= 0xBF then Tail2 else Reject
    case AfterF4 => if 0x80 <= b <= 0x8F then Tail2 else Reject
    case Reject => Reject
  }

  function Run(st: State, t: bytes): State
    decreases |t|
  {
    if t == [] then st else Run(Step(st, t[0]), t[1..])
  }

  /** A well-formed UTF-8 byte sequence. */
  predicate WellFormed(t: bytes) {
    Run(Start, t) == Start
  }

  lemma {:induction false} RunConcat(st: State, a: bytes, b: bytes)
    ensures Run(st, a + b) == Run(Run(st, a), b)
    decreases |a|
  {
    if a == [] {
      assert a + b == b;
    } else {
      assert (a + b)[0] == a[0] && (a + b)[1..] == a[1..] + b;
      RunConcat(Step(st, a[0]), a[1..], b);
    }
  }

  lemma {:induction false} RunByte(st: State, b: Byte)
    ensures Run(st, [b]) == Step(st, b)
  {
    assert [b][1..] == [];
    assert Run(Step(st, b), []) == Step(st, b);
  }

  lemma {:induction false} RunReject(t: bytes)
    ensures Run(Reject, t) == Reject
  {
    if t != [] {
      RunReject(t[1..]);
    }
  }

  // Code points and their encoding.

  predicate IsSurrogate(cp: nat) {
    0xD800 <= cp <= 0xDFFF
  }

  predicate IsScalar(cp: nat) {
    cp <= 0x10FFFF && !IsSurrogate(cp)
  }

  /** The octets of section 3, for every number of at most 21 bits, surrogates included. */
  function Encode(cp: nat): (t: bytes)
    requires cp < 0x20_0000
    ensures 1 <= |t| <= 4
  {
    if cp < 0x80 then [cp]
    else if cp < 0x800 then [0xC0 + cp / 0x40, 0x80 + cp % 0x40]
    else
      var high := cp / 0x40;
      if cp < 0x1_0000 then [0xE0 + high / 0x40, 0x80 + high % 0x40, 0x80 + cp % 0x40]
      else [0xF0 + high / 0x40 / 0x40, 0x80 + high / 0x40 % 0x40, 0x80 + high % 0x40, 0x80 + cp % 0x40]
  }

  function EncodeAll(cps: seq<nat>): bytes
    requires forall k :: 0 <= k < |cps| ==> IsScalar(cps[k])
  {
    if cps == [] then [] else assert IsScalar(cps[0]); Encode(cps[0]) + EncodeAll(cps[1..])
  }

  /** The number of octets the leading octet announces. */
  function Length(lead: Byte): nat {
    if lead < 0x80 then 1 else if lead < 0xE0 then 2 else if lead < 0xF0 then 3 else 4
  }

  /** The code point whose encoding t is, by the bit fields of section 3. */
  function Decode(t: bytes): int
    requires 1 <= |t| <= 4
  {
    var lead: int := t[0];
    if |t| == 1 then lead
    else if |t| == 2 then (lead - 0xC0) * 0x40 + Low(t[1])
    else if |t| == 3 then ((lead - 0xE0) * 0x40 + Low(t[1])) * 0x40 + Low(t[2])
    else (((lead - 0xF0) * 0x40 + Low(t[1])) * 0x40 + Low(t[2])) * 0x40 + Low(t[3])
  }

  /** The payload of a continuation octet. */
  function Low(b: Byte): int {
    b - 0x80
  }

  /** Decoding gives the code point back. */
  lemma {:induction false} DecodeEncode(cp: nat)
    requires cp < 0x20_0000
    ensures Decode(Encode(cp)) == cp
  {
  }

  /** The automaton's walk over at most four octets, unfolded. */
  lemma {:induction false} RunUnfold(st: State, t: bytes)
    ensures |t| == 1 ==> Run(st, t) == Step(st, t[0])
    ensures |t| == 2 ==> Run(st, t) == Step(Step(st, t[0]), t[1])
    ensures |t| == 3 ==> Run(st, t) == Step(Step(Step(st, t[0]), t[1]), t[2])
    ensures |t| == 4 ==> Run(st, t) == Step(Step(Step(Step(st, t[0]), t[1]), t[2]), t[3])
  {
    if 1 <= |t| <= 4 {
      var front := t[..|t| - 1];
      assert t == front + [t[|t| - 1]];
      RunConcat(st, front, [t[|t| - 1]]);
      RunByte(Run(st, front), t[|t| - 1]);
      if |t| > 1 {
        RunUnfold(st, front);
      }
    }
  }

  /** The automaton accepts the encoding of a number below 2^16 exactly when it is no surrogate. */
  lemma {:induction false} RunEncodeBmp(cp: nat)
    requires cp < 0x1_0000
    ensures Run(Start, Encode(cp)) == if IsSurrogate(cp) then Reject else Start
  {
    RunUnfold(Start, Encode(cp));
  }

  lemma {:induction false} RunEncode(cp: nat)
    requires IsScalar(cp)
    ensures Run(Start, Encode(cp)) == Start
  {
    RunUnfold(Start, Encode(cp));
  }

  lemma {:induction false} Pack(high: int, low: int)
    requires 0 <= low < 0x40
    ensures (high * 0x40 + low) / 0x40 == high && (high * 0x40 + low) % 0x40 == low
  {
  }

  /** One accepted character is the encoding of one scalar value, in shortest form. */
  lemma {:induction false} CharIsEncoding(t: bytes)
    requires 1 <= |t| <= 4 && |t| == Length(t[0]) && Run(Start, t) == Start
    ensures var cp := Decode(t); cp >= 0 && IsScalar(cp) && Encode(cp) == t
  {
    RunUnfold(Start, t);
    if |t| == 2 {
      Pack(t[0] as int - 0xC0, Low(t[1]));
    } else if |t| == 3 {
      CharIsEncoding3(t);
    } else if |t| == 4 {
      CharIsEncoding4(t);
    }
  }

  lemma {:induction false} CharIsEncoding3(t: bytes)
    requires |t| == 3 && Length(t[0]) == 3 && Step(Step(Step(Start, t[0]), t[1]), t[2]) == Start
    ensures var cp := Decode(t); cp >= 0 && IsScalar(cp) && Encode(cp) == t
  {
    var high := (t[0] as int - 0xE0) * 0x40 + Low(t[1]);
    Pack(t[0] as int - 0xE0, Low(t[1]));
    Pack(high, Low(t[2]));
    assert Decode(t) == high * 0x40 + Low(t[2]);
  }

  lemma {:induction false} CharIsEncoding4(t: bytes)
    requires |t| == 4 && Length(t[0]) == 4 && Step(Step(Step(Step(Start, t[0]), t[1]), t[2]), t[3]) == Start
    ensures var cp := Decode(t); cp >= 0 && IsScalar(cp) && Encode(cp) == t
  {
    var top := (t[0] as int - 0xF0) * 0x40 + Low(t[1]);
    var high := top * 0x40 + Low(t[2]);
    Pack(t[0] as int - 0xF0, Low(t[1]));
    Pack(top, Low(t[2]));
    Pack(high, Low(t[3]));
    assert Decode(t) == high * 0x40 + Low(t[3]);
  }

  /** An accepted text that is not empty starts with one whole accepted character. */
  lemma {:induction false} FirstChar(t: bytes)
    requires t != [] && WellFormed(t)
    ensures var n := Length(t[0]); n <= |t| && Run(Start, t[..n]) == Start && WellFormed(t[n..])
  {
    var n := Length(t[0]);
    RunStuck(Start, t);
    if n <= |t| {
      assert t == t[..n] + t[n..];
      RunConcat(Start, t[..n], t[n..]);
      RunUnfold(Start, t[..n]);
      RunReject(t[n..]);
    } else {
      RunUnfold(Start, t);
    }
  }

  /** An accepted text never meets a rejected byte at its front. */
  lemma {:induction false} RunStuck(st: State, t: bytes)
    requires Run(st, t) != Reject
    ensures st != Reject
    ensures t != [] ==> Step(st, t[0]) != Reject
  {
    RunReject(t);
    if t != [] {
      RunReject(t[1..]);
    }
  }

  /** The scalar values of a well-formed text. */
  lemma {:induction false} DecodeAll(t: bytes) returns (cps: seq<nat>)
    requires WellFormed(t)
    ensures forall k :: 0 <= k < |cps| ==> IsScalar(cps[k])
    ensures EncodeAll(cps) == t
    decreases |t|
  {
    hide WellFormed, Run, Encode, Decode, IsScalar, Length;
    if t == [] {
      cps := [];
    } else {
      var n, cp := FirstScalar(t);
      var rest := DecodeAll(t[n..]);
      cps := [cp] + rest;
      EncodeOneMore(cp, rest);
      assert t == t[..n] + t[n..];
    }
  }

  lemma {:induction false} FirstScalar(t: bytes) returns (n: nat, cp: nat)
    requires t != [] && WellFormed(t)
    ensures 0 < n <= |t| && IsScalar(cp) && Encode(cp) == t[..n] && WellFormed(t[n..])
  {
    FirstChar(t);
    n := Length(t[0]);
    CharIsEncoding(t[..n]);
    cp := Decode(t[..n]);
  }

  lemma {:induction false} EncodeOneMore(cp: nat, rest: seq<nat>)
    requires IsScalar(cp) && forall k :: 0 <= k < |rest| ==> IsScalar(rest[k])
    ensures var cps := [cp] + rest;
            (forall k :: 0 <= k < |cps| ==> IsScalar(cps[k])) && EncodeAll(cps) == Encode(cp) + EncodeAll(rest)
  {
    hide Encode, IsScalar;
    var cps := [cp] + rest;
    assert cps[1..] == rest;
  }

  lemma {:induction false} EncodeAllWellFormed(cps: seq<nat>)
    requires forall k :: 0 <= k < |cps| ==> IsScalar(cps[k])
    ensures WellFormed(EncodeAll(cps))
  {
    if cps != [] {
      RunEncode(cps[0]);
      RunConcat(Start, Encode(cps[0]), EncodeAll(cps[1..]));
      EncodeAllWellFormed(cps[1..]);
    }
  }

  /** The automaton accepts exactly the encodings of sequences of Unicode scalar values. */
  lemma {:induction false} WellFormedIffEncoded(t: bytes)
    ensures WellFormed(t) <==>
            exists cps: seq<nat> :: (forall k :: 0 <= k < |cps| ==> IsScalar(cps[k])) && t == EncodeAll(cps)
  {
    if WellFormed(t) {
      var cps := DecodeAll(t);
      assert t == EncodeAll(cps);
    }
    forall cps: seq<nat> | (forall k :: 0 <= k < |cps| ==> IsScalar(cps[k])) && t == EncodeAll(cps)
      ensures WellFormed(t)
    {
      EncodeAllWellFormed(cps);
    }
  }

  /** After an ASCII byte the automaton is between characters, unless it has rejected. */
  lemma {:induction false} AfterAscii(st: State, t: bytes, b: Byte)
    requires b < 0x80 && Run(st, t + [b]) != Reject
    ensures Run(st, t) == Start && Run(st, t + [b]) == Start
  {
    RunConcat(st, t, [b]);
    RunByte(Run(st, t), b);
  }

  /** ASCII bytes leave the automaton between characters. */
  lemma {:induction false} AsciiRun(t: bytes)
    requires forall k :: 0 <= k < |t| ==> t[k] < 0x80
    ensures Run(Start, t) == Start
    decreases |t|
  {
    if t != [] {
      AsciiRun(t[1..]);
    }
  }
}
