/** Byte strings and the position predicate that parsing proofs are phrased with. */
module Bytes {

  type Byte = x: int | 0 <= x < 256
  type bytes = seq<Byte>

  const QUOTE: Byte := 0x22
  const PLUS: Byte := 0x2B
  const COMMA: Byte := 0x2C
  const MINUS: Byte := 0x2D
  const DOT: Byte := 0x2E
  const ZERO: Byte := 0x30
  const COLON: Byte := 0x3A
  const AT_SIGN: Byte := 0x40
  const LBRACKET: Byte := 0x5B
  const BACKSLASH: Byte := 0x5C
  const RBRACKET: Byte := 0x5D
  const LBRACE: Byte := 0x7B
  const RBRACE: Byte := 0x7D

  predicate IsDigit(b: Byte) {
    0x30 <= b <= 0x39
  }

  /** The text t stands at position i of s. */
  predicate At(s: bytes, i: nat, t: bytes) {
    i + |t| <= |s| && s[i..i + |t|] == t
  }

  lemma {:induction false} AtConcat(s: bytes, i: nat, a: bytes, b: bytes)
    ensures At(s, i, a + b) <==> At(s, i, a) && At(s, i + |a|, b)
  {
    if i + |a| + |b| <= |s| {
      var whole := s[i..i + |a + b|];
      assert whole[..|a|] == s[i..i + |a|];
      assert whole[|a|..] == s[i + |a|..i + |a| + |b|];
      assert whole == whole[..|a|] + whole[|a|..];
      assert (a + b)[..|a|] == a && (a + b)[|a|..] == b;
    }
  }

  lemma {:induction false} AtByte(s: bytes, i: nat, b: Byte)
    ensures At(s, i, [b]) <==> i < |s| && s[i] == b
  {
    if i < |s| {
      assert s[i..i + 1] == [s[i]];
    }
  }

  /** A text that stands somewhere and is not empty fixes the byte at that place. */
  lemma {:induction false} AtFirst(s: bytes, i: nat, t: bytes)
    requires At(s, i, t) && |t| > 0
    ensures i < |s| && s[i] == t[0]
  {
    assert s[i..i + |t|][0] == s[i];
  }

  /** The position of the first byte b at or after i, or None: std::string::find. */
  function IndexFrom(s: bytes, b: Byte, i: nat): (r: int)
    requires i <= |s|
    ensures r == -1 ==> b !in s[i..]
    ensures r != -1 ==> i <= r < |s| && s[r] == b && b !in s[i..r]
    decreases |s| - i
  {
    if i == |s| then -1
    else if s[i] == b then i
    else
      var r := IndexFrom(s, b, i + 1);
      assert s[i..] == [s[i]] + s[i + 1..];
      assert r != -1 ==> s[i..r] == [s[i]] + s[i + 1..r];
      r
  }

  /** The position of the last byte b of s, or -1: std::string::rfind. */
  function LastIndex(s: bytes, b: Byte): (r: int)
    ensures r == -1 ==> b !in s
    ensures r != -1 ==> 0 <= r < |s| && s[r] == b && b !in s[r + 1..]
  {
    if s == [] then -1
    else if s[|s| - 1] == b then |s| - 1
    else
      var front := s[..|s| - 1];
      var r := LastIndex(front, b);
      assert s == front + [s[|s| - 1]];
      assert r != -1 ==> s[r + 1..] == front[r + 1..] + [s[|s| - 1]];
      r
  }
}
