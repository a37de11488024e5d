/** Decimal text and fixed-width integers: std::to_string, std::stoll, std::stoull and the casts between widths. */
module Decimal {
  import opened Bytes
  import opened Outcome

  const TWO31: int := 0x8000_0000
  const TWO32: int := 0x1_0000_0000
  const TWO63: int := 0x8000_0000_0000_0000
  const TWO64: int := 0x1_0000_0000_0000_0000

  type I32 = x: int | -0x8000_0000 <= x < 0x8000_0000
  type U32 = x: int | 0 <= x < 0x1_0000_0000
  type I64 = x: int | -0x8000_0000_0000_0000 <= x < 0x8000_0000_0000_0000
  type U64 = x: int | 0 <= x < 0x1_0000_0000_0000_0000

  // Casts keep the value modulo the width of the target type.

  function ToI64(n: int): (r: I64)
    ensures (r - n) % TWO64 == 0
  {
    (n + TWO63) % TWO64 - TWO63
  }

  function ToU64(n: int): (r: U64)
    ensures (r - n) % TWO64 == 0
  {
    n % TWO64
  }

  function ToI32(n: int): (r: I32)
    ensures (r - n) % TWO32 == 0
  {
    (n + TWO31) % TWO32 - TWO31
  }

  function ToU32(n: int): (r: U32)
    ensures (r - n) % TWO32 == 0
  {
    n % TWO32
  }

  /** The cast to int64 and back loses nothing of an unsigned 64-bit number. */
  lemma {:induction false} U64ThroughI64(u: U64)
    ensures ToU64(ToI64(u)) == u
  {
    if u < TWO63 {
      assert ToI64(u) == u;
    } else {
      assert (u + TWO63) % TWO64 == u - TWO63;
      assert ToI64(u) == u - TWO64;
    }
  }

  lemma {:induction false} I32Kept(n: I32)
    ensures ToI32(n) == n
  {
  }

  lemma {:induction false} I64Kept(n: I64)
    ensures ToI64(n) == n
  {
  }

  /** Narrowing after the cast to int64 is the same as narrowing at once. */
  lemma {:induction false} U32ThroughI64(u: U64)
    ensures ToU32(ToI64(u)) == ToU32(u)
  {
    if u >= TWO63 {
      assert (u + TWO63) % TWO64 == u - TWO63;
      assert ToI64(u) == u - TWO64;
      assert (u - TWO64) % TWO32 == u % TWO32;
    } else {
      assert ToI64(u) == u;
    }
  }

  predicate AllDigits(t: bytes) {
    forall k :: 0 <= k < |t| ==> IsDigit(t[k])
  }

  /** The number a digit string denotes. */
  function Value(t: bytes): nat
    requires AllDigits(t)
  {
    if t == [] then 0 else Value(t[..|t| - 1]) * 10 + (t[|t| - 1] - ZERO)
  }

  /** The canonical decimal text of a natural number. */
  function Digits(n: nat): (t: bytes)
    ensures |t| > 0 && AllDigits(t)
    ensures t[0] == ZERO ==> n == 0 && t == [ZERO]
  {
    if n < 10 then [ZERO + n] else Digits(n / 10) + [ZERO + n % 10]
  }

  /** std::to_string. */
  function ToString(n: int): bytes {
    if n < 0 then [MINUS] + Digits(-n) else Digits(n)
  }

  lemma {:induction false} ValueOfDigits(n: nat)
    ensures Value(Digits(n)) == n
  {
    if n >= 10 {
      ValueOfDigits(n / 10);
      var t := Digits(n);
      assert t[..|t| - 1] == Digits(n / 10);
    }
  }

  // The text std::stoll and std::stoull look at: leading white space, an optional sign, then digits.

  predicate IsSpace(b: Byte) {
    b == 0x20 || 0x09 <= b <= 0x0D
  }

  function SpaceEnd(t: bytes, i: nat): (e: nat)
    requires i <= |t|
    ensures i <= e <= |t|
    decreases |t| - i
  {
    if i < |t| && IsSpace(t[i]) then SpaceEnd(t, i + 1) else i
  }

  function DigitsEnd(t: bytes, i: nat): (e: nat)
    requires i <= |t|
    ensures i <= e <= |t| && AllDigits(t[i..e])
    ensures e < |t| ==> !IsDigit(t[e])
    decreases |t| - i
  {
    if i < |t| && IsDigit(t[i]) then
      var e := DigitsEnd(t, i + 1);
      assert t[i..e] == [t[i]] + t[i + 1..e];
      e
    else i
  }

  datatype Scan = Scan(negative: bool, digits: bytes)

  function ScanInteger(t: bytes): (r: Scan)
    ensures AllDigits(r.digits)
  {
    var i := SpaceEnd(t, 0);
    var signed := i < |t| && (t[i] == MINUS || t[i] == PLUS);
    var start := if signed then i + 1 else i;
    Scan(signed && t[i] == MINUS, t[start..DigitsEnd(t, start)])
  }

  function Stoll(t: bytes): Result<I64> {
    var r := ScanInteger(t);
    if r.digits == [] then Failure(InvalidArgument)
    else
      var n: int := if r.negative then 0 - Value(r.digits) else Value(r.digits);
      if -TWO63 <= n < TWO63 then Success(n) else Failure(OutOfRange)
  }

  /** std::stoull: a minus sign negates modulo 2^64. */
  function Stoull(t: bytes): Result<U64> {
    var r := ScanInteger(t);
    if r.digits == [] then Failure(InvalidArgument)
    else if Value(r.digits) >= TWO64 then Failure(OutOfRange)
    else Success(if r.negative then ToU64(0 - Value(r.digits)) else Value(r.digits))
  }

  lemma {:induction false} DigitsEndIs(t: bytes, i: nat, e: nat)
    requires i <= e <= |t| && AllDigits(t[i..e])
    requires e < |t| ==> !IsDigit(t[e])
    ensures DigitsEnd(t, i) == e
    decreases |t| - i
  {
    if i < e {
      assert t[i] == t[i..e][0];
      assert t[i + 1..e] == t[i..e][1..];
      DigitsEndIs(t, i + 1, e);
    }
  }

  /** A sign, digits and nothing else scan as themselves. */
  lemma {:induction false} ScanPlain(negative: bool, digits: bytes)
    requires AllDigits(digits)
    ensures ScanInteger((if negative then [MINUS] else []) + digits) == Scan(negative, digits)
  {
    var t := (if negative then [MINUS] else []) + digits;
    var start := if negative then 1 else 0;
    assert t[start..] == digits;
    assert t[start..|t|] == digits;
    DigitsEndIs(t, start, |t|);
    if negative {
      assert t[0] == MINUS;
    } else {
      assert t == digits;
      assert digits != [] ==> IsDigit(digits[0]);
    }
    assert !negative ==> (t != [] ==> IsDigit(t[0]));
    assert !negative ==> (t != [] ==> !IsSpace(t[0]));
    assert negative ==> !IsSpace(t[0]);
    assert SpaceEnd(t, 0) == 0;
  }

  lemma {:induction false} StollOfString(n: I64)
    ensures Stoll(ToString(n)) == Success(n)
  {
    var m: nat := if n < 0 then 0 - n else n;
    ScanPlain(n < 0, Digits(m));
    assert [] + Digits(m) == Digits(m);
    ValueOfDigits(m);
  }

  lemma {:induction false} StoullOfString(n: U64)
    ensures Stoull(ToString(n)) == Success(n)
  {
    ScanPlain(false, Digits(n));
    assert [] + Digits(n) == Digits(n);
    ValueOfDigits(n);
  }

  /** Numbers with the same canonical text are equal. */
  lemma {:induction false} ToStringInjective(m: int, n: int)
    requires ToString(m) == ToString(n)
    ensures m == n
  {
    assert IsDigit(ToString(if m < 0 then -m else m)[0]);
    assert IsDigit(ToString(if n < 0 then -n else n)[0]);
    if m < 0 && n < 0 {
      assert ToString(m)[1..] == Digits(-m) && ToString(n)[1..] == Digits(-n);
    }
    ValueOfDigits(if m < 0 then -m else m);
    ValueOfDigits(if n < 0 then -n else n);
  }

  // What std::stoll and std::stoull make of any text.

  lemma {:induction false} SpaceEndIs(t: bytes, i: nat, e: nat)
    requires i <= e <= |t| && forall k :: i <= k < e ==> t[k] == 0x20 || 0x09 <= t[k] <= 0x0D
    requires e < |t| ==> t[e] != 0x20 && !(0x09 <= t[e] <= 0x0D)
    ensures SpaceEnd(t, i) == e
    decreases |t| - i
  {
    if i < e {
      SpaceEndIs(t, i + 1, e);
    }
  }

  /** White space, an optional sign and digits, with anything behind them that is no digit. */
  predicate Scanned(t: bytes, space: bytes, sign: bytes, digits: bytes, rest: bytes) {
    && t == space + sign + digits + rest
    && (forall k :: 0 <= k < |space| ==> space[k] == 0x20 || 0x09 <= space[k] <= 0x0D)
    && (sign == [] || sign == [0x2D] || sign == [0x2B])
    && AllDigits(digits) && (rest != [] ==> !(0x30 <= rest[0] <= 0x39))
    && (sign == [] && digits == [] && rest != [] ==>
          rest[0] != 0x2D && rest[0] != 0x2B && rest[0] != 0x20 && !(0x09 <= rest[0] <= 0x0D))
  }

  lemma {:induction false} ScanIs(t: bytes, space: bytes, sign: bytes, digits: bytes, rest: bytes)
    requires Scanned(t, space, sign, digits, rest)
    ensures ScanInteger(t) == Scan(sign == [0x2D], digits)
  {
    var i := |space|;
    var start := i + |sign|;
    var end := start + |digits|;
    assert t[start..end] == digits;
    assert forall k :: 0 <= k < i ==> t[k] == space[k];
    assert sign != [] ==> t[i] == sign[0];
    assert sign == [] && digits != [] ==> t[i] == digits[0] && IsDigit(digits[0]);
    assert end < |t| ==> t[end] == rest[0];
    SpaceEndIs(t, 0, i);
    DigitsEndIs(t, start, end);
  }

  /** The value in decimal, or the exception: no digits, or a value out of the type's range. */
  lemma {:induction false} IntegersRead(t: bytes, space: bytes, sign: bytes, digits: bytes, rest: bytes)
    requires Scanned(t, space, sign, digits, rest)
    ensures var n: int := if sign == [0x2D] then 0 - Value(digits) else Value(digits);
            && Stoll(t) == (if digits == [] then Failure(InvalidArgument)
                            else if -0x8000_0000_0000_0000 <= n < 0x8000_0000_0000_0000 then Success(n)
                            else Failure(OutOfRange))
            && Stoull(t) == (if digits == [] then Failure(InvalidArgument)
                             else if Value(digits) >= 0x1_0000_0000_0000_0000 then Failure(OutOfRange)
                             else Success(n % 0x1_0000_0000_0000_0000))
  {
    hide Scanned, Value;
    ScanIs(t, space, sign, digits, rest);
  }
}
