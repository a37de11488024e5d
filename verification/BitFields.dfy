/**
 The shifts and ors of include/loro.hpp, on bit-vectors: what they compute are the sums that the readers are
 modelled with.
 */
module BitFields {
  import opened Reader

  lemma {:induction false} Split(x: bv16)
    ensures x == (x >> 6) * 0x40 + (x & 0x3F) && (x & 0x3F) < 0x40 && (x >> 6) < 0x400
  {
  }

  lemma {:induction false} Sum(high: bv16, low: bv16)
    requires high < 0x400 && low < 0x40
    ensures (high * 0x40 + low) as int == high as int * 0x40 + low as int
  {
  }

  /** The low six bits and the rest. */
  lemma {:induction false} SixBits(x: bv16)
    ensures (x >> 6) as int == (x as int) / 0x40
    ensures (x & 0x3F) as int == (x as int) % 0x40
  {
    var high, low := x >> 6, x & 0x3F;
    Split(x);
    Sum(high, low);
    LowPart(low);
    Divided(x as int, high as int, low as int);
  }

  lemma {:induction false} LowPart(low: bv16)
    requires low < 0x40
    ensures low as int < 0x40
  {
  }

  lemma {:induction false} Divided(x: int, high: int, low: int)
    requires x == high * 0x40 + low && 0 <= low < 0x40
    ensures high == x / 0x40 && low == x % 0x40
  {
  }

  /** A leading byte's tag and a payload that fits under it. */
  lemma {:induction false} Tagged(tag: bv16, x: bv16)
    requires (tag == 0x80 && x < 0x40) || (tag == 0xC0 && x < 0x20) || (tag == 0xE0 && x < 0x10)
    ensures (tag | x) as int == tag as int + x as int
  {
    assert tag | x == tag + x;
  }

  /** The two bytes that the \u branch emits below 0x800, as it writes them. */
  lemma {:induction false} TwoBytes(cp: bv16)
    requires cp < 0x800
    ensures (0xC0 | (cp >> 6)) as int == 0xC0 + (cp as int) / 0x40
    ensures (0x80 | (cp & 0x3F)) as int == 0x80 + (cp as int) % 0x40
  {
    SixBits(cp);
    assert cp >> 6 < 0x20;
    Tagged(0xC0, cp >> 6);
    assert cp & 0x3F < 0x40;
    Tagged(0x80, cp & 0x3F);
  }

  /** The first two of three bytes; the last is the one above. */
  lemma {:induction false} ThreeBytes(cp: bv16)
    ensures (0xE0 | (cp >> 12)) as int == 0xE0 + (cp as int) / 0x40 / 0x40
    ensures (0x80 | ((cp >> 6) & 0x3F)) as int == 0x80 + (cp as int) / 0x40 % 0x40
    ensures (0x80 | (cp & 0x3F)) as int == 0x80 + (cp as int) % 0x40
  {
    SixBits(cp);
    SixBits(cp >> 6);
    Fields(cp);
    Tagged(0xE0, cp >> 12);
    Tagged(0x80, (cp >> 6) & 0x3F);
    Tagged(0x80, cp & 0x3F);
  }

  lemma {:induction false} Fields(cp: bv16)
    ensures (cp >> 6) >> 6 == cp >> 12 < 0x10 && cp & 0x3F < 0x40 && (cp >> 6) & 0x3F < 0x40
  {
  }

  lemma {:induction false} Bounds(cp: bv16)
    ensures (cp < 0x80 <==> cp as int < 0x80) && (cp < 0x800 <==> cp as int < 0x800)
  {
  }

  lemma {:induction false} EmitTwo(n: nat, lead: int, last: int)
    requires 0x80 <= n < 0x800 && lead == 0xC0 + n / 0x40 && last == 0x80 + n % 0x40
    ensures EmitBmp(n) == [lead, last]
  {
  }

  lemma {:induction false} EmitThree(n: nat, lead: int, mid: int, last: int)
    requires 0x800 <= n < 0x1_0000
    requires lead == 0xE0 + n / 0x40 / 0x40 && mid == 0x80 + n / 0x40 % 0x40 && last == 0x80 + n % 0x40
    ensures EmitBmp(n) == [lead, mid, last]
  {
    assert n / 0x40 / 0x40 == n / 0x1000;
  }

  /** The \u branch emits the bytes that its shifts, masks and ors make: two below 0x800, three above. */
  lemma {:induction false} EmitsTwo(cp: bv16)
    requires 0x80 <= cp as int < 0x800
    ensures EmitBmp(cp as int) == [(0xC0 | (cp >> 6)) as int, (0x80 | (cp & 0x3F)) as int]
  {
    hide EmitBmp;
    Bounds(cp);
    var lead, last := (0xC0 | (cp >> 6)) as int, (0x80 | (cp & 0x3F)) as int;
    TwoBytes(cp);
    EmitTwo(cp as int, lead, last);
  }

  lemma {:induction false} EmitsThree(cp: bv16)
    requires 0x800 <= cp as int
    ensures EmitBmp(cp as int) ==
            [(0xE0 | (cp >> 12)) as int, (0x80 | ((cp >> 6) & 0x3F)) as int, (0x80 | (cp & 0x3F)) as int]
  {
    hide EmitBmp;
    var lead, mid, last :=
      (0xE0 | (cp >> 12)) as int, (0x80 | ((cp >> 6) & 0x3F)) as int, (0x80 | (cp & 0x3F)) as int;
    ThreeBytes(cp);
    EmitThree(cp as int, lead, mid, last);
  }

  /** One hexadecimal digit more. */
  lemma {:induction false} NibbleBits(cp: bv16, digit: bv16)
    requires cp < 0x1000 && digit < 0x10
    ensures ((cp << 4) | digit) as int == cp as int * 16 + digit as int
  {
    ShiftedIn(cp, digit);
    NibbleSum(cp, digit);
  }

  lemma {:induction false} ShiftedIn(cp: bv16, digit: bv16)
    requires cp < 0x1000 && digit < 0x10
    ensures (cp << 4) | digit == cp * 16 + digit
  {
  }

  lemma {:induction false} NibbleSum(cp: bv16, digit: bv16)
    requires cp < 0x1000 && digit < 0x10
    ensures (cp * 16 + digit) as int == cp as int * 16 + digit as int
  {
  }

  /** One byte more of a little-endian word. */
  lemma {:induction false} LowBytes(v: bv64, b: bv64)
    requires b < 0x100
    ensures v < 0x100 ==> v | (b << 8) == v + b * 0x100
    ensures v < 0x1_0000 ==> v | (b << 16) == v + b * 0x1_0000
    ensures v < 0x100_0000 ==> v | (b << 24) == v + b * 0x100_0000
  {
  }

  lemma {:induction false} HighBytes(v: bv64, b: bv64)
    requires b < 0x100
    ensures v < 0x1_0000_0000 ==> v | (b << 32) == v + b * 0x1_0000_0000
    ensures v < 0x100_0000_0000 ==> v | (b << 40) == v + b * 0x100_0000_0000
    ensures v < 0x1_0000_0000_0000 ==> v | (b << 48) == v + b * 0x1_0000_0000_0000
    ensures v < 0x100_0000_0000_0000 ==> v | (b << 56) == v + b * 0x100_0000_0000_0000
  {
  }
}
