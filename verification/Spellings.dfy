/**
 What the texts are, byte by byte. The parser, the printer and the grammar share their definitions of
 characters; here each of these is stated by value, for the sections 2 to 7 of RFC 8259.
 */
module Spellings {
  import opened Bytes
  import opened Decimal
  import opened Outcome
  import opened Json
  import opened Grammar
  import opened Reader
  import opened Completeness
  import opened Rfc8259
  import opened Surrogates
  import opened NonFinite
  import opened Printer
  import Utf8

  // White space and digits.

  lemma {:induction false} SpaceSpelled(b: Byte)
    ensures Grammar.IsSpace(b) <==> b == 0x20 || b == 0x09 || b == 0x0A || b == 0x0D
  {
  }

  /** Decimal digits, at every place of a number. */
  lemma {:induction false} DigitsSpelled(t: bytes, b: Byte)
    requires AllDigits(t)
    ensures Value([]) == 0
    ensures IsDigit(b) <==> 0x30 <= b <= 0x39
    ensures IsDigit(b) ==> AllDigits(t + [b]) && Value(t + [b]) == 10 * Value(t) + (b - 0x30)
  {
    if IsDigit(b) {
      assert (t + [b])[..|t|] == t;
    }
  }

  lemma {:induction false} DecimalSpelled(n: nat)
    ensures ToString(0 - n - 1) == [0x2D] + ToString(n + 1)
    ensures n < 10 ==> ToString(n) == [0x30 + n]
    ensures n >= 10 ==> ToString(n) == ToString(n / 10) + [0x30 + n % 10]
  {
  }

  lemma {:induction false} HexDigitsSpelled(b: Byte)
    ensures IsHex(b) <==> 0x30 <= b <= 0x39 || 0x41 <= b <= 0x46 || 0x61 <= b <= 0x66
    ensures 0x30 <= b <= 0x39 ==> HexDigit(b) == b - 0x30
    ensures 0x41 <= b <= 0x46 ==> HexDigit(b) == b - 0x41 + 10
    ensures 0x61 <= b <= 0x66 ==> HexDigit(b) == b - 0x61 + 10
  {
  }

  // Characters of a string.

  /** The eight escapes of section 7, as pairs of the letter and the byte it stands for. */
  predicate Pairs(e: int, b: int) {
    || (e == 0x22 && b == 0x22) || (e == 0x5C && b == 0x5C) || (e == 0x2F && b == 0x2F)
    || (e == 0x62 && b == 0x08) || (e == 0x66 && b == 0x0C) || (e == 0x6E && b == 0x0A)
    || (e == 0x72 && b == 0x0D) || (e == 0x74 && b == 0x09)
  }

  /** A backslash and a letter give the byte of section 7; any other letter but u is refused. */
  lemma {:induction false} EscapesSpelled(s: bytes, i: nat, e: Byte)
    requires At(s, i, [0x5C, e])
    ensures i < |s|
    ensures forall b: Byte :: Pairs(e, b) ==> CharAt(s, i) == Ok([b], i + 2)
    ensures e != 0x75 && (forall b: Byte :: !Pairs(e, b)) ==> CharAt(s, i) == Err(UnknownEscape)
  {
    AtSecond(s, i, [0x5C, e]);
    AtFirst(s, i, [0x5C, e]);
    assert e == 0x22 ==> Pairs(e, 0x22);
    assert e == 0x5C ==> Pairs(e, 0x5C);
    assert e == 0x2F ==> Pairs(e, 0x2F);
    assert e == 0x62 ==> Pairs(e, 0x08);
    assert e == 0x66 ==> Pairs(e, 0x0C);
    assert e == 0x6E ==> Pairs(e, 0x0A);
    assert e == 0x72 ==> Pairs(e, 0x0D);
    assert e == 0x74 ==> Pairs(e, 0x09);
  }

  /** The value of a hexadecimal digit of either case. */
  predicate HexIs(b: int, d: int) {
    || (0x30 <= b <= 0x39 && d == b - 0x30)
    || (0x41 <= b <= 0x46 && d == b - 0x41 + 10)
    || (0x61 <= b <= 0x66 && d == b - 0x61 + 10)
  }

  predicate HexByte(b: int) {
    0x30 <= b <= 0x39 || 0x41 <= b <= 0x46 || 0x61 <= b <= 0x66
  }

  /** The octets of section 3 of RFC 3629 for a code point below 2^16. */
  function Octets(cp: nat): seq<int>
    requires cp < 0x1_0000
  {
    if cp < 0x80 then [cp]
    else if cp < 0x800 then [0xC0 + cp / 0x40, 0x80 + cp % 0x40]
    else [0xE0 + cp / 0x1000, 0x80 + cp / 0x40 % 0x40, 0x80 + cp % 0x40]
  }

  lemma {:induction false} HexSpelled(h: bytes, d: seq<nat>)
    requires |h| == 4 && |d| == 4 && forall k :: 0 <= k < 4 ==> HexIs(h[k], d[k])
    ensures AllHex(h) && HexValue(h) == d[0] * 0x1000 + d[1] * 0x100 + d[2] * 0x10 + d[3] < 0x1_0000
  {
    forall k | 0 <= k < 4
      ensures IsHex(h[k]) && HexDigit(h[k]) == d[k] < 16
    {
      assert HexIs(h[k], d[k]);
    }
    hide IsHex, HexDigit, HexIs;
    HexValueOf4(h);
  }

  /** A backslash, a u and four digits give the octets of the code point with these digits. */
  lemma {:induction false} UnicodeSpelled(s: bytes, i: nat, h: bytes, d: seq<nat>)
    requires |h| == 4 && |d| == 4 && forall k :: 0 <= k < 4 ==> HexIs(h[k], d[k])
    requires At(s, i, [0x5C, 0x75] + h)
    ensures var cp := d[0] * 0x1000 + d[1] * 0x100 + d[2] * 0x10 + d[3];
            i < |s| && cp < 0x1_0000 && CharAt(s, i) == Ok(Octets(cp), i + 6)
  {
    HexSpelled(h, d);
    hide HexIs, HexValue, IsHex, CharAt, At;
    CharComplete(s, i, Unicode(h));
    EmitIsEncode(HexValue(h));
  }

  /** Every other byte but the quote stands for itself, and the quote ends the string. */
  lemma {:induction false} RawSpelled(s: bytes, i: nat)
    requires i < |s|
    ensures s[i] != 0x5C && s[i] != 0x22 ==> CharAt(s, i) == Ok([s[i]], i + 1)
    ensures s[i] == 0x22 ==> CharsAt(s, i) == Ok([], i + 1)
  {
  }

  /** Which characters section 7 allows. */
  lemma {:induction false} CharactersSpelled(it: Item)
    ensures it.Raw? ==> (ItemIsRfc(it) <==> it.b >= 0x20 && it.b != 0x22 && it.b != 0x5C)
    ensures it.Escape? ==> (ItemIsRfc(it) <==> exists b: Byte :: Pairs(it.e, b))
    ensures it.Unicode? ==>
              (ItemIsRfc(it) <==> |it.hex| == 4 && forall k :: 0 <= k < 4 ==> HexByte(it.hex[k]))
    ensures ItemText(it) == match it
                            case Raw(b) => [b]
                            case Escape(e) => [0x5C, e]
                            case Unicode(hex) => [0x5C, 0x75] + hex
  {
    match it
    case Raw(_) =>
    case Escape(e) =>
      assert e == 0x22 ==> Pairs(e, 0x22);
      assert e == 0x5C ==> Pairs(e, 0x5C);
      assert e == 0x2F ==> Pairs(e, 0x2F);
      assert e == 0x62 ==> Pairs(e, 0x08);
      assert e == 0x66 ==> Pairs(e, 0x0C);
      assert e == 0x6E ==> Pairs(e, 0x0A);
      assert e == 0x72 ==> Pairs(e, 0x0D);
      assert e == 0x74 ==> Pairs(e, 0x09);
    case Unicode(_) =>
  }

  /** Every scalar value beyond 2^16 is what its two surrogates denote. */
  lemma {:induction false} PairsSpelled(cp: nat)
    requires 0x1_0000 <= cp <= 0x10_FFFF
    ensures var high, low := 0xD800 + (cp - 0x1_0000) / 0x400, 0xDC00 + (cp - 0x1_0000) % 0x400;
            IsHigh(high) && IsLow(low) && PairValue(high, low) == cp
  {
  }

  lemma {:induction false} SurrogatesSpelled(cp: int)
    ensures IsHigh(cp) <==> 0xD800 <= cp <= 0xDBFF
    ensures IsLow(cp) <==> 0xDC00 <= cp <= 0xDFFF
  {
  }

  // Values.

  /** Where the commas, colons and brackets of a tree stand. */
  lemma {:induction false} TextSpelled(t: Tree)
    ensures t == TNull ==> Text(t) == [0x6E, 0x75, 0x6C, 0x6C]
    ensures t == TBool(true) ==> Text(t) == [0x74, 0x72, 0x75, 0x65]
    ensures t == TBool(false) ==> Text(t) == [0x66, 0x61, 0x6C, 0x73, 0x65]
    ensures t.TNumber? ==> Text(t) == t.lex
    ensures t.TString? ==> Text(t) == [0x22] + (ItemsText(t.items) + [0x22])
    ensures t.TArray? ==> Text(t) == [0x5B] + if t.elems == [] then t.pad + [0x5D] else ElemsText(t.elems)
    ensures t.TObject? ==> Text(t) == [0x7B] + if t.entries == [] then t.pad + [0x7D] else EntriesText(t.entries)
  {
  }

  lemma {:induction false} ElementsSpelled(e: Elem, rest: seq<Elem>)
    ensures ElemsText([e] + rest) ==
            e.before + (Text(e.value) + (e.after + if rest == [] then [0x5D] else [0x2C] + ElemsText(rest)))
  {
    assert ([e] + rest)[1..] == rest;
  }

  lemma {:induction false} MembersSpelled(e: Entry, rest: seq<Entry>)
    ensures EntriesText([e] + rest) ==
            e.before + ([0x22] + (ItemsText(e.key) + [0x22]) + (e.gap + ([0x3A] + (e.lead + (Text(e.value) + (e.after +
              if rest == [] then [0x7D] else [0x2C] + EntriesText(rest)))))))
  {
    assert ([e] + rest)[1..] == rest;
  }

  /** The numbers of section 6. */
  lemma {:induction false} NumbersSpelled(n: Number)
    ensures NumberFits(n) <==>
            && n.whole != [] && Decimals(n.whole) && (n.whole[0] == 0x30 ==> n.whole == [0x30])
            && (n.frac.Some? ==> n.frac.value != [] && Decimals(n.frac.value))
            && (n.exp.Some? ==>
                  && n.exp.value.e in {0x65, 0x45}
                  && (n.exp.value.sign.Some? ==> n.exp.value.sign.value in {0x2B, 0x2D})
                  && n.exp.value.digits != [] && Decimals(n.exp.value.digits))
    ensures NumberText(n) ==
            (if n.minus then [0x2D] else []) +
            (n.whole +
             ((if n.frac.Some? then [0x2E] + n.frac.value else []) +
              (if n.exp.Some? then
                 [n.exp.value.e] +
                 ((if n.exp.value.sign.Some? then [n.exp.value.sign.value] else []) + n.exp.value.digits)
               else [])))
  {
  }

  predicate Decimals(t: seq<int>) {
    forall k :: 0 <= k < |t| ==> 0x30 <= t[k] <= 0x39
  }

  predicate Blank(t: seq<int>) {
    forall k :: 0 <= k < |t| ==> t[k] == 0x20 || t[k] == 0x09 || t[k] == 0x0A || t[k] == 0x0D
  }

  /** Which trees are texts of the RFC: any white space between the tokens, any numbers and strings, any nesting. */
  lemma {:induction false} GrammarSpelled(t: Tree)
    ensures t.TNull? || t.TBool? ==> IsRfc(t)
    ensures t.TNumber? ==> (IsRfc(t) <==> exists n: Number :: NumberFits(n) && t.lex == NumberText(n))
    ensures t.TString? ==> (IsRfc(t) <==> forall k :: 0 <= k < |t.items| ==> ItemIsRfc(t.items[k]))
    ensures t.TArray? ==> (IsRfc(t) <==> Blank(t.pad) && forall k :: 0 <= k < |t.elems| ==> ElemIsRfc(t.elems[k]))
    ensures t.TObject? ==>
              (IsRfc(t) <==> Blank(t.pad) && forall k :: 0 <= k < |t.entries| ==> EntryIsRfc(t.entries[k]))
  {
    hide NumberFits, NumberText, ItemIsRfc, ElemIsRfc, EntryIsRfc;
  }

  lemma {:induction false} PartsSpelled(e: Elem, m: Entry)
    ensures ElemIsRfc(e) <==> Blank(e.before) && IsRfc(e.value) && Blank(e.after)
    ensures EntryIsRfc(m) <==>
            && Blank(m.before) && (forall k :: 0 <= k < |m.key| ==> ItemIsRfc(m.key[k]))
            && Blank(m.gap) && Blank(m.lead) && IsRfc(m.value) && Blank(m.after)
  {
    hide IsRfc, ItemIsRfc;
  }

  /** The bytes of a number, and which of them make it a double. */
  lemma {:induction false} LexemesSpelled(stod: Stod, b: Byte, lex: bytes)
    requires lex != []
    ensures IsNumberByte(b) <==> 0x30 <= b <= 0x39 || b == 0x2E || b == 0x65 || b == 0x45 || b == 0x2B || b == 0x2D
    ensures var whole := forall k :: 0 <= k < |lex| ==> 0x30 <= lex[k] <= 0x39 || (k == 0 && lex[k] == 0x2D);
            if whole then ReadNumber(stod, lex).Success? ==> ReadNumber(stod, lex).value.Int?
            else ReadNumber(stod, lex) == match stod(lex)
                                          case Success(d) => Success(JsonValue.Double(d))
                                          case Failure(e) => Failure(e)
  {
    hide ReadInteger;
    var t := Magnitude(lex);
    var from := if lex[0] == MINUS then 1 else 0;
    assert t == lex[from..];
    assert forall k :: from <= k < |lex| ==> lex[k] == t[k - from];
  }

  /** Four octets hold the rest. */
  lemma {:induction false} FourOctets(cp: nat)
    requires 0x1_0000 <= cp <= 0x10_FFFF
    ensures Utf8.Encode(cp) ==
            [0xF0 + cp / 0x4_0000, 0x80 + cp / 0x1000 % 0x40, 0x80 + cp / 0x40 % 0x40, 0x80 + cp % 0x40]
  {
    assert cp / 0x40 / 0x40 == cp / 0x1000;
    assert cp / 0x1000 / 0x40 == cp / 0x4_0000;
  }

  // What is thrown, and where.

  /** The byte at i, or none at the end. */
  predicate Stands(s: bytes, i: nat, b: int) {
    i < |s| && s[i] == b
  }

  lemma {:induction false} StringErrors(s: bytes, i: nat)
    requires i <= |s|
    ensures !Stands(s, i, 0x22) ==> StringAt(s, i) == Err(ExpectedQuote)
    ensures i == |s| ==> CharsAt(s, i) == Err(UnterminatedString)
    ensures Stands(s, i, 0x5C) && i + 1 == |s| ==> CharAt(s, i) == Err(TruncatedEscape)
    ensures Stands(s, i, 0x5C) && Stands(s, i + 1, 0x75) && i + 6 > |s| ==> CharAt(s, i) == Err(TruncatedUnicodeEscape)
    ensures Stands(s, i, 0x5C) && Stands(s, i + 1, 0x75) && i + 6 <= |s| ==>
              var hex := s[i + 2..i + 6];
              (exists k :: 0 <= k < 4 && !HexByte(hex[k])) ==> CharAt(s, i) == Err(BadHexDigit)
  {
    if i + 6 <= |s| {
      var hex := s[i + 2..i + 6];
      assert forall k :: 0 <= k < 4 && !HexByte(hex[k]) ==> !IsHex(hex[k]);
    }
  }

  lemma {:induction false} MemberErrors(stod: Stod, s: bytes, i: nat)
    requires i <= |s|
    ensures var k := SkipSpace(s, i);
            && (!Stands(s, k, 0x22) ==> MemberAt(stod, s, i) == Err(ExpectedKey))
            && (Stands(s, k, 0x22) && StringAt(s, k).Err? ==> MemberAt(stod, s, i) == Err(StringAt(s, k).error))
            && (Stands(s, k, 0x22) && StringAt(s, k).Ok? && !Stands(s, SkipSpace(s, StringAt(s, k).end), 0x3A) ==>
                  MemberAt(stod, s, i) == Err(ExpectedColon))
  {
    hide StringAt, SkipSpace, ValueAt;
  }

  /** Behind a member or an element only a comma or the closing bracket is taken. */
  lemma {:induction false} SeparatorErrors(stod: Stod, s: bytes, i: nat)
    requires i <= |s|
    ensures MemberAt(stod, s, i).Ok? ==>
              var sep := SkipSpace(s, MemberAt(stod, s, i).end);
              !Stands(s, sep, 0x2C) && !Stands(s, sep, 0x7D) ==> MembersAt(stod, s, i) == Err(ExpectedCommaOrBrace)
    ensures ValueAt(stod, s, i).Ok? ==>
              var sep := SkipSpace(s, ValueAt(stod, s, i).end);
              !Stands(s, sep, 0x2C) && !Stands(s, sep, 0x5D) ==> ElementsAt(stod, s, i) == Err(ExpectedCommaOrBracket)
  {
    hide MemberAt, ValueAt, SkipSpace;
  }

  /** What no known byte starts is a number or none. */
  lemma {:induction false} ScalarErrors(stod: Stod, s: bytes, i: nat)
    requires i <= |s| && SkipSpace(s, i) == i
    ensures (Stands(s, i, 0x74) || Stands(s, i, 0x66)) &&
            !At(s, i, [0x74, 0x72, 0x75, 0x65]) && !At(s, i, [0x66, 0x61, 0x6C, 0x73, 0x65]) ==>
              ValueAt(stod, s, i) == Err(BadLiteral)
    ensures Stands(s, i, 0x6E) && !At(s, i, [0x6E, 0x75, 0x6C, 0x6C]) ==> ValueAt(stod, s, i) == Err(BadLiteral)
    ensures (i < |s| ==> s[i] !in {0x22, 0x5B, 0x66, 0x6E, 0x74, 0x7B} && !IsNumberByte(s[i])) ==>
              ValueAt(stod, s, i) == Err(BadNumber)
  {
    hide ArrayAt, ObjectAt, StringAt, ReadNumber;
  }

  // The printer.

  /** Which escape json_escape writes for each byte. */
  lemma {:induction false} PrintedSpelled(c: Byte)
    ensures ItemText(PrintItem(c)) ==
            if c == 0x22 then [0x5C, 0x22]
            else if c == 0x5C then [0x5C, 0x5C]
            else if c == 0x0A then [0x5C, 0x6E]
            else if c == 0x0D then [0x5C, 0x72]
            else if c == 0x09 then [0x5C, 0x74]
            else if c < 0x10 then [0x5C, 0x75, 0x30, 0x30, 0x30, if c < 10 then 0x30 + c else 0x57 + c]
            else if c < 0x20 then [0x5C, 0x75, 0x30, 0x30, 0x31, if c < 26 then 0x20 + c else 0x47 + c]
            else [c]
  {
  }

  lemma {:induction false} NonFiniteSpelled(lex: bytes)
    ensures IsNonFinite(lex) <==>
            || lex == [0x69, 0x6E, 0x66] || lex == [0x6E, 0x61, 0x6E]
            || lex == [0x2D, 0x69, 0x6E, 0x66] || lex == [0x2D, 0x6E, 0x61, 0x6E]
  {
  }
}
