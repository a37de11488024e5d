/**
 The JSON grammar of RFC 8259 (sections 2 to 7) inside the trees the parser knows, and what the
 parser promises about it.
 */
module Rfc8259 {
  import opened Bytes
  import opened Decimal
  import opened Outcome
  import opened Json
  import opened Grammar
  import opened Reader
  import opened Completeness
  import opened Soundness
  import opened Surrogates
  import Utf8

  // Numbers, section 6.

  datatype Exponent = Exponent(e: Byte, sign: Option<Byte>, digits: bytes)
  datatype Number = Number(minus: bool, whole: bytes, frac: Option<bytes>, exp: Option<Exponent>)

  predicate NumberFits(n: Number) {
    && n.whole != [] && AllDigits(n.whole) && (n.whole[0] == ZERO ==> |n.whole| == 1)
    && (n.frac.Some? ==> n.frac.value != [] && AllDigits(n.frac.value))
    && (n.exp.Some? ==>
          && (n.exp.value.e == 0x65 || n.exp.value.e == 0x45)
          && (n.exp.value.sign.Some? ==> n.exp.value.sign.value == PLUS || n.exp.value.sign.value == MINUS)
          && n.exp.value.digits != [] && AllDigits(n.exp.value.digits))
  }

  function FractionText(n: Number): bytes {
    (if n.frac.Some? then [DOT] + n.frac.value else []) +
    (if n.exp.Some? then
       [n.exp.value.e] + ((if n.exp.value.sign.Some? then [n.exp.value.sign.value] else []) + n.exp.value.digits)
     else [])
  }

  function NumberText(n: Number): bytes {
    (if n.minus then [MINUS] else []) + (n.whole + FractionText(n))
  }

  ghost predicate IsNumber(lex: bytes) {
    exists n: Number :: NumberFits(n) && lex == NumberText(n)
  }

  lemma {:induction false} FractionBytes(n: Number)
    requires NumberFits(n)
    ensures forall k :: 0 <= k < |FractionText(n)| ==> IsNumberByte(FractionText(n)[k])
    ensures FractionText(n) == [] <==> n.frac.None? && n.exp.None?
    ensures FractionText(n) != [] ==> !IsDigit(FractionText(n)[0])
  {
  }

  /** A number of the grammar is a lexeme; it is an integer when it has neither fraction nor exponent. */
  lemma {:induction false} NumberLexeme(n: Number)
    requires NumberFits(n)
    ensures var lex := NumberText(n);
            && lex != [] && (forall k :: 0 <= k < |lex| ==> IsNumberByte(lex[k]))
            && (IsDouble(lex) <==> n.frac.Some? || n.exp.Some?)
            && (!IsDouble(lex) ==> Magnitude(lex) == n.whole)
  {
    var lex, f := NumberText(n), FractionText(n);
    FractionBytes(n);
    assert Magnitude(lex) == n.whole + f by {
      if n.minus {
        assert lex[1..] == n.whole + f;
      } else {
        assert lex == n.whole + f && IsDigit(n.whole[0]);
      }
    }
    if f != [] {
      assert (n.whole + f)[|n.whole|] == f[0];
    } else {
      assert n.whole + f == n.whole;
    }
    hide FractionText, NumberFits;
  }

  // Strings and values.

  /** An unescaped character is no control character; every escape is one of section 7. */
  predicate ItemIsRfc(it: Item) {
    ItemFits(it) && (it.Raw? ==> it.b >= 0x20)
  }

  ghost predicate IsRfc(t: Tree)
    ensures IsRfc(t) ==> Fits(t)
    decreases t
  {
    match t
    case TNull => true
    case TBool(_) => true
    case TNumber(lex) =>
      assert forall n: Number | NumberFits(n) && lex == NumberText(n) :: Fits(t) by {
        forall n: Number | NumberFits(n) && lex == NumberText(n)
          ensures Fits(t)
        {
          NumberLexeme(n);
        }
      }
      IsNumber(lex)
    case TString(items) => forall k :: 0 <= k < |items| ==> ItemIsRfc(items[k])
    case TArray(pad, elems) => AllSpace(pad) && forall k :: 0 <= k < |elems| ==> ElemIsRfc(elems[k])
    case TObject(pad, entries) => AllSpace(pad) && forall k :: 0 <= k < |entries| ==> EntryIsRfc(entries[k])
  }

  ghost predicate ElemIsRfc(e: Elem)
    ensures ElemIsRfc(e) ==> ElemFits(e)
    decreases e
  {
    AllSpace(e.before) && IsRfc(e.value) && AllSpace(e.after)
  }

  ghost predicate EntryIsRfc(e: Entry)
    ensures EntryIsRfc(e) ==> EntryFits(e)
    decreases e
  {
    && AllSpace(e.before) && (forall k :: 0 <= k < |e.key| ==> ItemIsRfc(e.key[k]))
    && AllSpace(e.gap) && AllSpace(e.lead) && IsRfc(e.value) && AllSpace(e.after)
  }

  /** Every integer lies in [-2^63, 2^64) and std::stod takes every number with fraction or exponent. */
  predicate Readable(stod: Stod, t: Tree)
    decreases t
  {
    match t
    case TNumber(lex) => NumberReadable(stod, lex)
    case TArray(_, elems) => forall k :: 0 <= k < |elems| ==> ElemReadable(stod, elems[k])
    case TObject(_, entries) => forall k :: 0 <= k < |entries| ==> EntryReadable(stod, entries[k])
    case _ => true
  }

  predicate NumberReadable(stod: Stod, lex: bytes) {
    if IsDouble(lex) then stod(lex).Success?
    else Magnitude(lex) != [] && -TWO63 <= IntegerOf(lex) < TWO64
  }

  predicate ElemReadable(stod: Stod, e: Elem)
    decreases e
  {
    Readable(stod, e.value)
  }

  predicate EntryReadable(stod: Stod, e: Entry)
    decreases e
  {
    Readable(stod, e.value)
  }

  /** A tree denotes a document exactly when its numbers can be read. */
  lemma {:induction false} DenotesIffReadable(stod: Stod, t: Tree)
    requires Fits(t)
    ensures Denote(stod, t).Success? <==> Readable(stod, t)
    decreases t
  {
    match t
    case TNumber(lex) =>
      if !IsDouble(lex) {
        IntegerRead(lex);
      }
    case TArray(_, elems) => ElemsIffReadable(stod, elems);
    case TObject(_, entries) => EntriesIffReadable(stod, entries);
    case _ =>
  }

  lemma {:induction false} ElemsIffReadable(stod: Stod, elems: seq<Elem>)
    requires forall k :: 0 <= k < |elems| ==> ElemFits(elems[k])
    ensures DenoteElems(stod, elems).Success? <==> forall k :: 0 <= k < |elems| ==> ElemReadable(stod, elems[k])
    decreases elems
  {
    if elems != [] {
      assert ElemFits(elems[0]) && elems[0].value < elems[0];
      DenotesIffReadable(stod, elems[0].value);
      ElemsIffReadable(stod, elems[1..]);
      assert forall k :: 1 <= k < |elems| ==> elems[k] == elems[1..][k - 1];
      assert ElemReadable(stod, elems[0]) <==> Denote(stod, elems[0].value).Success?;
    }
  }

  lemma {:induction false} EntriesIffReadable(stod: Stod, entries: seq<Entry>)
    requires forall k :: 0 <= k < |entries| ==> EntryFits(entries[k])
    ensures DenoteEntries(stod, entries).Success? <==>
            forall k :: 0 <= k < |entries| ==> EntryReadable(stod, entries[k])
    decreases entries
  {
    if entries != [] {
      assert EntryFits(entries[0]) && entries[0].value < entries[0];
      DenotesIffReadable(stod, entries[0].value);
      EntriesIffReadable(stod, entries[1..]);
      assert forall k :: 1 <= k < |entries| ==> entries[k] == entries[1..][k - 1];
      assert EntryReadable(stod, entries[0]) <==> Denote(stod, entries[0].value).Success?;
    }
  }

  // Whole documents.

  lemma {:induction false} DocumentOfTree(stod: Stod, s: bytes, w: bytes, t: Tree)
    requires TreeAt(s, 0, w, t)
    ensures Parse(stod, s) == Denote(stod, t)
  {
    hide ValueAt, SkipSpace, Denote, Text;
    AtConcat(s, 0, w, Text(t));
    TextStarts(t);
    AtFirst(s, |w|, Text(t));
    SkipSpaceOver(s, 0, w);
    ValueComplete(stod, s, |w|, t);
  }

  /**
   The parser accepts a text exactly when it starts with white space and the text of a tree whose
   numbers can be read, and then returns that tree's document.
   */
  lemma {:induction false} ParseIffTree(stod: Stod, s: bytes, v: JsonValue)
    ensures Parse(stod, s) == Success(v) <==>
            exists w, t :: TreeAt(s, 0, w, t) && Denote(stod, t) == Success(v)
  {
    if Parse(stod, s) == Success(v) {
      ValueAfterSpace(stod, s, 0);
      var w, t := ValueSound(stod, s, 0);
      assert TreeAt(s, 0, w, t) && Denote(stod, t) == Success(v);
    }
    forall w, t | TreeAt(s, 0, w, t) && Denote(stod, t) == Success(v)
      ensures Parse(stod, s) == Success(v)
    {
      DocumentOfTree(stod, s, w, t);
    }
  }

  // What the RFC says a text denotes.

  /** The value a tree denotes by the RFC, with integers modulo 2^64 and fractions as std::stod reads them. */
  predicate Means(stod: Stod, t: Tree, j: JsonValue)
    requires Fits(t)
    decreases t
  {
    match t
    case TNull => j == JsonValue.Null
    case TBool(b) => j == JsonValue.Bool(b)
    case TNumber(lex) => ReadNumber(stod, lex) == Success(j)
    case TString(items) => j == JsonValue.String(ItemsMeaning(items))
    case TArray(_, elems) =>
      j.Array? && |j.arr| == |elems| &&
      forall k :: 0 <= k < |elems| ==> ElemFits(elems[k]) && ElemMeans(stod, elems[k], j.arr[k])
    case TObject(_, entries) =>
      j.Object? && |j.obj| == |entries| &&
      forall k :: 0 <= k < |entries| ==> EntryFits(entries[k]) && EntryMeans(stod, entries[k], j.obj[k])
  }

  predicate ElemMeans(stod: Stod, e: Elem, j: JsonValue)
    requires ElemFits(e)
    decreases e
  {
    Means(stod, e.value, j)
  }

  predicate EntryMeans(stod: Stod, e: Entry, m: Member)
    requires EntryFits(e)
    decreases e
  {
    m.key == ItemsMeaning(e.key) && Means(stod, e.value, m.value)
  }

  /** The parser's document is the RFC's exactly when no string or key escapes a surrogate pair. */
  lemma {:induction false} MeansIff(stod: Stod, t: Tree)
    requires Fits(t) && Denote(stod, t).Success?
    ensures Means(stod, t, Denote(stod, t).value) <==> PairFree(t)
    decreases t
  {
    match t
    case TString(items) => MeaningIff(items);
    case TArray(_, elems) => ElemsMeanIff(stod, elems);
    case TObject(_, entries) => EntriesMeanIff(stod, entries);
    case _ =>
  }

  lemma {:induction false} ElemsMeanIff(stod: Stod, elems: seq<Elem>)
    requires (forall k :: 0 <= k < |elems| ==> ElemFits(elems[k])) && DenoteElems(stod, elems).Success?
    ensures forall k :: 0 <= k < |elems| ==>
              (ElemMeans(stod, elems[k], DenoteElems(stod, elems).value[k]) <==> ElemPairFree(elems[k]))
    decreases elems
  {
    hide Means, PairFree, Denote, Fits;
    if elems != [] {
      assert ElemFits(elems[0]) && elems[0].value < elems[0];
      MeansIff(stod, elems[0].value);
      ElemsMeanIff(stod, elems[1..]);
      assert ElemMeans(stod, elems[0], DenoteElems(stod, elems).value[0]) <==> ElemPairFree(elems[0]);
      assert forall k :: 1 <= k < |elems| ==> elems[k] == elems[1..][k - 1];
    }
  }

  lemma {:induction false} EntriesMeanIff(stod: Stod, entries: seq<Entry>)
    requires (forall k :: 0 <= k < |entries| ==> EntryFits(entries[k])) && DenoteEntries(stod, entries).Success?
    ensures forall k :: 0 <= k < |entries| ==>
              (EntryMeans(stod, entries[k], DenoteEntries(stod, entries).value[k]) <==> EntryPairFree(entries[k]))
    decreases entries
  {
    hide Means, PairFree, Denote, Fits, ItemsBytes, ItemsMeaning, NoPair;
    if entries != [] {
      assert EntryFits(entries[0]) && entries[0].value < entries[0];
      MeansIff(stod, entries[0].value);
      MeaningIff(entries[0].key);
      EntriesMeanIff(stod, entries[1..]);
      assert EntryMeans(stod, entries[0], DenoteEntries(stod, entries).value[0]) <==> EntryPairFree(entries[0]);
      assert forall k :: 1 <= k < |entries| ==> entries[k] == entries[1..][k - 1];
    }
  }

  /**
   Every text of the grammar, with any white space, is accepted exactly when its integers lie in
   [-2^63, 2^64) and std::stod takes its other numbers. It is then read as the document it denotes exactly
   when no escape of a high surrogate stands directly in front of an escape of a low one.
   */
  lemma {:induction false} RfcComplete(stod: Stod, before: bytes, t: Tree, after: bytes)
    requires IsRfc(t) && AllSpace(before) && AllSpace(after)
    ensures var text := before + Text(t) + after;
            && (Parse(stod, text).Success? <==> Readable(stod, t))
            && (Readable(stod, t) ==> (Means(stod, t, Parse(stod, text).value) <==> NoPairEscape(text)))
  {
    hide Means, PairFree, Denote, Text, Readable, NoPairEscape;
    TextParse(stod, before, t, after);
    AroundTree(before, t, after);
    if Readable(stod, t) {
      MeansIff(stod, t);
    }
  }

  /** Whatever white space stands around it, a tree's text is read as the tree. */
  lemma {:induction false} TextParse(stod: Stod, before: bytes, t: Tree, after: bytes)
    requires Fits(t) && AllSpace(before) && AllSpace(after)
    ensures Parse(stod, before + Text(t) + after) == Denote(stod, t)
    ensures Denote(stod, t).Success? <==> Readable(stod, t)
  {
    var s := before + Text(t) + after;
    assert s[..|before + Text(t)|] == before + Text(t);
    assert after != [] ==> s[|before + Text(t)|] == after[0] && Grammar.IsSpace(after[0]);
    assert TreeAt(s, 0, before, t);
    DocumentOfTree(stod, s, before, t);
    DenotesIffReadable(stod, t);
  }

  /** The escaped form of U+1F600. */
  const HIGH: Item := Unicode([0x64, 0x38, 0x33, 0x64])
  const LOW: Item := Unicode([0x64, 0x65, 0x30, 0x30])

  lemma {:induction false} HalvesOfPair()
    ensures ItemFits(HIGH) && Code(HIGH) == 0xD83D && ItemBytes(HIGH) == [0xED, 0xA0, 0xBD]
    ensures ItemFits(LOW) && Code(LOW) == 0xDE00 && ItemBytes(LOW) == [0xED, 0xB8, 0x80]
  {
    HexValueOf4(HIGH.hex);
    HexValueOf4(LOW.hex);
  }

  /** It denotes four bytes of UTF-8, of which the parser makes six. */
  lemma {:induction false} PairIsSplit(stod: Stod)
    ensures var t := TString([HIGH, LOW]);
            && IsRfc(t) && Means(stod, t, JsonValue.String([0xF0, 0x9F, 0x98, 0x80]))
            && Parse(stod, Text(t)) == Success(JsonValue.String([0xED, 0xA0, 0xBD, 0xED, 0xB8, 0x80]))
  {
    hide Code, ItemBytes, Parse, Text, ItemFits;
    var t := TString([HIGH, LOW]);
    HalvesOfPair();
    PairParts(HIGH, LOW);
    TextParse(stod, [], t, []);
    assert [] + Text(t) + [] == Text(t);
    assert Denote(stod, t) == Success(JsonValue.String(ItemsBytes([HIGH, LOW])));
    assert ItemsBytes([HIGH, LOW]) == [0xED, 0xA0, 0xBD, 0xED, 0xB8, 0x80];
  }

  lemma {:induction false} PairParts(high: Item, low: Item)
    requires ItemFits(high) && ItemFits(low) && IsHigh(Code(high)) && IsLow(Code(low))
    ensures ItemsBytes([high, low]) == ItemBytes(high) + ItemBytes(low)
    ensures ItemsMeaning([high, low]) == Utf8.Encode(PairValue(Code(high), Code(low)))
  {
    hide Code, ItemBytes;
    var items := [high, low];
    assert items[1..] == [low] && [low][1..] == [] && items[2..] == [];
    assert ItemsBytes([low]) == ItemBytes(low) + [];
  }
}
