/**
 Escaped surrogates. Section 7 of RFC 8259 makes one character of a high surrogate's escape and the low
 one's behind it; the parser encodes each of the two by itself.
 */
module Surrogates {
  import opened Bytes
  import opened Decimal
  import opened Grammar
  import Utf8

  predicate IsHigh(cp: int) {
    0xD800 <= cp <= 0xDBFF
  }

  predicate IsLow(cp: int) {
    0xDC00 <= cp <= 0xDFFF
  }

  /** The code point of a \u escape, -1 for every other character. */
  function Code(it: Item): int {
    if it.Unicode? && |it.hex| == 4 && AllHex(it.hex) then HexValue(it.hex) else -1
  }

  predicate StartsPair(items: seq<Item>) {
    |items| >= 2 && IsHigh(Code(items[0])) && IsLow(Code(items[1]))
  }

  /** The code point of a pair. */
  function PairValue(high: int, low: int): (cp: nat)
    requires IsHigh(high) && IsLow(low)
    ensures 0x1_0000 <= cp <= 0x10_FFFF
  {
    0x1_0000 + (high - 0xD800) * 0x400 + (low - 0xDC00)
  }

  /** The bytes a string denotes by the RFC. A surrogate outside a pair is encoded by itself. */
  function ItemsMeaning(items: seq<Item>): bytes
    requires ItemsFit(items)
  {
    if items == [] then []
    else if StartsPair(items) then
      Utf8.Encode(PairValue(Code(items[0]), Code(items[1]))) + ItemsMeaning(items[2..])
    else ItemBytes(items[0]) + ItemsMeaning(items[1..])
  }

  predicate NoPair(items: seq<Item>) {
    items == [] || (!StartsPair(items) && NoPair(items[1..]))
  }

  lemma {:induction false} HighEncoding(items: seq<Item>)
    requires StartsPair(items) && ItemsFit(items)
    ensures |ItemBytes(items[0])| == 3 && |ItemBytes(items[1])| == 3
    ensures |Utf8.Encode(PairValue(Code(items[0]), Code(items[1])))| == 4
    ensures Utf8.Encode(PairValue(Code(items[0]), Code(items[1])))[0] >= 0xF0
  {
    HexValueBound(items[0].hex);
    HexValueBound(items[1].hex);
  }

  /** The parser's bytes are the RFC's exactly when there is no pair; a pair makes them longer. */
  lemma {:induction false} MeaningIff(items: seq<Item>)
    requires ItemsFit(items)
    ensures |ItemsMeaning(items)| <= |ItemsBytes(items)|
    ensures |ItemsMeaning(items)| == |ItemsBytes(items)| <==> NoPair(items)
    ensures ItemsMeaning(items) == ItemsBytes(items) <==> NoPair(items)
    decreases |items|
  {
    hide ItemBytes, ItemFits, Code;
    if StartsPair(items) {
      HighEncoding(items);
      MeaningIff(items[2..]);
      assert items[1..][1..] == items[2..];
      assert ItemsBytes(items) == ItemBytes(items[0]) + (ItemBytes(items[1]) + ItemsBytes(items[2..]));
    } else if items != [] {
      MeaningIff(items[1..]);
    }
  }

  predicate IsAscii(t: bytes) {
    forall k :: 0 <= k < |t| ==> t[k] < 0x80
  }

  /** A string of ASCII characters has no pair in it, however it is escaped. */
  lemma {:induction false} AsciiNoPair(items: seq<Item>)
    requires ItemsFit(items) && (IsAscii(ItemsMeaning(items)) || IsAscii(ItemsBytes(items)))
    ensures NoPair(items)
    decreases |items|
  {
    if StartsPair(items) {
      PairNotAscii(items);
    } else if items != [] {
      var first, rest := ItemBytes(items[0]), items[1..];
      assert IsAscii(ItemsMeaning(items)) ==> IsAscii(ItemsMeaning(rest)) by {
        AsciiTail(first, ItemsMeaning(rest));
      }
      assert IsAscii(ItemsBytes(items)) ==> IsAscii(ItemsBytes(rest)) by {
        AsciiTail(first, ItemsBytes(rest));
      }
      AsciiNoPair(rest);
    }
  }

  lemma {:induction false} PairNotAscii(items: seq<Item>)
    requires ItemsFit(items) && StartsPair(items)
    ensures !IsAscii(ItemsMeaning(items)) && !IsAscii(ItemsBytes(items))
  {
    HighEncoding(items);
    HexValueBound(items[0].hex);
    assert ItemsMeaning(items)[0] >= 0xF0;
    assert ItemsBytes(items)[0] >= 0xE0;
  }

  lemma {:induction false} AsciiTail(a: bytes, b: bytes)
    ensures IsAscii(a + b) ==> IsAscii(b)
  {
    if IsAscii(a + b) {
      forall k | 0 <= k < |b|
        ensures b[k] < 0x80
      {
        assert (a + b)[|a| + k] == b[k];
      }
    }
  }

  lemma {:induction false} DecimalAscii(n: int)
    ensures IsAscii(ToString(n))
  {
    var m: nat := if n < 0 then 0 - n else n;
    assert forall k :: 0 <= k < |Digits(m)| ==> IsDigit(Digits(m)[k]);
  }

  // Trees.

  /** No string or key escapes a pair. */
  predicate PairFree(t: Tree)
    decreases t
  {
    match t
    case TString(items) => NoPair(items)
    case TArray(_, elems) => forall k :: 0 <= k < |elems| ==> ElemPairFree(elems[k])
    case TObject(_, entries) => forall k :: 0 <= k < |entries| ==> EntryPairFree(entries[k])
    case _ => true
  }

  predicate ElemPairFree(e: Elem)
    decreases e
  {
    PairFree(e.value)
  }

  predicate EntryPairFree(e: Entry)
    decreases e
  {
    NoPair(e.key) && PairFree(e.value)
  }

  /** No escape names a surrogate code point. */
  predicate SurrogateFree(t: Tree)
    decreases t
  {
    match t
    case TString(items) => ItemsFree(items)
    case TArray(_, elems) => forall k :: 0 <= k < |elems| ==> ElemFree(elems[k])
    case TObject(_, entries) => forall k :: 0 <= k < |entries| ==> EntryFree(entries[k])
    case _ => true
  }

  predicate ItemsFree(items: seq<Item>) {
    forall k :: 0 <= k < |items| ==> ItemFree(items[k])
  }

  predicate ItemFree(it: Item) {
    it.Unicode? && |it.hex| == 4 && AllHex(it.hex) ==> !Utf8.IsSurrogate(HexValue(it.hex))
  }

  predicate ElemFree(e: Elem)
    decreases e
  {
    SurrogateFree(e.value)
  }

  predicate EntryFree(e: Entry)
    decreases e
  {
    ItemsFree(e.key) && SurrogateFree(e.value)
  }

  // Texts.

  predicate StartsCode(s: bytes) {
    |s| >= 6 && s[0] == BACKSLASH && s[1] == LETTER_U && AllHex(s[2..6])
  }

  /**
   One pass over a text: the code point of each \u escape, -1 for everything else. A backslash goes with
   the byte behind it, so that an escaped backslash starts no escape.
   */
  function Units(s: bytes): seq<int> {
    if s == [] then []
    else if StartsCode(s) then [HexValue(s[2..6])] + Units(s[6..])
    else if s[0] == BACKSLASH && |s| >= 2 then [-1] + Units(s[2..])
    else [-1] + Units(s[1..])
  }

  predicate Clean(u: seq<int>) {
    forall k :: 0 <= k < |u| ==> !IsHigh(u[k]) && !IsLow(u[k])
  }

  predicate Unpaired(u: seq<int>) {
    |u| < 2 || (!(IsHigh(u[0]) && IsLow(u[1])) && Unpaired(u[1..]))
  }

  /** The text has no escape of a surrogate. */
  predicate NoSurrogateEscape(s: bytes) {
    Clean(Units(s))
  }

  /** The text has no escape of a high surrogate directly in front of an escape of a low one. */
  predicate NoPairEscape(s: bytes) {
    Unpaired(Units(s))
  }

  /** No escape of the text is cut at its end: what follows is passed over as if it stood alone. */
  ghost predicate Whole(a: bytes) {
    forall b: bytes :: Units(a + b) == Units(a) + Units(b)
  }

  /** A piece of text that joins with others: whole, and with no escape at either end. */
  ghost predicate Sealed(a: bytes) {
    Whole(a) && var u := Units(a); u != [] ==> u[0] == -1 && u[|u| - 1] == -1
  }

  lemma {:induction false} WholeJoin(a: bytes, b: bytes)
    requires Whole(a) && Whole(b)
    ensures Whole(a + b) && Units(a + b) == Units(a) + Units(b)
  {
    hide Units;
    forall c: bytes
      ensures Units(a + b + c) == Units(a + b) + Units(c)
    {
      assert a + b + c == a + (b + c);
    }
  }

  /** Sealed pieces join, and nothing new comes of it. */
  lemma {:induction false} Join(a: bytes, b: bytes)
    requires Sealed(a) && Sealed(b)
    ensures Sealed(a + b)
    ensures NoSurrogateEscape(a + b) <==> NoSurrogateEscape(a) && NoSurrogateEscape(b)
    ensures NoPairEscape(a + b) <==> NoPairEscape(a) && NoPairEscape(b)
  {
    hide Units, Whole;
    WholeJoin(a, b);
    JoinUnits(Units(a), Units(b));
  }

  lemma {:induction false} JoinUnits(u: seq<int>, v: seq<int>)
    requires u != [] ==> u[|u| - 1] == -1
    ensures Clean(u + v) <==> Clean(u) && Clean(v)
    ensures Unpaired(u + v) <==> Unpaired(u) && Unpaired(v)
  {
    var w := u + v;
    assert forall k :: 0 <= k < |u| ==> w[k] == u[k];
    assert forall k :: 0 <= k < |v| ==> w[|u| + k] == v[k];
    JoinUnpaired(u, v);
  }

  lemma {:induction false} JoinUnpaired(u: seq<int>, v: seq<int>)
    requires u != [] ==> u[|u| - 1] == -1
    ensures Unpaired(u + v) <==> Unpaired(u) && Unpaired(v)
    decreases |u|
  {
    if u == [] {
      assert u + v == v;
    } else {
      assert (u + v)[1..] == u[1..] + v;
      assert |u| >= 2 ==> (u + v)[1] == u[1];
      JoinUnpaired(u[1..], v);
    }
  }

  /** Text without a backslash. */
  lemma {:induction false} Quiet(a: bytes)
    requires BACKSLASH !in a
    ensures Sealed(a) && NoSurrogateEscape(a) && NoPairEscape(a)
    decreases |a|
  {
    if a == [] {
      assert forall b: bytes :: [] + b == b;
    } else {
      OneByte(a[0]);
      Quiet(a[1..]);
      Join([a[0]], a[1..]);
      assert a == [a[0]] + a[1..];
    }
  }

  lemma {:induction false} OneByte(c: Byte)
    requires c != BACKSLASH
    ensures Units([c]) == [-1] && Sealed([c])
  {
    assert [c][1..] == [];
    assert Units([c]) == [-1];
    forall b: bytes
      ensures Units([c] + b) == [-1] + Units(b)
    {
      assert ([c] + b)[1..] == b;
    }
  }

  function ItemUnits(items: seq<Item>): seq<int> {
    seq(|items|, k requires 0 <= k < |items| => Code(items[k]))
  }

  lemma {:induction false} ItemWhole(it: Item)
    requires ItemFits(it)
    ensures Whole(ItemText(it)) && Units(ItemText(it)) == [Code(it)]
  {
    var a := ItemText(it);
    forall b: bytes
      ensures Units(a + b) == [Code(it)] + Units(b)
    {
      match it
      case Raw(c) => assert (a + b)[1..] == b;
      case Escape(e) =>
        assert (a + b)[0] == BACKSLASH && (a + b)[1] == e && (a + b)[2..] == b;
      case Unicode(hex) =>
        assert (a + b)[2..6] == hex && (a + b)[6..] == b;
    }
    assert a + [] == a;
    assert Units([]) == [];
  }

  lemma {:induction false} ItemsWhole(items: seq<Item>)
    requires ItemsFit(items)
    ensures Whole(ItemsText(items)) && Units(ItemsText(items)) == ItemUnits(items)
    decreases |items|
  {
    hide Units, Code, ItemFits, ItemText;
    if items == [] {
      Quiet([]);
      NoUnits();
    } else {
      ItemWhole(items[0]);
      ItemsWhole(items[1..]);
      WholeJoin(ItemText(items[0]), ItemsText(items[1..]));
      assert ItemUnits(items) == [Code(items[0])] + ItemUnits(items[1..]);
    }
  }

  lemma {:induction false} NoUnits()
    ensures Units([]) == []
  {
  }

  lemma {:induction false} UnpairedIff(items: seq<Item>)
    ensures Unpaired(ItemUnits(items)) <==> NoPair(items)
    decreases |items|
  {
    hide Code, IsHigh, IsLow;
    if items != [] {
      UnpairedIff(items[1..]);
      assert ItemUnits(items)[1..] == ItemUnits(items[1..]);
    }
  }

  lemma {:induction false} StringEscapes(items: seq<Item>)
    requires ItemsFit(items)
    ensures Sealed(StringText(items))
    ensures NoSurrogateEscape(StringText(items)) <==> ItemsFree(items)
    ensures NoPairEscape(StringText(items)) <==> NoPair(items)
  {
    var body := ItemsText(items);
    hide Units, ItemsText;
    OneByte(QUOTE);
    ItemsWhole(items);
    WholeJoin(body, [QUOTE]);
    WholeJoin([QUOTE], body + [QUOTE]);
    var u := ItemUnits(items);
    JoinUnits([-1], u + [-1]);
    BeforePlain(u);
    UnpairedIff(items);
    assert Clean(u) <==> ItemsFree(items) by {
      assert forall k :: 0 <= k < |items| ==> u[k] == Code(items[k]);
    }
  }

  lemma {:induction false} BeforePlain(u: seq<int>)
    ensures Clean(u + [-1]) <==> Clean(u)
    ensures Unpaired(u + [-1]) <==> Unpaired(u)
    decreases |u|
  {
    var w := u + [-1];
    assert forall k :: 0 <= k < |u| ==> w[k] == u[k];
    if u != [] {
      BeforePlain(u[1..]);
      assert w[1..] == u[1..] + [-1];
    }
  }

  /** Over a tree's text the scan finds exactly the tree's escapes. */
  lemma {:induction false} TreeEscapes(t: Tree)
    requires Fits(t)
    ensures Sealed(Text(t))
    ensures NoSurrogateEscape(Text(t)) <==> SurrogateFree(t)
    ensures NoPairEscape(Text(t)) <==> PairFree(t)
    decreases t, 0
  {
    hide Units, Sealed, NoSurrogateEscape, NoPairEscape, ElemsText, EntriesText, StringText;
    match t
    case TString(items) => StringEscapes(items);
    case TArray(pad, elems) =>
      var rest := if elems == [] then pad + [RBRACKET] else ElemsText(elems);
      Quiet([LBRACKET]);
      if elems == [] {
        Quiet(rest);
      } else {
        ElemsEscapes(elems);
      }
      Join([LBRACKET], rest);
    case TObject(pad, entries) =>
      var rest := if entries == [] then pad + [RBRACE] else EntriesText(entries);
      Quiet([LBRACE]);
      if entries == [] {
        Quiet(rest);
      } else {
        EntriesEscapes(entries);
      }
      Join([LBRACE], rest);
    case _ => Quiet(Text(t));
  }

  lemma {:induction false} ElemsEscapes(elems: seq<Elem>)
    requires elems != [] && forall k :: 0 <= k < |elems| ==> ElemFits(elems[k])
    ensures Sealed(ElemsText(elems))
    ensures NoSurrogateEscape(ElemsText(elems)) <==> forall k :: 0 <= k < |elems| ==> ElemFree(elems[k])
    ensures NoPairEscape(ElemsText(elems)) <==> forall k :: 0 <= k < |elems| ==> ElemPairFree(elems[k])
    decreases elems, 0
  {
    hide Sealed, NoSurrogateEscape, NoPairEscape, Text;
    var e := elems[0];
    assert ElemFits(e) && e.value < e;
    var tail := if |elems| == 1 then [RBRACKET] else [COMMA] + ElemsText(elems[1..]);
    if |elems| == 1 {
      Quiet(tail);
    } else {
      Quiet([COMMA]);
      ElemsEscapes(elems[1..]);
      Join([COMMA], ElemsText(elems[1..]));
      assert forall k :: 1 <= k < |elems| ==> elems[k] == elems[1..][k - 1];
    }
    ElemEscapes(e, tail);
  }

  lemma {:induction false} ElemEscapes(e: Elem, tail: bytes)
    requires ElemFits(e) && Sealed(tail)
    ensures var s := e.before + (Text(e.value) + (e.after + tail));
            && Sealed(s)
            && (NoSurrogateEscape(s) <==> ElemFree(e) && NoSurrogateEscape(tail))
            && (NoPairEscape(s) <==> ElemPairFree(e) && NoPairEscape(tail))
    decreases e.value, 1
  {
    hide Sealed, NoSurrogateEscape, NoPairEscape, Text;
    Quiet(e.before);
    Quiet(e.after);
    TreeEscapes(e.value);
    Join(e.after, tail);
    Join(Text(e.value), e.after + tail);
    Join(e.before, Text(e.value) + (e.after + tail));
  }

  lemma {:induction false} EntriesEscapes(entries: seq<Entry>)
    requires entries != [] && forall k :: 0 <= k < |entries| ==> EntryFits(entries[k])
    ensures Sealed(EntriesText(entries))
    ensures NoSurrogateEscape(EntriesText(entries)) <==> forall k :: 0 <= k < |entries| ==> EntryFree(entries[k])
    ensures NoPairEscape(EntriesText(entries)) <==> forall k :: 0 <= k < |entries| ==> EntryPairFree(entries[k])
    decreases entries, 0
  {
    hide Sealed, NoSurrogateEscape, NoPairEscape, Text, StringText;
    var e := entries[0];
    assert EntryFits(e) && e.value < e;
    var tail := if |entries| == 1 then [RBRACE] else [COMMA] + EntriesText(entries[1..]);
    if |entries| == 1 {
      Quiet(tail);
    } else {
      Quiet([COMMA]);
      EntriesEscapes(entries[1..]);
      Join([COMMA], EntriesText(entries[1..]));
      assert forall k :: 1 <= k < |entries| ==> entries[k] == entries[1..][k - 1];
    }
    EntryEscapes(e, tail);
  }

  lemma {:induction false} EntryEscapes(e: Entry, tail: bytes)
    requires EntryFits(e) && Sealed(tail)
    ensures var s := e.before +
                     (StringText(e.key) + (e.gap + ([COLON] + (e.lead + (Text(e.value) + (e.after + tail))))));
            && Sealed(s)
            && (NoSurrogateEscape(s) <==> EntryFree(e) && NoSurrogateEscape(tail))
            && (NoPairEscape(s) <==> EntryPairFree(e) && NoPairEscape(tail))
    decreases e.value, 2
  {
    hide Sealed, NoSurrogateEscape, NoPairEscape, Text, StringText;
    var value := e.lead + (Text(e.value) + (e.after + tail));
    ElemEscapes(Elem(e.lead, e.value, e.after), tail);
    Quiet([COLON]);
    Quiet(e.gap);
    Quiet(e.before);
    StringEscapes(e.key);
    Join([COLON], value);
    Join(e.gap, [COLON] + value);
    Join(StringText(e.key), e.gap + ([COLON] + value));
    Join(e.before, StringText(e.key) + (e.gap + ([COLON] + value)));
  }

  /** The same with white space around the tree. */
  lemma {:induction false} AroundTree(before: bytes, t: Tree, after: bytes)
    requires Fits(t) && AllSpace(before) && AllSpace(after)
    ensures Sealed(before + Text(t)) && Sealed(before + Text(t) + after)
    ensures NoSurrogateEscape(before + Text(t) + after) <==> SurrogateFree(t)
    ensures NoPairEscape(before + Text(t) + after) <==> PairFree(t)
  {
    hide Sealed, NoSurrogateEscape, NoPairEscape, Text, Fits, PairFree, SurrogateFree;
    Quiet(before);
    Quiet(after);
    TreeEscapes(t);
    Join(before, Text(t));
    Join(before + Text(t), after);
  }
}
