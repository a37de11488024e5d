/**
 Concrete syntax trees of JSON text: every byte of a text, and the document it denotes.
 The trees cover a superset of RFC 8259; the predicate IsRfc carves out the RFC's own grammar.
 */
module Grammar {
  import opened Bytes
  import opened Decimal
  import opened Outcome
  import opened Json
  import Utf8

  const TRUE_TEXT: bytes := [0x74, 0x72, 0x75, 0x65]
  const FALSE_TEXT: bytes := [0x66, 0x61, 0x6C, 0x73, 0x65]
  const NULL_TEXT: bytes := [0x6E, 0x75, 0x6C, 0x6C]
  const LETTER_U: Byte := 0x75

  predicate IsSpace(b: Byte) {
    b == 0x20 || b == 0x09 || b == 0x0A || b == 0x0D
  }

  predicate AllSpace(t: bytes) {
    forall k :: 0 <= k < |t| ==> IsSpace(t[k])
  }

  // Characters of a string.

  datatype Item =
    | Raw(b: Byte)
    | Escape(e: Byte)
    | Unicode(hex: bytes)

  /** The byte a two-character escape stands for. */
  function EscapeTarget(e: Byte): Option<Byte> {
    match e
    case 0x22 => Some(0x22)
    case 0x5C => Some(0x5C)
    case 0x2F => Some(0x2F)
    case 0x62 => Some(0x08)
    case 0x66 => Some(0x0C)
    case 0x6E => Some(0x0A)
    case 0x72 => Some(0x0D)
    case 0x74 => Some(0x09)
    case _ => None
  }

  predicate IsHex(b: Byte) {
    IsDigit(b) || 0x41 <= b <= 0x46 || 0x61 <= b <= 0x66
  }

  predicate AllHex(t: bytes) {
    forall k :: 0 <= k < |t| ==> IsHex(t[k])
  }

  function HexDigit(b: Byte): (n: nat)
    requires IsHex(b)
    ensures n < 16
  {
    if IsDigit(b) then b - 0x30 else if b <= 0x46 then b - 0x41 + 10 else b - 0x61 + 10
  }

  function HexValue(t: bytes): nat
    requires AllHex(t)
  {
    if t == [] then 0 else HexValue(t[..|t| - 1]) * 16 + HexDigit(t[|t| - 1])
  }

  lemma {:induction false} HexValueOf4(t: bytes)
    requires |t| == 4 && AllHex(t)
    ensures HexValue(t) == ((HexDigit(t[0]) * 16 + HexDigit(t[1])) * 16 + HexDigit(t[2])) * 16 + HexDigit(t[3])
  {
    assert t[..1][..0] == [] && t[..2][..1] == t[..1] && t[..3][..2] == t[..2];
    assert HexValue(t[..1]) == HexDigit(t[0]);
    assert HexValue(t[..2]) == HexDigit(t[0]) * 16 + HexDigit(t[1]);
    assert HexValue(t[..3]) == (HexDigit(t[0]) * 16 + HexDigit(t[1])) * 16 + HexDigit(t[2]);
  }

  lemma {:induction false} HexValueBound(t: bytes)
    requires |t| == 4 && AllHex(t)
    ensures HexValue(t) < 0x1_0000
  {
    HexValueOf4(t);
  }

  predicate ItemFits(it: Item) {
    match it
    case Raw(b) => b != QUOTE && b != BACKSLASH
    case Escape(e) => EscapeTarget(e).Some?
    case Unicode(hex) => |hex| == 4 && AllHex(hex)
  }

  function ItemText(it: Item): (t: bytes)
    ensures t != []
  {
    match it
    case Raw(b) => [b]
    case Escape(e) => [BACKSLASH, e]
    case Unicode(hex) => [BACKSLASH, LETTER_U] + hex
  }

  /** The bytes the parser makes of a character; an escaped code point becomes its UTF-8 encoding. */
  function ItemBytes(it: Item): bytes
    requires ItemFits(it)
  {
    match it
    case Raw(b) => [b]
    case Escape(e) => [EscapeTarget(e).value]
    case Unicode(hex) =>
      HexValueBound(hex);
      Utf8.Encode(HexValue(hex))
  }

  predicate ItemsFit(items: seq<Item>) {
    forall k :: 0 <= k < |items| ==> ItemFits(items[k])
  }

  function ItemsText(items: seq<Item>): bytes {
    if items == [] then [] else ItemText(items[0]) + ItemsText(items[1..])
  }

  function ItemsBytes(items: seq<Item>): bytes
    requires ItemsFit(items)
  {
    if items == [] then [] else ItemBytes(items[0]) + ItemsBytes(items[1..])
  }

  function StringText(items: seq<Item>): bytes {
    [QUOTE] + (ItemsText(items) + [QUOTE])
  }

  // Values.

  datatype Tree =
    | TNull
    | TBool(b: bool)
    | TNumber(lex: bytes)
    | TString(items: seq<Item>)
    | TArray(pad: bytes, elems: seq<Elem>)
    | TObject(pad: bytes, entries: seq<Entry>)

  /** An array element with the white space around it. */
  datatype Elem = Elem(before: bytes, value: Tree, after: bytes)

  /** An object member with the white space around its parts. */
  datatype Entry = Entry(before: bytes, key: seq<Item>, gap: bytes, lead: bytes, value: Tree, after: bytes)

  function Text(t: Tree): (r: bytes)
    decreases t
  {
    match t
    case TNull => NULL_TEXT
    case TBool(b) => if b then TRUE_TEXT else FALSE_TEXT
    case TNumber(lex) => lex
    case TString(items) => StringText(items)
    case TArray(pad, elems) => [LBRACKET] + (if elems == [] then pad + [RBRACKET] else ElemsText(elems))
    case TObject(pad, entries) => [LBRACE] + (if entries == [] then pad + [RBRACE] else EntriesText(entries))
  }

  /** The elements up to and including the closing bracket. */
  function ElemsText(elems: seq<Elem>): (r: bytes)
    requires elems != []
    decreases elems
  {
    var e := elems[0];
    assert e.value < e;
    e.before + (Text(e.value) + (e.after +
      if |elems| == 1 then [RBRACKET] else [COMMA] + ElemsText(elems[1..])))
  }

  /** The members up to and including the closing brace. */
  function EntriesText(entries: seq<Entry>): (r: bytes)
    requires entries != []
    decreases entries
  {
    var e := entries[0];
    assert e.value < e;
    e.before + (StringText(e.key) + (e.gap + ([COLON] + (e.lead + (Text(e.value) + (e.after +
      if |entries| == 1 then [RBRACE] else [COMMA] + EntriesText(entries[1..])))))))
  }

  /** The trees the parser knows: white space where it belongs, known escapes, numbers made of number bytes. */
  predicate Fits(t: Tree)
    decreases t
  {
    match t
    case TNull => true
    case TBool(_) => true
    case TNumber(lex) => lex != [] && forall k :: 0 <= k < |lex| ==> IsNumberByte(lex[k])
    case TString(items) => ItemsFit(items)
    case TArray(pad, elems) => AllSpace(pad) && forall k :: 0 <= k < |elems| ==> ElemFits(elems[k])
    case TObject(pad, entries) => AllSpace(pad) && forall k :: 0 <= k < |entries| ==> EntryFits(entries[k])
  }

  predicate ElemFits(e: Elem)
    decreases e
  {
    AllSpace(e.before) && Fits(e.value) && AllSpace(e.after)
  }

  predicate EntryFits(e: Entry)
    decreases e
  {
    AllSpace(e.before) && ItemsFit(e.key) && AllSpace(e.gap) && AllSpace(e.lead) && Fits(e.value) && AllSpace(e.after)
  }

  /**
   The document the parser makes of a tree: members in order, integers modulo 2^64, fractions as std::stod reads them.
   The first number that cannot be read is what a reader reports.
   */
  function Denote(stod: Stod, t: Tree): Result<JsonValue>
    requires Fits(t)
    decreases t
  {
    match t
    case TNull => Success(JsonValue.Null)
    case TBool(b) => Success(JsonValue.Bool(b))
    case TNumber(lex) => ReadNumber(stod, lex)
    case TString(items) => Success(JsonValue.String(ItemsBytes(items)))
    case TArray(_, elems) =>
      var arr :- DenoteElems(stod, elems);
      Success(JsonValue.Array(arr))
    case TObject(_, entries) =>
      var obj :- DenoteEntries(stod, entries);
      Success(JsonValue.Object(obj))
  }

  function DenoteElems(stod: Stod, elems: seq<Elem>): (r: Result<seq<JsonValue>>)
    requires forall k :: 0 <= k < |elems| ==> ElemFits(elems[k])
    ensures r.Success? ==> |r.value| == |elems|
    decreases elems
  {
    if elems == [] then Success([])
    else
      assert ElemFits(elems[0]) && elems[0].value < elems[0];
      var v :- Denote(stod, elems[0].value);
      var rest :- DenoteElems(stod, elems[1..]);
      Success([v] + rest)
  }

  function DenoteEntries(stod: Stod, entries: seq<Entry>): (r: Result<seq<Member>>)
    requires forall k :: 0 <= k < |entries| ==> EntryFits(entries[k])
    ensures r.Success? ==> |r.value| == |entries|
    decreases entries
  {
    if entries == [] then Success([])
    else
      assert EntryFits(entries[0]);
      var m :- DenoteEntry(stod, entries[0]);
      var rest :- DenoteEntries(stod, entries[1..]);
      Success([m] + rest)
  }

  function DenoteEntry(stod: Stod, e: Entry): Result<Member>
    requires EntryFits(e)
    decreases e
  {
    var v :- Denote(stod, e.value);
    Success(Member(ItemsBytes(e.key), v))
  }

  /** The text of a value starts with a byte that is no white space and tells its kind. */
  lemma {:induction false} TextStarts(t: Tree)
    requires Fits(t)
    ensures Text(t) != [] && !IsSpace(Text(t)[0]) && Text(t)[0] != RBRACKET
    ensures t.TNumber? <==> IsNumberByte(Text(t)[0])
    ensures t.TString? <==> Text(t)[0] == QUOTE
    ensures t.TArray? <==> Text(t)[0] == LBRACKET
    ensures t.TObject? <==> Text(t)[0] == LBRACE
    ensures t.TNull? <==> Text(t)[0] == NULL_TEXT[0]
    ensures t.TBool? <==> Text(t)[0] == TRUE_TEXT[0] || Text(t)[0] == FALSE_TEXT[0]
  {
  }
}
