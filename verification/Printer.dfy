/** json_escape and value_to_json of include/loro.hpp, and what printing and parsing again gives. */
module Printer {
  import opened Bytes
  import opened Decimal
  import opened Outcome
  import opened Json
  import opened Grammar
  import opened Reader
  import opened LoroValues
  import opened Documents
  import opened Rfc8259
  import opened Surrogates
  import Completeness
  import Utf8

  /** snprintf with %.17g. */
  type Format = F64 -> bytes

  // json_escape

  function HexChar(n: nat): Byte
    requires n < 16
  {
    if n < 10 then 0x30 + n else 0x61 + (n - 10)
  }

  /** How a byte is printed. */
  function PrintItem(c: Byte): Item {
    if c == QUOTE then Escape(QUOTE)
    else if c == BACKSLASH then Escape(BACKSLASH)
    else if c == 0x0A then Escape(0x6E)
    else if c == 0x0D then Escape(0x72)
    else if c == 0x09 then Escape(0x74)
    else if c < 0x20 then Unicode([ZERO, ZERO, HexChar(c / 16), HexChar(c % 16)])
    else Raw(c)
  }

  function PrintItems(s: bytes): (items: seq<Item>)
    ensures |items| == |s| && forall k :: 0 <= k < |s| ==> items[k] == PrintItem(s[k])
  {
    seq(|s|, k requires 0 <= k < |s| => PrintItem(s[k]))
  }

  method JsonEscape(s: bytes, before: bytes) returns (out: bytes)
    ensures out == before + StringText(PrintItems(s))
  {
    out := before + [QUOTE];
    ghost var start := out;
    for k := 0 to |s|
      invariant out == start + ItemsText(PrintItems(s[..k]))
    {
      ghost var had := out;
      var c := s[k];
      if c == QUOTE {
        out := out + [BACKSLASH, QUOTE];
      } else if c == BACKSLASH {
        out := out + [BACKSLASH, BACKSLASH];
      } else if c == 0x0A {
        out := out + [BACKSLASH, 0x6E];
      } else if c == 0x0D {
        out := out + [BACKSLASH, 0x72];
      } else if c == 0x09 {
        out := out + [BACKSLASH, 0x74];
      } else if c < 0x20 {
        out := out + ([BACKSLASH, LETTER_U] + [ZERO, ZERO, HexChar(c / 16), HexChar(c % 16)]);
      } else {
        out := out + [c];
      }
      EscapedMore(start, s, k, had, out);
    }
    assert s[..|s|] == s;
    out := out + [QUOTE];
    assert out == before + StringText(PrintItems(s)) by {
      EscapedAll(before, ItemsText(PrintItems(s)));
    }
  }

  lemma {:induction false} EscapedMore(start: bytes, s: bytes, k: nat, had: bytes, out: bytes)
    requires k < |s| && had == start + ItemsText(PrintItems(s[..k])) && out == had + ItemText(PrintItem(s[k]))
    ensures out == start + ItemsText(PrintItems(s[..k + 1]))
  {
    hide PrintItem, ItemText;
    assert PrintItems(s[..k + 1]) == PrintItems(s[..k]) + [PrintItem(s[k])];
    ItemsTextAppend(PrintItems(s[..k]), PrintItem(s[k]));
  }

  lemma {:induction false} EscapedAll(before: bytes, t: bytes)
    ensures before + [QUOTE] + t + [QUOTE] == before + ([QUOTE] + (t + [QUOTE]))
  {
  }

  lemma {:induction false} ItemsTextAppend(items: seq<Item>, it: Item)
    ensures ItemsText(items + [it]) == ItemsText(items) + ItemText(it)
    decreases |items|
  {
    if items == [] {
      assert [it][1..] == [];
    } else {
      assert (items + [it])[1..] == items[1..] + [it];
      ItemsTextAppend(items[1..], it);
    }
  }

  /** A printed byte is a character of the RFC that denotes the byte. */
  lemma {:induction false} PrintItemDenotes(c: Byte)
    ensures ItemIsRfc(PrintItem(c)) && ItemBytes(PrintItem(c)) == [c] && !IsHigh(Code(PrintItem(c)))
  {
    if PrintItem(c).Unicode? {
      HexValueOf4(PrintItem(c).hex);
    }
  }

  lemma {:induction false} PrintItemsDenote(s: bytes)
    ensures (forall k :: 0 <= k < |s| ==> ItemIsRfc(PrintItems(s)[k]))
    ensures ItemsFit(PrintItems(s)) && ItemsBytes(PrintItems(s)) == s
    ensures NoPair(PrintItems(s)) && ItemsMeaning(PrintItems(s)) == s
    decreases |s|
  {
    hide PrintItem, ItemFits, Code, ItemBytes, ItemsMeaning;
    forall k | 0 <= k < |s|
      ensures ItemIsRfc(PrintItems(s)[k]) && ItemFits(PrintItems(s)[k])
    {
      PrintItemDenotes(s[k]);
    }
    if s != [] {
      PrintItemDenotes(s[0]);
      assert PrintItems(s)[1..] == PrintItems(s[1..]);
      PrintItemsDenote(s[1..]);
    }
    MeaningIff(PrintItems(s));
  }

  /** Escaping moves the UTF-8 automaton exactly as the bytes themselves do. */
  lemma {:induction false} EscapedRun(st: Utf8.State, c: Byte)
    ensures Utf8.Run(st, ItemText(PrintItem(c))) == Utf8.Step(st, c)
  {
    var t := ItemText(PrintItem(c));
    if PrintItem(c).Raw? {
      Utf8.RunByte(st, c);
    } else {
      assert t == [BACKSLASH] + t[1..];
      Utf8.RunConcat(st, [BACKSLASH], t[1..]);
      Utf8.RunByte(st, BACKSLASH);
      Utf8.RunReject(t[1..]);
      Utf8.AsciiRun(t[1..]);
    }
  }

  lemma {:induction false} EscapedRuns(st: Utf8.State, s: bytes)
    ensures Utf8.Run(st, ItemsText(PrintItems(s))) == Utf8.Run(st, s)
    decreases |s|
  {
    if s != [] {
      assert PrintItems(s)[1..] == PrintItems(s[1..]);
      Utf8.RunConcat(st, ItemText(PrintItem(s[0])), ItemsText(PrintItems(s[1..])));
      EscapedRun(st, s[0]);
      EscapedRuns(Utf8.Step(st, s[0]), s[1..]);
    }
  }

  /** The escaped form of a string is well-formed UTF-8 exactly when the string is. */
  lemma {:induction false} EscapeUtf8(s: bytes)
    ensures Utf8.WellFormed(StringText(PrintItems(s))) <==> Utf8.WellFormed(s)
  {
    var t := ItemsText(PrintItems(s));
    EscapedRuns(Utf8.Start, s);
    Utf8.RunConcat(Utf8.Start, [QUOTE], t + [QUOTE]);
    Utf8.RunConcat(Utf8.Start, t, [QUOTE]);
    Utf8.RunByte(Utf8.Start, QUOTE);
    Utf8.RunByte(Utf8.Run(Utf8.Start, t), QUOTE);
  }

  // value_to_json

  /** Binary and container values have no JSON form. */
  predicate HasJsonForm(v: LoroValue) {
    match v
    case KBinary(_) => false
    case KContainer(_) => false
    case KList(items) => forall k :: 0 <= k < |items| ==> HasJsonForm(items[k])
    case KMap(entries) => forall key :: key in entries ==> HasJsonForm(entries[key])
    case _ => true
  }

  /** The tree is how the value prints, with the members of each map in some order. */
  ghost predicate Prints(fmt: Format, v: LoroValue, t: Tree)
    decreases v
  {
    match v
    case KNull => t == TNull
    case KBool(b) => t == TBool(b)
    case KDouble(d) => t == TNumber(fmt(d))
    case KI64(i) => t == TNumber(ToString(i))
    case KString(s) => t == TString(PrintItems(s))
    case KList(items) =>
      && t.TArray? && t.pad == [] && |t.elems| == |items|
      && forall k :: 0 <= k < |items| ==>
          t.elems[k] == Elem([], t.elems[k].value, []) && Prints(fmt, items[k], t.elems[k].value)
    case KMap(entries) =>
      && t.TObject? && t.pad == []
      && (forall k :: 0 <= k < |t.entries| ==> PrintedEntry(t.entries[k]) && KeyOf(t.entries[k]) in entries)
      && (forall k :: 0 <= k < |t.entries| ==>
          KeyOf(t.entries[k]) in entries && Prints(fmt, entries[KeyOf(t.entries[k])], t.entries[k].value))
      && (forall j, k :: 0 <= j < k < |t.entries| ==> KeyOf(t.entries[j]) != KeyOf(t.entries[k]))
      && forall key :: key in entries ==> HasKey(t.entries, key)
    case _ => false
  }

  /** A member as the printer writes it: no white space, and its name escaped. */
  predicate PrintedEntry(e: Entry) {
    e.before == [] && e.gap == [] && e.lead == [] && e.after == [] && e.key == PrintItems(KeyOf(e))
  }

  function PrintedMember(key: bytes, t: Tree): (e: Entry)
    ensures PrintedEntry(e) && KeyOf(e) == key
  {
    PrintItemsDenote(key);
    Entry([], PrintItems(key), [], [], t, [])
  }

  /** Texts with commas between them. */
  function Joined(parts: seq<bytes>): bytes {
    if parts == [] then []
    else if |parts| == 1 then parts[0]
    else Joined(parts[..|parts| - 1]) + ([COMMA] + parts[|parts| - 1])
  }

  lemma {:induction false} JoinedNone(before: bytes)
    ensures Joined([]) == [] && before + Joined([]) == before
  {
  }

  lemma {:induction false} JoinedMore(parts: seq<bytes>, part: bytes)
    ensures Joined(parts + [part]) == if parts == [] then part else Joined(parts) + ([COMMA] + part)
  {
    assert (parts + [part])[..|parts|] == parts;
  }

  lemma {:induction false} JoinedFront(part: bytes, parts: seq<bytes>)
    requires parts != []
    ensures Joined([part] + parts) == part + ([COMMA] + Joined(parts))
    decreases |parts|
  {
    var front, last := parts[..|parts| - 1], parts[|parts| - 1];
    assert parts == front + [last] && [part] + parts == ([part] + front) + [last];
    JoinedMore([part] + front, last);
    JoinedMore(front, last);
    if front == [] {
      assert [part] + front == [part];
    } else {
      JoinedFront(part, front);
    }
  }

  function ElemTexts(elems: seq<Elem>): seq<bytes> {
    seq(|elems|, k requires 0 <= k < |elems| => Text(elems[k].value))
  }

  function EntryTexts(entries: seq<Entry>): seq<bytes> {
    seq(|entries|, k requires 0 <= k < |entries| => StringText(entries[k].key) + ([COLON] + Text(entries[k].value)))
  }

  lemma {:induction false} JoinedElems(elems: seq<Elem>)
    requires elems != [] && forall k :: 0 <= k < |elems| ==> elems[k].before == [] && elems[k].after == []
    ensures ElemsText(elems) == Joined(ElemTexts(elems)) + [RBRACKET]
    decreases |elems|
  {
    hide Text;
    if |elems| > 1 {
      JoinedElems(elems[1..]);
      assert ElemTexts(elems) == [Text(elems[0].value)] + ElemTexts(elems[1..]);
      JoinedFront(Text(elems[0].value), ElemTexts(elems[1..]));
    }
  }

  lemma {:induction false} JoinedEntries(entries: seq<Entry>)
    requires entries != [] && forall k :: 0 <= k < |entries| ==> PrintedEntry(entries[k])
    ensures EntriesText(entries) == Joined(EntryTexts(entries)) + [RBRACE]
    decreases |entries|
  {
    hide Text, StringText, KeyOf;
    assert PrintedEntry(entries[0]);
    if |entries| > 1 {
      JoinedEntries(entries[1..]);
      var part := StringText(entries[0].key) + ([COLON] + Text(entries[0].value));
      assert EntryTexts(entries) == [part] + EntryTexts(entries[1..]);
      JoinedFront(part, EntryTexts(entries[1..]));
    }
  }

  /** value_to_json, with the tree of what it prints. The iteration order of a map is any order. */
  method ValueToJson(fmt: Format, v: LoroValue) returns (r: Result<bytes>, ghost t: Tree)
    ensures r == Failure(NoJsonForm) || r.Success?
    ensures r.Success? <==> HasJsonForm(v)
    ensures r.Success? ==> Prints(fmt, v, t) && r.value == Text(t)
    decreases v, 1
  {
    t := TNull;
    match v
    case KNull => r := Success(NULL_TEXT);
    case KBool(b) =>
      r := Success(if b then TRUE_TEXT else FALSE_TEXT);
      t := TBool(b);
    case KI64(i) =>
      r := Success(ToString(i));
      t := TNumber(ToString(i));
    case KDouble(d) =>
      r := Success(fmt(d));
      t := TNumber(fmt(d));
    case KString(s) =>
      var out := JsonEscape(s, []);
      assert [] + StringText(PrintItems(s)) == StringText(PrintItems(s));
      r := Success(out);
      t := TString(PrintItems(s));
    case KList(items) => r, t := ListToJson(fmt, v);
    case KMap(entries) => r, t := MapToJson(fmt, v);
    case _ => r := Failure(NoJsonForm);
  }

  method ListToJson(fmt: Format, v: LoroValue) returns (r: Result<bytes>, ghost t: Tree)
    requires v.KList?
    ensures r == Failure(NoJsonForm) || r.Success?
    ensures r.Success? <==> HasJsonForm(v)
    ensures r.Success? ==> Prints(fmt, v, t) && r.value == Text(t)
    decreases v, 0
  {
    hide Joined, Text, Prints, HasJsonForm;
    t := TNull;
    JoinedNone([LBRACKET]);
    var items := v.items;
    var out, first := [LBRACKET], true;
    ghost var elems: seq<Elem> := [];
    assert ElemTexts(elems) == [];
    for k := 0 to |items|
      invariant |elems| == k && (first <==> k == 0)
      invariant forall j :: 0 <= j < k ==>
        elems[j].before == [] && elems[j].after == [] && Prints(fmt, items[j], elems[j].value) && HasJsonForm(items[j])
      invariant out == [LBRACKET] + Joined(ElemTexts(elems))
    {
      ghost var had := elems;
      if !first {
        out := out + [COMMA];
      }
      first := false;
      var text, tree := ValueToJson(fmt, items[k]);
      if text.Failure? {
        NoForm(v, items[k]);
        return Failure(NoJsonForm), t;
      }
      out := out + text.value;
      elems := elems + [Elem([], tree, [])];
      assert ElemTexts(elems) == ElemTexts(had) + [Text(tree)];
      JoinedMore(ElemTexts(had), Text(tree));
    }
    out := out + [RBRACKET];
    t := TArray([], elems);
    ListPrinted(fmt, v, t, out);
    return Success(out), t;
  }

  /** A list or map with a part that has no JSON form has none. */
  lemma {:induction false} NoForm(v: LoroValue, part: LoroValue)
    requires !HasJsonForm(part)
    requires (v.KList? && part in v.items) || (v.KMap? && part in v.entries.Values)
    ensures !HasJsonForm(v)
  {
  }

  lemma {:induction false} ListPrinted(fmt: Format, v: LoroValue, t: Tree, out: bytes)
    requires v.KList? && t.TArray? && t.pad == [] && |t.elems| == |v.items|
    requires forall j :: 0 <= j < |v.items| ==>
      && t.elems[j].before == [] && t.elems[j].after == []
      && Prints(fmt, v.items[j], t.elems[j].value) && HasJsonForm(v.items[j])
    requires out == [LBRACKET] + Joined(ElemTexts(t.elems)) + [RBRACKET]
    ensures Prints(fmt, v, t) && HasJsonForm(v) && out == Text(t)
  {
    if t.elems != [] {
      JoinedElems(t.elems);
    }
  }

  method MapToJson(fmt: Format, v: LoroValue) returns (r: Result<bytes>, ghost t: Tree)
    requires v.KMap?
    ensures r == Failure(NoJsonForm) || r.Success?
    ensures r.Success? <==> HasJsonForm(v)
    ensures r.Success? ==> Prints(fmt, v, t) && r.value == Text(t)
    decreases v, 0
  {
    hide Joined, Text, Prints, HasJsonForm, StringText, KeyOf, PrintedEntry, PrintedAll, PrintItems, ItemsText;
    t := TNull;
    JoinedNone([LBRACE]);
    var m := v.entries;
    var out, first := [LBRACE], true;
    ghost var entries: seq<Entry> := [];
    assert EntryTexts(entries) == [];
    PrintedNone(fmt, m);
    var rest := m.Keys;
    assert m.Keys - rest == {};
    while rest != {}
      invariant rest <= m.Keys
      invariant first <==> entries == []
      invariant PrintedAll(fmt, m, m.Keys - rest, entries)
      invariant out == [LBRACE] + Joined(EntryTexts(entries))
      decreases |rest|
    {
      var key :| key in rest;
      ghost var had := entries;
      if !first {
        out := out + [COMMA];
      }
      first := false;
      ghost var start := out;
      out := JsonEscape(key, out);
      out := out + [COLON];
      var text, tree := ValueToJson(fmt, m[key]);
      if text.Failure? {
        NoForm(v, m[key]);
        return Failure(NoJsonForm), t;
      }
      out := out + text.value;
      ghost var e := PrintedMember(key, tree);
      PrintedAllMore(fmt, m, m.Keys - rest, entries, key, tree);
      entries := entries + [e];
      assert m.Keys - (rest - {key}) == (m.Keys - rest) + {key};
      rest := rest - {key};
      ghost var part := StringText(e.key) + ([COLON] + Text(tree));
      assert out == start + part;
      assert EntryTexts(entries) == EntryTexts(had) + [part];
      JoinedMore(EntryTexts(had), part);
    }
    out := out + [RBRACE];
    t := TObject([], entries);
    assert m.Keys - rest == m.Keys;
    MapPrinted(fmt, v, t, out);
    return Success(out), t;
  }

  /** The members print the entries of m at the keys done, each once. */
  ghost predicate PrintedAll(fmt: Format, m: map<bytes, LoroValue>, done: set<bytes>, entries: seq<Entry>) {
    && (forall k :: 0 <= k < |entries| ==>
        PrintedEntry(entries[k]) && KeyOf(entries[k]) in m && KeyOf(entries[k]) in done)
    && (forall k :: 0 <= k < |entries| ==>
        KeyOf(entries[k]) in m && Prints(fmt, m[KeyOf(entries[k])], entries[k].value))
    && (forall j, k :: 0 <= j < k < |entries| ==> KeyOf(entries[j]) != KeyOf(entries[k]))
    && (forall key :: key in done ==> HasKey(entries, key))
    && forall key :: key in done && key in m ==> HasJsonForm(m[key])
  }

  lemma {:induction false} PrintedNone(fmt: Format, m: map<bytes, LoroValue>)
    ensures PrintedAll(fmt, m, {}, [])
  {
  }

  lemma {:induction false} PrintedAllMore(fmt: Format, m: map<bytes, LoroValue>, done: set<bytes>,
                                          entries: seq<Entry>, key: bytes, t: Tree)
    requires PrintedAll(fmt, m, done, entries) && key in m && key !in done
    requires Prints(fmt, m[key], t) && HasJsonForm(m[key])
    ensures PrintedAll(fmt, m, done + {key}, entries + [PrintedMember(key, t)])
  {
    hide Prints, HasJsonForm, KeyOf, PrintedEntry;
    var more := entries + [PrintedMember(key, t)];
    forall other | other in done + {key}
      ensures HasKey(more, other)
    {
      if other == key {
        assert KeyOf(more[|entries|]) == key;
      } else {
        assert HasKey(entries, other);
        var k :| 0 <= k < |entries| && KeyOf(entries[k]) == other;
        assert more[k] == entries[k];
      }
    }
  }

  lemma {:induction false} MapPrinted(fmt: Format, v: LoroValue, t: Tree, out: bytes)
    requires v.KMap? && t.TObject? && t.pad == []
    requires PrintedAll(fmt, v.entries, v.entries.Keys, t.entries)
    requires out == [LBRACE] + Joined(EntryTexts(t.entries)) + [RBRACE]
    ensures Prints(fmt, v, t) && HasJsonForm(v) && out == Text(t)
  {
    hide KeyOf, PrintedEntry;
    if t.entries != [] {
      JoinedEntries(t.entries);
    }
  }
}
