/** The text of value_to_json as UTF-8. */
module PrintedUtf8 {
  import opened Bytes
  import opened Decimal
  import opened Outcome
  import opened Json
  import opened Grammar
  import opened LoroValues
  import opened Documents
  import opened Rfc8259
  import opened Surrogates
  import opened NonFinite
  import opened Printer
  import opened RoundTrip
  import opened ValueBridge
  import opened Utf8

  /** Every string and key of the value is well-formed. */
  predicate ValueUtf8(v: LoroValue) {
    match v
    case KString(s) => WellFormed(s)
    case KList(items) => forall k :: 0 <= k < |items| ==> ValueUtf8(items[k])
    case KMap(entries) => forall key :: key in entries ==> WellFormed(key) && ValueUtf8(entries[key])
    case _ => true
  }

  /** Text that ends between characters whatever stands in front of it. */
  predicate EndsAscii(t: bytes) {
    t != [] && t[|t| - 1] < 0x80
  }

  /** Behind an ASCII byte the text can be cut. */
  lemma {:induction false} Cut(a: bytes, b: bytes)
    requires EndsAscii(a)
    ensures WellFormed(a + b) <==> WellFormed(a) && WellFormed(b)
  {
    hide Step;
    RunConcat(Start, a, b);
    if Run(Start, a) == Reject {
      RunReject(b);
    } else {
      assert a == a[..|a| - 1] + [a[|a| - 1]];
      AfterAscii(Start, a[..|a| - 1], a[|a| - 1]);
    }
  }

  lemma {:induction false} AsciiText(t: bytes)
    requires IsAscii(t)
    ensures WellFormed(t)
    ensures t != [] ==> EndsAscii(t)
  {
    AsciiRun(t);
  }

  lemma {:induction false} DoubleText(fmt: Format, d: F64)
    requires IsPrintf(fmt)
    ensures fmt(d) != [] && IsAscii(fmt(d))
  {
    if IsNumber(fmt(d)) {
      NumberOf(fmt(d));
    }
  }

  /** What value_to_json prints is well-formed UTF-8 exactly when every string and key of the value is. */
  lemma {:induction false} PrintedIsUtf8(fmt: Format, v: LoroValue, t: Tree)
    requires IsPrintf(fmt) && HasJsonForm(v) && Prints(fmt, v, t)
    ensures EndsAscii(Text(t))
    ensures WellFormed(Text(t)) <==> ValueUtf8(v)
    decreases v, 3
  {
    hide WellFormed, IsPrintf, ToString, ElemsText, EntriesText;
    match v
    case KDouble(d) =>
      DoubleText(fmt, d);
      AsciiText(fmt(d));
    case KI64(i) =>
      DecimalAscii(i);
      DecimalNotEmpty(i);
      AsciiText(ToString(i));
    case KString(s) => EscapeUtf8(s);
    case KList(items) =>
      if items == [] {
        AsciiText(Text(t));
      } else {
        ElemsUtf8(fmt, items, t.elems);
        AsciiText([LBRACKET]);
        Cut([LBRACKET], ElemsText(t.elems));
      }
    case KMap(entries) => MapUtf8(fmt, v, t);
    case _ => AsciiText(Text(t));
  }

  lemma {:induction false} DecimalNotEmpty(n: int)
    ensures ToString(n) != []
  {
  }

  lemma {:induction false} ElemsUtf8(fmt: Format, items: seq<LoroValue>, elems: seq<Elem>)
    requires IsPrintf(fmt) && |elems| == |items| > 0
    requires forall k :: 0 <= k < |items| ==> HasJsonForm(items[k])
    requires forall k :: 0 <= k < |items| ==>
      elems[k] == Elem([], elems[k].value, []) && Prints(fmt, items[k], elems[k].value)
    ensures EndsAscii(ElemsText(elems))
    ensures WellFormed(ElemsText(elems)) <==> forall k :: 0 <= k < |items| ==> ValueUtf8(items[k])
    decreases items, 1
  {
    hide WellFormed, IsPrintf, Prints, HasJsonForm, ValueUtf8, Text;
    var text := Text(elems[0].value);
    var tail := if |elems| == 1 then [RBRACKET] else [COMMA] + ElemsText(elems[1..]);
    PrintedIsUtf8(fmt, items[0], elems[0].value);
    if |elems| == 1 {
      AsciiText(tail);
    } else {
      ElemsUtf8(fmt, items[1..], elems[1..]);
      AsciiText([COMMA]);
      Cut([COMMA], ElemsText(elems[1..]));
      assert forall k :: 1 <= k < |items| ==> items[k] == items[1..][k - 1];
    }
    Cut(text, tail);
    assert ElemsText(elems) == text + tail;
  }

  lemma {:induction false} MapUtf8(fmt: Format, v: LoroValue, t: Tree)
    requires v.KMap? && IsPrintf(fmt) && HasJsonForm(v) && Prints(fmt, v, t)
    ensures EndsAscii(Text(t))
    ensures WellFormed(Text(t)) <==> ValueUtf8(v)
    decreases v, 2
  {
    hide WellFormed, IsPrintf, KeyOf, EntriesText;
    if t.entries == [] {
      AsciiText(Text(t));
      NoNames(t, v.entries);
    } else {
      forall k | 0 <= k < |t.entries|
        ensures HasJsonForm(v.entries[KeyOf(t.entries[k])])
      {
      }
      EntriesUtf8(fmt, v, t.entries);
      AsciiText([LBRACE]);
      Cut([LBRACE], EntriesText(t.entries));
      EveryName(v.entries, t.entries);
    }
  }

  lemma {:induction false} NoNames(t: Tree, m: map<bytes, LoroValue>)
    requires t.TObject? && t.entries == [] && forall key :: key in m ==> HasKey(t.entries, key)
    ensures m.Keys == {}
  {
  }

  predicate EntryUtf8(m: map<bytes, LoroValue>, e: Entry) {
    KeyOf(e) in m && WellFormed(KeyOf(e)) && ValueUtf8(m[KeyOf(e)])
  }

  lemma {:induction false} EveryName(m: map<bytes, LoroValue>, entries: seq<Entry>)
    requires forall k :: 0 <= k < |entries| ==> KeyOf(entries[k]) in m
    requires forall key :: key in m ==> HasKey(entries, key)
    ensures (forall k :: 0 <= k < |entries| ==> EntryUtf8(m, entries[k])) <==> ValueUtf8(KMap(m))
  {
    hide KeyOf, WellFormed;
    if forall k :: 0 <= k < |entries| ==> EntryUtf8(m, entries[k]) {
      forall key | key in m
        ensures WellFormed(key) && ValueUtf8(m[key])
      {
        assert HasKey(entries, key);
        var k :| 0 <= k < |entries| && KeyOf(entries[k]) == key;
        assert EntryUtf8(m, entries[k]);
      }
    }
  }

  lemma {:induction false} EntriesUtf8(fmt: Format, v: LoroValue, entries: seq<Entry>)
    requires IsPrintf(fmt) && entries != [] && v.KMap?
    requires forall k :: 0 <= k < |entries| ==> PrintedEntry(entries[k]) && KeyOf(entries[k]) in v.entries
    requires forall k :: 0 <= k < |entries| ==> HasJsonForm(v.entries[KeyOf(entries[k])])
    requires forall k :: 0 <= k < |entries| ==> Prints(fmt, v.entries[KeyOf(entries[k])], entries[k].value)
    ensures EndsAscii(EntriesText(entries))
    ensures WellFormed(EntriesText(entries)) <==> forall k :: 0 <= k < |entries| ==> EntryUtf8(v.entries, entries[k])
    decreases v, 1, |entries|
  {
    hide WellFormed, IsPrintf, Prints, HasJsonForm, ValueUtf8, Text, KeyOf, StringText, EntriesText;
    var e := entries[0];
    var tail := if |entries| == 1 then [RBRACE] else [COMMA] + EntriesText(entries[1..]);
    assert PrintedEntry(e) && KeyOf(e) in v.entries;
    PrintedIsUtf8(fmt, v.entries[KeyOf(e)], e.value);
    if |entries| == 1 {
      AsciiText(tail);
    } else {
      EntriesUtf8(fmt, v, entries[1..]);
      AsciiText([COMMA]);
      Cut([COMMA], EntriesText(entries[1..]));
      assert forall k :: 1 <= k < |entries| ==> entries[k] == entries[1..][k - 1];
    }
    EscapeUtf8(KeyOf(e));
    MemberCut(e.key, Text(e.value), tail);
    PrintedText(entries, tail);
  }

  lemma {:induction false} MemberCut(key: seq<Item>, text: bytes, tail: bytes)
    requires EndsAscii(text) && EndsAscii(tail)
    ensures var s := StringText(key) + ([COLON] + (text + tail));
            EndsAscii(s) && (WellFormed(s) <==> WellFormed(StringText(key)) && WellFormed(text) && WellFormed(tail))
  {
    hide WellFormed, StringText;
    AsciiText([COLON]);
    QuoteLast(key);
    Cut(text, tail);
    Cut([COLON], text + tail);
    Cut(StringText(key), [COLON] + (text + tail));
  }

  lemma {:induction false} PrintedText(entries: seq<Entry>, tail: bytes)
    requires entries != [] && PrintedEntry(entries[0])
    requires tail == if |entries| == 1 then [RBRACE] else [COMMA] + EntriesText(entries[1..])
    ensures EntriesText(entries) == StringText(entries[0].key) + ([COLON] + (Text(entries[0].value) + tail))
  {
    hide Text, StringText, KeyOf, PrintItems;
  }

  lemma {:induction false} QuoteLast(items: seq<Item>)
    ensures EndsAscii(StringText(items))
  {
  }

  /** The values that to_c_value converts are those without containers whose strings and keys are well-formed. */
  lemma {:induction false} ConvertibleMeans(v: LoroValue)
    ensures Convertible(v) <==> ContainerFree(v) && ValueUtf8(v)
  {
    match v
    case KList(items) =>
      forall k | 0 <= k < |items|
        ensures Convertible(items[k]) <==> ContainerFree(items[k]) && ValueUtf8(items[k])
      {
        ConvertibleMeans(items[k]);
      }
    case KMap(entries) =>
      forall key | key in entries
        ensures EntryConvertible(key, entries[key]) <==>
                WellFormed(key) && ContainerFree(entries[key]) && ValueUtf8(entries[key])
      {
        ConvertibleMeans(entries[key]);
      }
    case _ =>
  }
}
