/** Well-formed UTF-8 in, well-formed UTF-8 out: parsed strings and keys. */
module JsonUtf8 {
  import opened Bytes
  import opened Outcome
  import opened Json
  import opened Grammar
  import opened Reader
  import opened Completeness
  import opened Soundness
  import opened Surrogates
  import Rfc8259
  import opened Utf8

  /** Every string and key of a document is well-formed. */
  predicate AllUtf8(j: JsonValue)
    decreases j
  {
    match j
    case String(s) => WellFormed(s)
    case Array(arr) => forall k :: 0 <= k < |arr| ==> AllUtf8(arr[k])
    case Object(obj) => forall k :: 0 <= k < |obj| ==> MemberUtf8(obj[k])
    case _ => true
  }

  predicate MemberUtf8(m: Member)
    decreases m
  {
    WellFormed(m.key) && AllUtf8(m.value)
  }

  // Cutting a text that the automaton does not reject.

  lemma {:induction false} NotRejectedPrefix(st: State, a: bytes, b: bytes)
    requires Run(st, a + b) != Reject
    ensures Run(st, a) != Reject
  {
    RunConcat(st, a, b);
    RunReject(b);
  }

  /** Behind a piece that is empty or ends in ASCII, the automaton is between characters. */
  lemma {:induction false} NotRejectedTail(a: bytes, b: bytes)
    requires Run(Start, a + b) != Reject && (a != [] ==> a[|a| - 1] < 0x80)
    ensures Run(Start, a) == Start && Run(Start, b) != Reject
  {
    NotRejectedPrefix(Start, a, b);
    RunConcat(Start, a, b);
    if a != [] {
      assert a == a[..|a| - 1] + [a[|a| - 1]];
      AfterAscii(Start, a[..|a| - 1], a[|a| - 1]);
    }
  }

  /** The automaton moves over one character's bytes as over its text, unless it names a surrogate. */
  lemma {:induction false} ItemLockstep(st: State, it: Item)
    requires ItemFits(it) && Run(st, ItemText(it)) != Reject
    ensures Run(st, ItemBytes(it)) == if ItemFree(it) then Run(st, ItemText(it)) else Reject
  {
    match it
    case Raw(b) =>
    case Escape(e) =>
      RunUnfold(st, ItemText(it));
      RunUnfold(st, ItemBytes(it));
    case Unicode(hex) =>
      var t := ItemText(it);
      assert t == [BACKSLASH, LETTER_U, hex[0], hex[1], hex[2], hex[3]];
      assert t == [BACKSLASH] + t[1..];
      RunConcat(st, [BACKSLASH], t[1..]);
      RunByte(st, BACKSLASH);
      RunReject(t[1..]);
      AsciiRun(t);
      HexValueBound(hex);
      RunEncodeBmp(HexValue(hex));
  }

  lemma {:induction false} ItemsLockstep(st: State, items: seq<Item>)
    requires ItemsFit(items) && Run(st, ItemsText(items)) != Reject
    ensures Run(st, ItemsBytes(items)) == if ItemsFree(items) then Run(st, ItemsText(items)) else Reject
    decreases |items|
  {
    if items != [] {
      var t, b := ItemText(items[0]), ItemBytes(items[0]);
      NotRejectedPrefix(st, t, ItemsText(items[1..]));
      RunConcat(st, t, ItemsText(items[1..]));
      RunConcat(st, b, ItemsBytes(items[1..]));
      ItemLockstep(st, items[0]);
      ItemsLockstep(Run(st, t), items[1..]);
      RunReject(ItemsBytes(items[1..]));
      assert ItemsFree(items) <==> ItemFree(items[0]) && ItemsFree(items[1..]) by {
        assert forall k :: 1 <= k < |items| ==> items[k] == items[1..][k - 1];
      }
    }
  }

  lemma {:induction false} StringUtf8(items: seq<Item>)
    requires ItemsFit(items) && Run(Start, StringText(items)) != Reject
    ensures WellFormed(ItemsBytes(items)) <==> ItemsFree(items)
  {
    NotRejectedTail([QUOTE], ItemsText(items) + [QUOTE]);
    AfterAscii(Start, ItemsText(items), QUOTE);
    ItemsLockstep(Start, items);
  }

  /** The text of a value ends in ASCII. */
  lemma {:induction false} TextEndsAscii(t: Tree)
    requires Fits(t)
    ensures Text(t) != [] && Text(t)[|Text(t)| - 1] < 0x80
    decreases t
  {
    match t
    case TString(items) => assert StringText(items)[|StringText(items)| - 1] == QUOTE;
    case TArray(_, elems) =>
      if elems != [] {
        ElemsTextEnds(elems);
      }
    case TObject(_, entries) =>
      if entries != [] {
        EntriesTextEnds(entries);
      }
    case _ =>
  }

  lemma {:induction false} ElemsTextEnds(elems: seq<Elem>)
    requires elems != []
    ensures ElemsText(elems) != [] && ElemsText(elems)[|ElemsText(elems)| - 1] == RBRACKET
    decreases |elems|
  {
    if |elems| > 1 {
      ElemsTextEnds(elems[1..]);
    }
  }

  lemma {:induction false} EntriesTextEnds(entries: seq<Entry>)
    requires entries != []
    ensures EntriesText(entries) != [] && EntriesText(entries)[|EntriesText(entries)| - 1] == RBRACE
    decreases |entries|
  {
    if |entries| > 1 {
      EntriesTextEnds(entries[1..]);
    }
  }

  lemma {:induction false} TreeUtf8(stod: Stod, t: Tree)
    requires Fits(t) && Denote(stod, t).Success? && Run(Start, Text(t)) != Reject
    ensures AllUtf8(Denote(stod, t).value) <==> SurrogateFree(t)
    decreases t, 0
  {
    match t
    case TString(items) => StringUtf8(items);
    case TArray(_, elems) =>
      if elems != [] {
        NotRejectedTail([LBRACKET], ElemsText(elems));
        ElemsUtf8(stod, elems);
      }
    case TObject(_, entries) =>
      if entries != [] {
        NotRejectedTail([LBRACE], EntriesText(entries));
        EntriesUtf8(stod, entries);
      }
    case _ =>
  }

  lemma {:induction false} ElemsUtf8(stod: Stod, elems: seq<Elem>)
    requires elems != [] && (forall k :: 0 <= k < |elems| ==> ElemFits(elems[k]))
    requires DenoteElems(stod, elems).Success? && Run(Start, ElemsText(elems)) != Reject
    ensures var arr := DenoteElems(stod, elems).value;
            forall k :: 0 <= k < |elems| ==> (AllUtf8(arr[k]) <==> ElemFree(elems[k]))
    decreases elems, 0
  {
    hide Text, Denote, Fits, AllUtf8, ElemFree, Run;
    var e := elems[0];
    assert ElemFits(e) && e.value < e;
    var tail := if |elems| == 1 then [RBRACKET] else [COMMA] + ElemsText(elems[1..]);
    ElemUtf8(stod, e, tail);
    var arr := DenoteElems(stod, elems).value;
    if |elems| > 1 {
      NotRejectedTail([COMMA], ElemsText(elems[1..]));
      ElemsUtf8(stod, elems[1..]);
      forall k | 1 <= k < |elems|
        ensures AllUtf8(arr[k]) <==> ElemFree(elems[k])
      {
        assert elems[k] == elems[1..][k - 1] && arr[k] == DenoteElems(stod, elems[1..]).value[k - 1];
      }
    }
  }

  /** One value between white space, with the rest of the text behind it. */
  lemma {:induction false} ElemUtf8(stod: Stod, e: Elem, tail: bytes)
    requires ElemFits(e) && Denote(stod, e.value).Success?
    requires Run(Start, e.before + (Text(e.value) + (e.after + tail))) != Reject
    ensures AllUtf8(Denote(stod, e.value).value) <==> ElemFree(e)
    ensures Run(Start, tail) != Reject
    decreases e.value, 1
  {
    hide Text, Denote, Fits, AllUtf8;
    NotRejectedTail(e.before, Text(e.value) + (e.after + tail));
    NotRejectedPrefix(Start, Text(e.value), e.after + tail);
    TreeUtf8(stod, e.value);
    TextEndsAscii(e.value);
    NotRejectedTail(Text(e.value), e.after + tail);
    NotRejectedTail(e.after, tail);
  }

  lemma {:induction false} EntriesUtf8(stod: Stod, entries: seq<Entry>)
    requires entries != [] && (forall k :: 0 <= k < |entries| ==> EntryFits(entries[k]))
    requires DenoteEntries(stod, entries).Success? && Run(Start, EntriesText(entries)) != Reject
    ensures var obj := DenoteEntries(stod, entries).value;
            forall k :: 0 <= k < |entries| ==> (MemberUtf8(obj[k]) <==> EntryFree(entries[k]))
    decreases entries, 0
  {
    hide Text, StringText, Denote, DenoteEntry, Fits, AllUtf8, MemberUtf8, EntryFree, ItemsBytes, Run;
    var e := entries[0];
    assert EntryFits(e) && e.value < e;
    var tail := if |entries| == 1 then [RBRACE] else [COMMA] + EntriesText(entries[1..]);
    EntryUtf8(stod, e, tail);
    var obj := DenoteEntries(stod, entries).value;
    if |entries| > 1 {
      NotRejectedTail([COMMA], EntriesText(entries[1..]));
      EntriesUtf8(stod, entries[1..]);
      forall k | 1 <= k < |entries|
        ensures MemberUtf8(obj[k]) <==> EntryFree(entries[k])
      {
        assert entries[k] == entries[1..][k - 1] && obj[k] == DenoteEntries(stod, entries[1..]).value[k - 1];
      }
    }
  }

  lemma {:induction false} EntryUtf8(stod: Stod, e: Entry, tail: bytes)
    requires EntryFits(e) && DenoteEntry(stod, e).Success?
    requires var value := e.lead + (Text(e.value) + (e.after + tail));
             Run(Start, e.before + (StringText(e.key) + (e.gap + ([COLON] + value)))) != Reject
    ensures MemberUtf8(DenoteEntry(stod, e).value) <==> EntryFree(e)
    ensures Run(Start, tail) != Reject
    decreases e.value, 2
  {
    hide Text, Denote, Fits, AllUtf8, ItemsText, ItemsBytes;
    var value := e.lead + (Text(e.value) + (e.after + tail));
    NotRejectedTail(e.before, StringText(e.key) + (e.gap + ([COLON] + value)));
    NotRejectedPrefix(Start, StringText(e.key), e.gap + ([COLON] + value));
    StringUtf8(e.key);
    assert StringText(e.key)[|StringText(e.key)| - 1] == QUOTE;
    NotRejectedTail(StringText(e.key), e.gap + ([COLON] + value));
    NotRejectedTail(e.gap, [COLON] + value);
    NotRejectedTail([COLON], value);
    ElemUtf8(stod, Elem(e.lead, e.value, e.after), tail);
  }

  /**
   In an accepted text of well-formed UTF-8, every parsed string and key is well-formed UTF-8
   exactly when no escape of the text names a surrogate.
   */
  lemma {:induction false} Utf8Preserved(stod: Stod, s: bytes, w: bytes, t: Tree)
    requires WellFormed(s) && TreeAt(s, 0, w, t) && Denote(stod, t).Success?
    ensures Parse(stod, s) == Denote(stod, t)
    ensures AllUtf8(Parse(stod, s).value) <==> SurrogateFree(t)
  {
    Rfc8259.DocumentOfTree(stod, s, w, t);
    var n := |w| + |Text(t)|;
    assert s == (w + Text(t)) + s[n..];
    NotRejectedPrefix(Start, w + Text(t), s[n..]);
    NotRejectedTail(w, Text(t));
    TreeUtf8(stod, t);
  }

  /**
   The same on the text alone: what the parser read of a well-formed text gives well-formed strings and keys
   only, exactly when no escape in it names a surrogate.
   */
  lemma {:induction false} ParsedIsUtf8(stod: Stod, s: bytes)
    requires WellFormed(s) && ValueAt(stod, s, 0).Ok?
    ensures Parse(stod, s) == Success(ValueAt(stod, s, 0).value)
    ensures AllUtf8(ValueAt(stod, s, 0).value) <==> NoSurrogateEscape(s[..ValueAt(stod, s, 0).end])
    ensures NoSurrogateEscape(s) ==> AllUtf8(ValueAt(stod, s, 0).value)
  {
    hide ValueAt, Text, Fits, Denote, AllUtf8, NoSurrogateEscape, Sealed;
    var w, t := ValueSound(stod, s, 0);
    var e := ValueAt(stod, s, 0).end;
    assert s[..e] == w + Text(t) by {
      assert s[0..e] == s[..e];
    }
    Utf8Preserved(stod, s, w, t);
    AroundTree(w, t, []);
    assert w + Text(t) + [] == w + Text(t);
    assert s == s[..e] + s[e..];
    if NoSurrogateEscape(s) {
      WholePrefix(s[..e], s[e..]);
    }
  }

  lemma {:induction false} WholePrefix(a: bytes, b: bytes)
    requires Sealed(a) && NoSurrogateEscape(a + b)
    ensures NoSurrogateEscape(a)
  {
    hide Units;
    assert Units(a + b) == Units(a) + Units(b);
    assert forall k :: 0 <= k < |Units(a)| ==> Units(a + b)[k] == Units(a)[k];
  }
}
