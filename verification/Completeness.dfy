/** The parser reads every tree's text as the document the tree denotes. */
module Completeness {
  import opened Bytes
  import opened Decimal
  import opened Outcome
  import opened Json
  import opened Grammar
  import opened Reader
  import Utf8

  lemma {:induction false} SkipSpaceOver(s: bytes, i: nat, w: bytes)
    requires At(s, i, w) && AllSpace(w)
    requires i + |w| < |s| ==> !Grammar.IsSpace(s[i + |w|])
    ensures SkipSpace(s, i) == i + |w|
    decreases |w|
  {
    if w != [] {
      AtFirst(s, i, w);
      AtConcat(s, i, [w[0]], w[1..]);
      assert w == [w[0]] + w[1..];
      SkipSpaceOver(s, i + 1, w[1..]);
    }
  }

  /** White space in front of a value does not change what is read. */
  lemma {:induction false} ValueAfterSpace(stod: Stod, s: bytes, i: nat)
    requires i <= |s|
    ensures ValueAt(stod, s, SkipSpace(s, i)) == ValueAt(stod, s, i)
  {
    SkipSpaceStops(s, i);
  }

  /** The \u branch emits the encoding of RFC 3629, section 3. */
  lemma {:induction false} EmitIsEncode(cp: nat)
    requires cp < 0x1_0000
    ensures EmitBmp(cp) == Utf8.Encode(cp)
  {
    assert cp / 0x40 / 0x40 == cp / 0x1000;
  }

  lemma {:induction false} CharComplete(s: bytes, i: nat, it: Item)
    requires ItemFits(it) && At(s, i, ItemText(it))
    ensures i < |s| && s[i] != QUOTE
    ensures CharAt(s, i) == Ok(ItemBytes(it), i + |ItemText(it)|)
  {
    AtFirst(s, i, ItemText(it));
    match it
    case Raw(b) =>
    case Escape(e) =>
      assert s[i..i + 2][1] == s[i + 1];
    case Unicode(hex) =>
      assert s[i..i + 6][1] == s[i + 1];
      AtConcat(s, i, [BACKSLASH, LETTER_U], hex);
      HexValueBound(hex);
      EmitIsEncode(HexValue(hex));
  }

  lemma {:induction false} CharsComplete(s: bytes, i: nat, items: seq<Item>)
    requires ItemsFit(items) && At(s, i, ItemsText(items) + [QUOTE])
    ensures CharsAt(s, i) == Ok(ItemsBytes(items), i + |ItemsText(items)| + 1)
    decreases |items|
  {
    if items == [] {
      assert ItemsText(items) + [QUOTE] == [QUOTE];
      AtByte(s, i, QUOTE);
    } else {
      var first, rest := ItemText(items[0]), ItemsText(items[1..]) + [QUOTE];
      assert ItemsText(items) + [QUOTE] == first + rest;
      AtConcat(s, i, first, rest);
      CharComplete(s, i, items[0]);
      CharsComplete(s, i + |first|, items[1..]);
    }
  }

  lemma {:induction false} StringComplete(s: bytes, i: nat, items: seq<Item>)
    requires ItemsFit(items) && At(s, i, StringText(items))
    ensures StringAt(s, i) == Ok(ItemsBytes(items), i + |StringText(items)|)
  {
    AtFirst(s, i, StringText(items));
    AtConcat(s, i, [QUOTE], ItemsText(items) + [QUOTE]);
    CharsComplete(s, i + 1, items);
  }

  lemma {:induction false} NumberEndOver(s: bytes, i: nat, lex: bytes)
    requires At(s, i, lex) && forall k :: 0 <= k < |lex| ==> IsNumberByte(lex[k])
    requires i + |lex| < |s| ==> !IsNumberByte(s[i + |lex|])
    ensures NumberEnd(s, i) == i + |lex|
    decreases |lex|
  {
    if lex != [] {
      AtFirst(s, i, lex);
      AtConcat(s, i, [lex[0]], lex[1..]);
      assert lex == [lex[0]] + lex[1..];
      NumberEndOver(s, i + 1, lex[1..]);
    }
  }

  /** A number ends where no further number byte follows; every other value ends by itself. */
  predicate Closed(t: Tree, s: bytes, e: nat) {
    t.TNumber? && e < |s| ==> !IsNumberByte(s[e])
  }

  /** Read at its first byte, the text of a tree gives the tree's document and stops at the text's end. */
  lemma {:induction false} ValueComplete(stod: Stod, s: bytes, i: nat, t: Tree)
    requires Fits(t) && At(s, i, Text(t)) && Closed(t, s, i + |Text(t)|)
    ensures ValueAt(stod, s, i) == Lift(Denote(stod, t), i + |Text(t)|)
    decreases t, 2
  {
    hide ArrayAt, ObjectAt, StringAt;
    TextStarts(t);
    AtFirst(s, i, Text(t));
    assert SkipSpace(s, i) == i;
    match t
    case TNull =>
    case TBool(b) =>
      if !b {
        assert s[i..i + 5][0] == FALSE_TEXT[0];
        AtTrueNot(s, i);
      }
    case TNumber(lex) => NumberEndOver(s, i, lex);
    case TString(items) => StringComplete(s, i, items);
    case TArray(pad, elems) => ArrayComplete(stod, s, i, t);
    case TObject(pad, entries) => ObjectComplete(stod, s, i, t);
  }

  lemma {:induction false} AtTrueNot(s: bytes, i: nat)
    requires At(s, i, FALSE_TEXT)
    ensures !At(s, i, TRUE_TEXT)
  {
    AtFirst(s, i, FALSE_TEXT);
    if At(s, i, TRUE_TEXT) {
      AtFirst(s, i, TRUE_TEXT);
      assert false;
    }
  }

  lemma {:induction false} ArrayComplete(stod: Stod, s: bytes, i: nat, t: Tree)
    requires t.TArray? && Fits(t) && At(s, i, Text(t))
    ensures i < |s| && ArrayAt(stod, s, i) == Lift(Denote(stod, t), i + |Text(t)|)
    decreases t, 1
  {
    hide ElementsAt, SkipSpace, ElemsText, DenoteElems, ArrayAt, Denote;
    AtFirst(s, i, Text(t));
    var tail := if t.elems == [] then t.pad + [RBRACKET] else ElemsText(t.elems);
    AtConcat(s, i, [LBRACKET], tail);
    if t.elems == [] {
      SpaceThen(s, i + 1, t.pad, [RBRACKET]);
      ArrayEmpty(stod, s, i, t);
    } else {
      ElemsStart(s, i + 1, t.elems);
      ElemsComplete(stod, s, i + 1, t.elems);
      ElementsAfterSpace(stod, s, i + 1);
      ArrayFrom(stod, s, i, t);
    }
  }

  lemma {:induction false} ArrayEmpty(stod: Stod, s: bytes, i: nat, t: Tree)
    requires i < |s| && t.TArray? && Fits(t) && t.elems == []
    requires SkipSpace(s, i + 1) == i + 1 + |t.pad| && Peek(s, i + 1 + |t.pad|) == RBRACKET
    ensures ArrayAt(stod, s, i) == Lift(Denote(stod, t), i + |Text(t)|)
  {
    hide SkipSpace;
  }

  lemma {:induction false} ArrayFrom(stod: Stod, s: bytes, i: nat, t: Tree)
    requires i < |s| && t.TArray? && Fits(t) && t.elems != [] && Peek(s, SkipSpace(s, i + 1)) != RBRACKET
    requires ElementsAt(stod, s, SkipSpace(s, i + 1)) == Lift(DenoteElems(stod, t.elems), i + 1 + |ElemsText(t.elems)|)
    ensures ArrayAt(stod, s, i) == Lift(Denote(stod, t), i + |Text(t)|)
  {
    hide ElementsAt, SkipSpace, ElemsText, DenoteElems, Fits;
  }

  lemma {:induction false} ElemsStart(s: bytes, i: nat, elems: seq<Elem>)
    requires elems != [] && ElemFits(elems[0]) && At(s, i, ElemsText(elems))
    ensures i <= |s| && Peek(s, SkipSpace(s, i)) != RBRACKET
  {
    hide SkipSpace, Text, Fits;
    var e := elems[0];
    TextStarts(e.value);
    SpaceThen(s, i, e.before, ElemsText(elems)[|e.before|..]);
    assert ElemsText(elems) == e.before + ElemsText(elems)[|e.before|..];
  }

  lemma {:induction false} EntriesStart(s: bytes, i: nat, entries: seq<Entry>)
    requires entries != [] && EntryFits(entries[0]) && At(s, i, EntriesText(entries))
    ensures i <= |s| && Peek(s, SkipSpace(s, i)) == QUOTE
  {
    hide SkipSpace, Text, Fits, ItemsText;
    var e := entries[0];
    SpaceThen(s, i, e.before, EntriesText(entries)[|e.before|..]);
    assert EntriesText(entries) == e.before + EntriesText(entries)[|e.before|..];
  }

  /** White space, then a byte that is none: the run is skipped and the rest stands behind it. */
  lemma {:induction false} SpaceThen(s: bytes, i: nat, w: bytes, rest: bytes)
    requires AllSpace(w) && At(s, i, w + rest) && rest != [] && !Grammar.IsSpace(rest[0])
    ensures SkipSpace(s, i) == i + |w| && At(s, i + |w|, rest) && i + |w| < |s| && s[i + |w|] == rest[0]
  {
    AtConcat(s, i, w, rest);
    AtFirst(s, i + |w|, rest);
    SkipSpaceOver(s, i, w);
  }

  lemma {:induction false} ElementsAfterSpace(stod: Stod, s: bytes, i: nat)
    requires i <= |s|
    ensures ElementsAt(stod, s, SkipSpace(s, i)) == ElementsAt(stod, s, i)
  {
    hide ValueAt;
    ValueAfterSpace(stod, s, i);
  }

  lemma {:induction false} ElemsComplete(stod: Stod, s: bytes, i: nat, elems: seq<Elem>)
    requires elems != [] && (forall k :: 0 <= k < |elems| ==> ElemFits(elems[k]))
    requires At(s, i, ElemsText(elems))
    ensures ElementsAt(stod, s, i) == Lift(DenoteElems(stod, elems), i + |ElemsText(elems)|)
    decreases elems, 1
  {
    hide ElementsAt, ValueAt, SkipSpace, Denote, Text, Fits, At;
    var e := elems[0];
    assert ElemFits(e) && e.value < e;
    var tail := if |elems| == 1 then [RBRACKET] else [COMMA] + ElemsText(elems[1..]);
    ElemComplete(stod, s, i, e, tail);
    var sep := i + |e.before| + |Text(e.value)| + |e.after|;
    if |elems| > 1 {
      AtConcat(s, sep, [COMMA], ElemsText(elems[1..]));
      ElemsComplete(stod, s, sep + 1, elems[1..]);
    } else {
      assert elems[1..] == [];
    }
    ElementsStep(stod, s, i, Denote(stod, e.value), sep - |e.after|, sep);
  }

  /** The loop of parse_array after one element. */
  lemma {:induction false} ElementsStep(stod: Stod, s: bytes, i: nat, v: Result<JsonValue>, end: nat, sep: nat)
    requires i <= |s| && ValueAt(stod, s, i) == Lift(v, end)
    requires end <= |s| && SkipSpace(s, end) == sep < |s|
    ensures v.Failure? ==> ElementsAt(stod, s, i) == Err(v.error)
    ensures v.Success? && s[sep] == RBRACKET ==> ElementsAt(stod, s, i) == Ok([v.value] + [], sep + 1)
    ensures v.Success? && s[sep] == COMMA ==>
              var rest := ElementsAt(stod, s, sep + 1);
              ElementsAt(stod, s, i) == if rest.Ok? then Ok([v.value] + rest.value, rest.end) else Err(rest.error)
  {
    hide ValueAt, SkipSpace;
    assert forall w: JsonValue :: [w] + [] == [w];
  }

  /** One element and the byte behind it. */
  lemma {:induction false} ElemComplete(stod: Stod, s: bytes, i: nat, e: Elem, tail: bytes)
    requires ElemFits(e) && At(s, i, e.before + (Text(e.value) + (e.after + tail)))
    requires tail != [] && !Grammar.IsSpace(tail[0]) && !IsNumberByte(tail[0])
    ensures var end := i + |e.before| + |Text(e.value)|;
            && ValueAt(stod, s, i) == Lift(Denote(stod, e.value), end)
            && SkipSpace(s, end) == end + |e.after| < |s| && s[end + |e.after|] == tail[0]
            && At(s, end + |e.after|, tail)
    decreases e.value, 3
  {
    hide ValueAt, SkipSpace, Denote, Text, Fits;
    var start := i + |e.before|;
    var end := start + |Text(e.value)|;
    TextStarts(e.value);
    SpaceThen(s, i, e.before, Text(e.value) + (e.after + tail));
    AtConcat(s, start, Text(e.value), e.after + tail);
    SpaceThen(s, end, e.after, tail);
    AtFirst(s, end, e.after + tail);
    assert e.after != [] ==> (e.after + tail)[0] == e.after[0] && Grammar.IsSpace(e.after[0]);
    assert !IsNumberByte((e.after + tail)[0]);
    ValueComplete(stod, s, start, e.value);
    ValueAfterSpace(stod, s, i);
  }

  lemma {:induction false} ObjectComplete(stod: Stod, s: bytes, i: nat, t: Tree)
    requires t.TObject? && Fits(t) && At(s, i, Text(t))
    ensures i < |s| && ObjectAt(stod, s, i) == Lift(Denote(stod, t), i + |Text(t)|)
    decreases t, 1
  {
    hide MembersAt, SkipSpace, EntriesText, DenoteEntries, ObjectAt, Denote;
    AtFirst(s, i, Text(t));
    var tail := if t.entries == [] then t.pad + [RBRACE] else EntriesText(t.entries);
    AtConcat(s, i, [LBRACE], tail);
    if t.entries == [] {
      SpaceThen(s, i + 1, t.pad, [RBRACE]);
      ObjectEmpty(stod, s, i, t);
    } else {
      EntriesStart(s, i + 1, t.entries);
      EntriesComplete(stod, s, i + 1, t.entries);
      MembersAfterSpace(stod, s, i + 1);
      ObjectFrom(stod, s, i, t);
    }
  }

  lemma {:induction false} ObjectEmpty(stod: Stod, s: bytes, i: nat, t: Tree)
    requires i < |s| && t.TObject? && Fits(t) && t.entries == []
    requires SkipSpace(s, i + 1) == i + 1 + |t.pad| && Peek(s, i + 1 + |t.pad|) == RBRACE
    ensures ObjectAt(stod, s, i) == Lift(Denote(stod, t), i + |Text(t)|)
  {
    hide SkipSpace;
  }

  lemma {:induction false} ObjectFrom(stod: Stod, s: bytes, i: nat, t: Tree)
    requires i < |s| && t.TObject? && Fits(t) && t.entries != [] && Peek(s, SkipSpace(s, i + 1)) != RBRACE
    requires MembersAt(stod, s, SkipSpace(s, i + 1)) ==
             Lift(DenoteEntries(stod, t.entries), i + 1 + |EntriesText(t.entries)|)
    ensures ObjectAt(stod, s, i) == Lift(Denote(stod, t), i + |Text(t)|)
  {
    hide MembersAt, SkipSpace, EntriesText, DenoteEntries, Fits;
  }

  lemma {:induction false} MembersAfterSpace(stod: Stod, s: bytes, i: nat)
    requires i <= |s|
    ensures MembersAt(stod, s, SkipSpace(s, i)) == MembersAt(stod, s, i)
  {
    hide ValueAt, StringAt;
    SkipSpaceStops(s, i);
    assert MemberAt(stod, s, SkipSpace(s, i)) == MemberAt(stod, s, i);
  }

  lemma {:induction false} EntriesComplete(stod: Stod, s: bytes, i: nat, entries: seq<Entry>)
    requires entries != [] && (forall k :: 0 <= k < |entries| ==> EntryFits(entries[k]))
    requires At(s, i, EntriesText(entries))
    ensures MembersAt(stod, s, i) == Lift(DenoteEntries(stod, entries), i + |EntriesText(entries)|)
    decreases entries, 1
  {
    hide MembersAt, MemberAt, SkipSpace, Denote, DenoteEntry, Text, StringText, EntryFits, At;
    var e := entries[0];
    assert EntryFits(e) && e.value < e;
    var tail := if |entries| == 1 then [RBRACE] else [COMMA] + EntriesText(entries[1..]);
    EntryComplete(stod, s, i, e, tail);
    var sep := EntryEnd(i, e) + |e.after|;
    if |entries| > 1 {
      AtConcat(s, sep, [COMMA], EntriesText(entries[1..]));
      EntriesComplete(stod, s, sep + 1, entries[1..]);
    } else {
      assert entries[1..] == [];
    }
    MembersStep(stod, s, i, DenoteEntry(stod, e), EntryEnd(i, e), sep);
  }

  /** The loop of parse_object after one member. */
  lemma {:induction false} MembersStep(stod: Stod, s: bytes, i: nat, m: Result<Member>, end: nat, sep: nat)
    requires i <= |s| && MemberAt(stod, s, i) == Lift(m, end)
    requires end <= |s| && SkipSpace(s, end) == sep < |s|
    ensures m.Failure? ==> MembersAt(stod, s, i) == Err(m.error)
    ensures m.Success? && s[sep] == RBRACE ==> MembersAt(stod, s, i) == Ok([m.value] + [], sep + 1)
    ensures m.Success? && s[sep] == COMMA ==>
              var rest := MembersAt(stod, s, sep + 1);
              MembersAt(stod, s, i) == if rest.Ok? then Ok([m.value] + rest.value, rest.end) else Err(rest.error)
  {
    hide MemberAt, SkipSpace;
    assert forall m: Member :: [m] + [] == [m];
  }

  /** Where the value of a member that starts at i ends. */
  function EntryEnd(i: nat, e: Entry): nat {
    i + |e.before| + |StringText(e.key)| + |e.gap| + 1 + |e.lead| + |Text(e.value)|
  }

  /** One member and the byte behind it. */
  lemma {:induction false} EntryComplete(stod: Stod, s: bytes, i: nat, e: Entry, tail: bytes)
    requires EntryFits(e)
    requires At(s, i, e.before +
                      (StringText(e.key) + (e.gap + ([COLON] + (e.lead + (Text(e.value) + (e.after + tail)))))))
    requires tail != [] && !Grammar.IsSpace(tail[0]) && !IsNumberByte(tail[0])
    ensures var end := EntryEnd(i, e);
            && MemberAt(stod, s, i) == Lift(DenoteEntry(stod, e), end)
            && SkipSpace(s, end) == end + |e.after| < |s| && s[end + |e.after|] == tail[0]
            && At(s, end + |e.after|, tail)
    decreases e.value, 4
  {
    hide ValueAt, SkipSpace, StringAt, CharsAt, Denote, Text, Fits, ItemsBytes, StringText, At;
    KeyComplete(s, i, e, e.lead + (Text(e.value) + (e.after + tail)));
    ElemComplete(stod, s, EntryEnd(i, e) - |Text(e.value)| - |e.lead|, Elem(e.lead, e.value, e.after), tail);
  }

  lemma {:induction false} StringTextStarts(items: seq<Item>)
    ensures StringText(items) != [] && StringText(items)[0] == QUOTE
  {
  }

  /** The key and the colon of a member, with anything behind them. */
  lemma {:induction false} KeyComplete(s: bytes, i: nat, e: Entry, rest: bytes)
    requires EntryFits(e) && At(s, i, e.before + (StringText(e.key) + (e.gap + ([COLON] + rest))))
    ensures var key := i + |e.before|;
            var gap := key + |StringText(e.key)|;
            var colon := gap + |e.gap|;
            && SkipSpace(s, i) == key < |s| && s[key] == QUOTE
            && StringAt(s, key) == Ok(ItemsBytes(e.key), gap)
            && gap <= |s| && SkipSpace(s, gap) == colon < |s| && s[colon] == COLON
            && At(s, colon + 1, rest)
  {
    hide SkipSpace, CharsAt, StringAt, ItemsText, ItemsBytes, Text, Fits, At, StringText;
    StringTextStarts(e.key);
    var key := i + |e.before|;
    var gap := key + |StringText(e.key)|;
    var value := [COLON] + rest;
    SpaceThen(s, i, e.before, StringText(e.key) + (e.gap + value));
    AtConcat(s, key, StringText(e.key), e.gap + value);
    StringComplete(s, key, e.key);
    SpaceThen(s, gap, e.gap, value);
    AtConcat(s, gap + |e.gap|, [COLON], rest);
  }
}
