/** Every text the parser reads is the text of a tree, and what it returns is that tree's document. */
module Soundness {
  import opened Bytes
  import opened Outcome
  import opened Json
  import opened Grammar
  import opened Reader
  import opened Completeness

  lemma {:induction false} CharSound(s: bytes, i: nat) returns (it: Item)
    requires i < |s| && s[i] != QUOTE && CharAt(s, i).Ok?
    ensures ItemFits(it) && At(s, i, ItemText(it))
    ensures CharAt(s, i) == Ok(ItemBytes(it), i + |ItemText(it)|)
  {
    if s[i] != BACKSLASH {
      it := Raw(s[i]);
      AtByte(s, i, s[i]);
    } else if s[i + 1] == LETTER_U {
      it := Unicode(s[i + 2..i + 6]);
      assert s[i..i + 6] == [BACKSLASH, LETTER_U] + s[i + 2..i + 6];
      CharComplete(s, i, it);
    } else {
      it := Escape(s[i + 1]);
      assert s[i..i + 2] == [BACKSLASH, s[i + 1]];
    }
  }

  lemma {:induction false} CharsSound(s: bytes, i: nat) returns (items: seq<Item>)
    requires i <= |s| && CharsAt(s, i).Ok?
    ensures ItemsFit(items) && At(s, i, ItemsText(items) + [QUOTE])
    ensures CharsAt(s, i) == Ok(ItemsBytes(items), i + |ItemsText(items)| + 1)
    decreases |s| - i
  {
    if s[i] == QUOTE {
      items := [];
      AtByte(s, i, QUOTE);
      assert ItemsText([]) + [QUOTE] == [QUOTE];
    } else {
      var it := CharSound(s, i);
      var rest := CharsSound(s, CharAt(s, i).end);
      items := [it] + rest;
      assert items[1..] == rest;
      AtConcat(s, i, ItemText(it), ItemsText(rest) + [QUOTE]);
      assert ItemsText(items) + [QUOTE] == ItemText(it) + (ItemsText(rest) + [QUOTE]);
    }
  }

  lemma {:induction false} StringSound(s: bytes, i: nat) returns (items: seq<Item>)
    requires i <= |s| && StringAt(s, i).Ok?
    ensures ItemsFit(items) && At(s, i, StringText(items))
    ensures StringAt(s, i) == Ok(ItemsBytes(items), i + |StringText(items)|)
  {
    items := CharsSound(s, i + 1);
    AtByte(s, i, QUOTE);
    AtConcat(s, i, [QUOTE], ItemsText(items) + [QUOTE]);
  }

  /** White space w and the tree t stand at i, and t ends there. */
  predicate TreeAt(s: bytes, i: nat, w: bytes, t: Tree) {
    AllSpace(w) && Fits(t) && At(s, i, w + Text(t)) && Closed(t, s, i + |w| + |Text(t)|)
  }

  lemma {:induction false} SpaceSound(s: bytes, i: nat)
    requires i <= |s|
    ensures var e := SkipSpace(s, i); At(s, i, s[i..e]) && AllSpace(s[i..e])
  {
    SkipSpaceStops(s, i);
  }

  lemma {:induction false} ValueSound(stod: Stod, s: bytes, i: nat) returns (w: bytes, t: Tree)
    requires i <= |s| && ValueAt(stod, s, i).Ok?
    ensures TreeAt(s, i, w, t)
    ensures Lift(Denote(stod, t), i + |w| + |Text(t)|) == ValueAt(stod, s, i)
    decreases |s| - i, 2
  {
    hide ObjectAt, ArrayAt, StringAt, BoolAt, NullAt, NumberAt, Denote, Text, Fits;
    var k := SkipSpace(s, i);
    w := s[i..k];
    SpaceSound(s, i);
    ghost var c := Peek(s, k);
    SkipSpaceStops(s, i);
    if c == LBRACE {
      t := ObjectSound(stod, s, k);
    } else if c == LBRACKET {
      t := ArraySound(stod, s, k);
    } else {
      t := ScalarSound(stod, s, k);
    }
    AtConcat(s, i, w, Text(t));
  }

  lemma {:induction false} ScalarSound(stod: Stod, s: bytes, i: nat) returns (t: Tree)
    requires i <= |s| && SkipSpace(s, i) == i && ValueAt(stod, s, i).Ok?
    requires Peek(s, i) != LBRACE && Peek(s, i) != LBRACKET
    ensures Fits(t) && At(s, i, Text(t)) && Closed(t, s, i + |Text(t)|)
    ensures ValueAt(stod, s, i) == Lift(Denote(stod, t), i + |Text(t)|)
  {
    hide StringText, StringAt, ReadNumber;
    var c := Peek(s, i);
    if c == QUOTE {
      var items := StringSound(s, i);
      t := TString(items);
    } else if c == TRUE_TEXT[0] || c == FALSE_TEXT[0] {
      t := TBool(At(s, i, TRUE_TEXT));
    } else if c == NULL_TEXT[0] {
      t := TNull;
    } else {
      t := TNumber(s[i..NumberEnd(s, i)]);
    }
  }

  lemma {:induction false} ArraySound(stod: Stod, s: bytes, i: nat) returns (t: Tree)
    requires i < |s| && s[i] == LBRACKET && ArrayAt(stod, s, i).Ok?
    ensures t.TArray? && Fits(t) && At(s, i, Text(t))
    ensures ArrayAt(stod, s, i) == Lift(Denote(stod, t), i + |Text(t)|)
    decreases |s| - i, 1
  {
    hide ElementsAt, SkipSpace, ElemsText;
    var k := SkipSpace(s, i + 1);
    SpaceSound(s, i + 1);
    AtByte(s, i, LBRACKET);
    if Peek(s, k) == RBRACKET {
      t := TArray(s[i + 1..k], []);
      AtByte(s, k, RBRACKET);
      AtConcat(s, i + 1, t.pad, [RBRACKET]);
      AtConcat(s, i, [LBRACKET], t.pad + [RBRACKET]);
    } else {
      ElementsAfterSpace(stod, s, i + 1);
      var elems := ElementsSound(stod, s, i + 1);
      t := TArray([], elems);
      AtConcat(s, i, [LBRACKET], ElemsText(elems));
    }
  }

  lemma {:induction false} ElementsSound(stod: Stod, s: bytes, i: nat) returns (elems: seq<Elem>)
    requires i <= |s| && ElementsAt(stod, s, i).Ok?
    ensures elems != [] && forall k :: 0 <= k < |elems| ==> ElemFits(elems[k])
    ensures At(s, i, ElemsText(elems))
    ensures ElementsAt(stod, s, i) == Lift(DenoteElems(stod, elems), i + |ElemsText(elems)|)
    decreases |s| - i, 3
  {
    hide ValueAt, SkipSpace, At, Text, Fits, Denote;
    var w, t := ValueSound(stod, s, i);
    var end := i + |w| + |Text(t)|;
    var sep := SkipSpace(s, end);
    SpaceSound(s, end);
    var e := Elem(w, t, s[end..sep]);
    var tail: bytes;
    if Peek(s, sep) == COMMA {
      var rest := ElementsSound(stod, s, sep + 1);
      elems := [e] + rest;
      assert elems[1..] == rest;
      tail := [COMMA] + ElemsText(rest);
      AtByte(s, sep, COMMA);
      AtConcat(s, sep, [COMMA], ElemsText(rest));
    } else {
      elems := [e];
      tail := [RBRACKET];
      AtByte(s, sep, RBRACKET);
      assert forall v: JsonValue :: [v] + [] == [v];
    }
    AtConcat(s, i, w, Text(t));
    AtConcat(s, end, e.after, tail);
    AtConcat(s, i + |w|, Text(t), e.after + tail);
    AtConcat(s, i, w, Text(t) + (e.after + tail));
    assert ElemsText(elems) == w + (Text(t) + (e.after + tail));
  }

  lemma {:induction false} ObjectSound(stod: Stod, s: bytes, i: nat) returns (t: Tree)
    requires i < |s| && s[i] == LBRACE && ObjectAt(stod, s, i).Ok?
    ensures t.TObject? && Fits(t) && At(s, i, Text(t))
    ensures ObjectAt(stod, s, i) == Lift(Denote(stod, t), i + |Text(t)|)
    decreases |s| - i, 1
  {
    hide MembersAt, SkipSpace, EntriesText;
    var k := SkipSpace(s, i + 1);
    SpaceSound(s, i + 1);
    AtByte(s, i, LBRACE);
    if Peek(s, k) == RBRACE {
      t := TObject(s[i + 1..k], []);
      AtByte(s, k, RBRACE);
      AtConcat(s, i + 1, t.pad, [RBRACE]);
      AtConcat(s, i, [LBRACE], t.pad + [RBRACE]);
    } else {
      MembersAfterSpace(stod, s, i + 1);
      var entries := MembersSound(stod, s, i + 1);
      t := TObject([], entries);
      AtConcat(s, i, [LBRACE], EntriesText(entries));
    }
  }

  lemma {:induction false} MembersSound(stod: Stod, s: bytes, i: nat) returns (entries: seq<Entry>)
    requires i <= |s| && MembersAt(stod, s, i).Ok?
    ensures entries != [] && forall k :: 0 <= k < |entries| ==> EntryFits(entries[k])
    ensures At(s, i, EntriesText(entries))
    ensures MembersAt(stod, s, i) == Lift(DenoteEntries(stod, entries), i + |EntriesText(entries)|)
    decreases |s| - i, 4
  {
    hide MemberAt, SkipSpace, At, Text, StringText, ItemsFit, Fits, Denote;
    var e := MemberSound(stod, s, i);
    var end := EntryEnd(i, e);
    var sep := SkipSpace(s, end);
    SpaceSound(s, end);
    e := e.(after := s[end..sep]);
    var tail: bytes;
    if Peek(s, sep) == COMMA {
      var rest := MembersSound(stod, s, sep + 1);
      entries := [e] + rest;
      assert entries[1..] == rest;
      tail := [COMMA] + EntriesText(rest);
      AtByte(s, sep, COMMA);
      AtConcat(s, sep, [COMMA], EntriesText(rest));
    } else {
      entries := [e];
      tail := [RBRACE];
      AtByte(s, sep, RBRACE);
      assert forall m: Member :: [m] + [] == [m];
    }
    AtConcat(s, end, e.after, tail);
    EntryAt(s, i, e, e.after + tail);
  }

  /** The parts of a member one behind the other, whatever follows. */
  predicate KeyAndValueAt(s: bytes, i: nat, e: Entry) {
    var key := i + |e.before|;
    var gap := key + |StringText(e.key)|;
    var colon := gap + |e.gap|;
    var value := colon + 1 + |e.lead|;
    && At(s, i, e.before) && At(s, key, StringText(e.key)) && At(s, gap, e.gap) && At(s, colon, [COLON])
    && At(s, colon + 1, e.lead) && At(s, value, Text(e.value))
  }

  lemma {:induction false} EntryAt(s: bytes, i: nat, e: Entry, rest: bytes)
    requires KeyAndValueAt(s, i, e) && At(s, EntryEnd(i, e), rest)
    ensures At(s, i, e.before + (StringText(e.key) + (e.gap + ([COLON] + (e.lead + (Text(e.value) + rest))))))
  {
    hide At, StringText, Text;
    var key := i + |e.before|;
    var gap := key + |StringText(e.key)|;
    var colon := gap + |e.gap|;
    var value := colon + 1 + |e.lead|;
    AtConcat(s, value, Text(e.value), rest);
    AtConcat(s, colon + 1, e.lead, Text(e.value) + rest);
    AtConcat(s, colon, [COLON], e.lead + (Text(e.value) + rest));
    AtConcat(s, gap, e.gap, [COLON] + (e.lead + (Text(e.value) + rest)));
    AtConcat(s, key, StringText(e.key), e.gap + ([COLON] + (e.lead + (Text(e.value) + rest))));
    AtConcat(s, i, e.before, StringText(e.key) + (e.gap + ([COLON] + (e.lead + (Text(e.value) + rest)))));
  }

  lemma {:induction false} MemberSound(stod: Stod, s: bytes, i: nat) returns (e: Entry)
    requires i <= |s| && MemberAt(stod, s, i).Ok?
    ensures e.after == [] && EntryFits(e) && KeyAndValueAt(s, i, e)
    ensures MemberAt(stod, s, i) == Lift(DenoteEntry(stod, e), EntryEnd(i, e))
    decreases |s| - i, 3
  {
    hide ValueAt, StringAt, SkipSpace, At, Text, StringText, ItemsFit, Fits, Denote;
    var k := SkipSpace(s, i);
    SpaceSound(s, i);
    var items := StringSound(s, k);
    var gap := k + |StringText(items)|;
    var colon := SkipSpace(s, gap);
    SpaceSound(s, gap);
    AtByte(s, colon, COLON);
    var w, t := ValueSound(stod, s, colon + 1);
    AtConcat(s, colon + 1, w, Text(t));
    e := Entry(s[i..k], items, s[gap..colon], w, t, []);
  }
}
