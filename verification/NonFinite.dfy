/** Texts with inf or nan in place of a number, as %.17g prints them: the parser refuses them wherever they stand. */
module NonFinite {
  import opened Bytes
  import opened Decimal
  import opened Outcome
  import opened Json
  import opened Grammar
  import opened Reader
  import opened Completeness

  const INF: bytes := [0x69, 0x6E, 0x66]
  const NAN: bytes := [0x6E, 0x61, 0x6E]

  predicate IsNonFinite(lex: bytes) {
    lex == INF || lex == NAN || lex == [MINUS] + INF || lex == [MINUS] + NAN
  }

  /** The trees the parser knows, but with non-finite texts among the numbers. */
  predicate Loose(t: Tree)
    decreases t
  {
    match t
    case TNull => true
    case TBool(_) => true
    case TNumber(lex) => Fits(t) || IsNonFinite(lex)
    case TString(items) => ItemsFit(items)
    case TArray(pad, elems) => AllSpace(pad) && forall k :: 0 <= k < |elems| ==> ElemLoose(elems[k])
    case TObject(pad, entries) => AllSpace(pad) && forall k :: 0 <= k < |entries| ==> EntryLoose(entries[k])
  }

  predicate ElemLoose(e: Elem)
    decreases e
  {
    AllSpace(e.before) && Loose(e.value) && AllSpace(e.after)
  }

  predicate EntryLoose(e: Entry)
    decreases e
  {
    && AllSpace(e.before) && ItemsFit(e.key) && AllSpace(e.gap)
    && AllSpace(e.lead) && Loose(e.value) && AllSpace(e.after)
  }

  lemma {:induction false} LooseStarts(t: Tree)
    requires Loose(t)
    ensures Text(t) != [] && !Grammar.IsSpace(Text(t)[0]) && Text(t)[0] != RBRACKET
  {
    if Fits(t) {
      TextStarts(t);
    }
  }

  lemma {:induction false} HeadAndTail(t: bytes)
    requires t != []
    ensures t == [t[0]] + t[1..]
  {
  }

  /** No number byte, or a minus sign alone, or an n that starts no null. */
  lemma {:induction false} NonFiniteRefused(stod: Stod, s: bytes, i: nat, lex: bytes)
    requires IsNonFinite(lex) && At(s, i, lex)
    ensures i <= |s| && ValueAt(stod, s, i).Err?
    ensures lex == INF ==> ValueAt(stod, s, i) == Err(BadNumber)
    ensures !Fits(TNumber(lex))
  {
    AtFirst(s, i, lex);
    assert SkipSpace(s, i) == i;
    if lex[0] == MINUS {
      HeadAndTail(lex);
      AtConcat(s, i, [MINUS], lex[1..]);
      AtFirst(s, i + 1, lex[1..]);
      assert NumberEnd(s, i) == i + 1;
      assert s[i..i + 1] == [MINUS];
      assert Magnitude([MINUS]) == [];
      IntegerRead([MINUS]);
      assert !IsNumberByte(lex[1]);
    } else {
      assert !IsNumberByte(lex[0]);
      AtSecond(s, i, lex);
      if lex == NAN && At(s, i, NULL_TEXT) {
        AtSecond(s, i, NULL_TEXT);
      }
    }
  }

  lemma {:induction false} AtSecond(s: bytes, i: nat, t: bytes)
    requires At(s, i, t) && |t| > 1
    ensures i + 1 < |s| && s[i + 1] == t[1]
  {
    assert s[i..i + |t|][1] == s[i + 1];
  }

  lemma {:induction false} LooseRefused(stod: Stod, s: bytes, i: nat, t: Tree)
    requires Loose(t) && !Fits(t) && At(s, i, Text(t))
    ensures i <= |s| && ValueAt(stod, s, i).Err?
    decreases t, 0
  {
    hide ArrayAt, ObjectAt, ElemsText, EntriesText;
    match t
    case TNumber(lex) => NonFiniteRefused(stod, s, i, lex);
    case TArray(_, elems) =>
      assert elems != [];
      AtFirst(s, i, Text(t));
      AtConcat(s, i, [LBRACKET], ElemsText(elems));
      ElemsRefused(stod, s, i + 1, elems);
      ArrayRefused(stod, s, i);
    case TObject(_, entries) =>
      assert entries != [];
      AtFirst(s, i, Text(t));
      AtConcat(s, i, [LBRACE], EntriesText(entries));
      EntriesRefused(stod, s, i + 1, entries);
      ObjectRefused(stod, s, i);
    case _ =>
  }

  lemma {:induction false} ArrayRefused(stod: Stod, s: bytes, i: nat)
    requires i < |s| && s[i] == LBRACKET
    requires Peek(s, SkipSpace(s, i + 1)) != RBRACKET && ElementsAt(stod, s, i + 1).Err?
    ensures ValueAt(stod, s, i).Err?
  {
    ElementsAfterSpace(stod, s, i + 1);
    hide ElementsAt;
    assert SkipSpace(s, i) == i;
  }

  lemma {:induction false} ObjectRefused(stod: Stod, s: bytes, i: nat)
    requires i < |s| && s[i] == LBRACE
    requires Peek(s, SkipSpace(s, i + 1)) != RBRACE && MembersAt(stod, s, i + 1).Err?
    ensures ValueAt(stod, s, i).Err?
  {
    MembersAfterSpace(stod, s, i + 1);
    hide MembersAt;
    assert SkipSpace(s, i) == i;
  }

  /** One element that does not fit, and everything in front of it that does. */
  lemma {:induction false} ElemsRefused(stod: Stod, s: bytes, i: nat, elems: seq<Elem>)
    requires elems != [] && (forall k :: 0 <= k < |elems| ==> ElemLoose(elems[k]))
    requires exists k :: 0 <= k < |elems| && !ElemFits(elems[k])
    requires At(s, i, ElemsText(elems))
    ensures i <= |s| && ElementsAt(stod, s, i).Err? && Peek(s, SkipSpace(s, i)) != RBRACKET
    decreases elems, 1
  {
    hide ElementsAt, ValueAt, SkipSpace, Denote, Text, Fits, Loose, At;
    var e := elems[0];
    assert ElemLoose(e) && e.value < e;
    var tail := if |elems| == 1 then [RBRACKET] else [COMMA] + ElemsText(elems[1..]);
    LooseStarts(e.value);
    SpaceThen(s, i, e.before, Text(e.value) + (e.after + tail));
    if ElemFits(e) {
      var k :| 0 <= k < |elems| && !ElemFits(elems[k]);
      assert elems[k] == elems[1..][k - 1];
      ElemComplete(stod, s, i, e, tail);
      var sep := i + |e.before| + |Text(e.value)| + |e.after|;
      AtConcat(s, sep, [COMMA], ElemsText(elems[1..]));
      ElemsRefused(stod, s, sep + 1, elems[1..]);
      ElementsStep(stod, s, i, Denote(stod, e.value), sep - |e.after|, sep);
    } else {
      ElemRefused(stod, s, i, e, tail);
      ElementRefused(stod, s, i);
    }
  }

  lemma {:induction false} ElementRefused(stod: Stod, s: bytes, i: nat)
    requires i <= |s| && ValueAt(stod, s, i).Err?
    ensures ElementsAt(stod, s, i).Err?
  {
    hide ValueAt;
  }

  lemma {:induction false} ElemRefused(stod: Stod, s: bytes, i: nat, e: Elem, tail: bytes)
    requires ElemLoose(e) && !ElemFits(e)
    requires At(s, i, e.before + (Text(e.value) + (e.after + tail)))
    ensures i <= |s| && ValueAt(stod, s, i).Err?
    decreases e.value, 2
  {
    hide ValueAt, SkipSpace, Text, Fits, Loose;
    LooseStarts(e.value);
    SpaceThen(s, i, e.before, Text(e.value) + (e.after + tail));
    AtConcat(s, i + |e.before|, Text(e.value), e.after + tail);
    LooseRefused(stod, s, i + |e.before|, e.value);
    ValueAfterSpace(stod, s, i);
  }

  lemma {:induction false} EntriesRefused(stod: Stod, s: bytes, i: nat, entries: seq<Entry>)
    requires entries != [] && (forall k :: 0 <= k < |entries| ==> EntryLoose(entries[k]))
    requires exists k :: 0 <= k < |entries| && !EntryFits(entries[k])
    requires At(s, i, EntriesText(entries))
    ensures i <= |s| && MembersAt(stod, s, i).Err? && Peek(s, SkipSpace(s, i)) != RBRACE
    decreases entries, 1
  {
    hide MembersAt, MemberAt, SkipSpace, Denote, DenoteEntry, Text, StringText, Fits, Loose, At;
    var e := entries[0];
    assert EntryLoose(e) && e.value < e;
    var tail := if |entries| == 1 then [RBRACE] else [COMMA] + EntriesText(entries[1..]);
    StringTextStarts(e.key);
    SpaceThen(s, i, e.before,
              StringText(e.key) + (e.gap + ([COLON] + (e.lead + (Text(e.value) + (e.after + tail))))));
    if EntryFits(e) {
      var k :| 0 <= k < |entries| && !EntryFits(entries[k]);
      assert entries[k] == entries[1..][k - 1];
      EntryComplete(stod, s, i, e, tail);
      var sep := EntryEnd(i, e) + |e.after|;
      AtConcat(s, sep, [COMMA], EntriesText(entries[1..]));
      EntriesRefused(stod, s, sep + 1, entries[1..]);
      MembersStep(stod, s, i, DenoteEntry(stod, e), EntryEnd(i, e), sep);
    } else {
      EntryRefused(stod, s, i, e, tail);
      MemberRefused(stod, s, i);
    }
  }

  lemma {:induction false} MemberRefused(stod: Stod, s: bytes, i: nat)
    requires i <= |s| && MemberAt(stod, s, i).Err?
    ensures MembersAt(stod, s, i).Err?
  {
    hide MemberAt;
  }

  lemma {:induction false} NullFits()
    ensures Fits(TNull)
  {
  }

  lemma {:induction false} EntryRefused(stod: Stod, s: bytes, i: nat, e: Entry, tail: bytes)
    requires EntryLoose(e) && !EntryFits(e)
    requires At(s, i, e.before +
                      (StringText(e.key) + (e.gap + ([COLON] + (e.lead + (Text(e.value) + (e.after + tail)))))))
    ensures i <= |s| && MemberAt(stod, s, i).Err?
    decreases e.value, 3
  {
    hide ValueAt, SkipSpace, StringAt, Text, Fits, Loose, ItemsBytes, StringText, At;
    NullFits();
    KeyComplete(s, i, e.(value := TNull, lead := []), e.lead + (Text(e.value) + (e.after + tail)));
    var value := i + |e.before| + |StringText(e.key)| + |e.gap| + 1;
    ElemRefused(stod, s, value, Elem(e.lead, e.value, e.after), tail);
  }
}
