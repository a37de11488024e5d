/** Printing a typed value and parsing the text again. */
module RoundTrip {
  import opened Bytes
  import opened Decimal
  import opened Outcome
  import opened Json
  import opened Grammar
  import opened Reader
  import opened LoroValues
  import opened Documents
  import opened Rfc8259
  import opened Printer
  import opened Surrogates
  import opened NonFinite
  import Completeness

  /** The document a number text denotes. */
  function NumberDoc(lex: bytes): Doc {
    if IsDouble(lex) then DFloat(lex) else DInt(IntegerOf(lex))
  }

  /** The document a value has in JSON. Doubles are what their %.17g text says. */
  function DocOf(fmt: Format, v: LoroValue): Doc
    requires HasJsonForm(v)
  {
    match v
    case KNull => DNull
    case KBool(b) => DBool(b)
    case KDouble(d) => NumberDoc(fmt(d))
    case KI64(i) => DInt(i)
    case KString(s) => DString(s)
    case KList(items) => DArray(seq(|items|, k requires 0 <= k < |items| => DocOf(fmt, items[k])))
    case KMap(entries) => DObject(map key | key in entries :: DocOf(fmt, entries[key]))
  }

  /** Every double of the value is finite: it prints as a number. */
  ghost predicate Finite(fmt: Format, v: LoroValue) {
    match v
    case KDouble(d) => IsNumber(fmt(d))
    case KList(items) => forall k :: 0 <= k < |items| ==> Finite(fmt, items[k])
    case KMap(entries) => forall key :: key in entries ==> Finite(fmt, entries[key])
    case _ => true
  }

  /** What printf writes for %.17g: a number, or the name of an infinity or of no number. */
  ghost predicate IsPrintf(fmt: Format) {
    forall d: F64 :: IsNumber(fmt(d)) || IsNonFinite(fmt(d))
  }

  /** Every double prints as a number with a fraction or exponent, and std::stod reads it back. */
  ghost predicate Survives(stod: Stod, fmt: Format, v: LoroValue) {
    match v
    case KDouble(d) => IsNumber(fmt(d)) && IsDouble(fmt(d)) && stod(fmt(d)) == Success(d)
    case KList(items) => forall k :: 0 <= k < |items| ==> Survives(stod, fmt, items[k])
    case KMap(entries) => forall key :: key in entries ==> Survives(stod, fmt, entries[key])
    case _ => true
  }

  predicate DoubleFree(v: LoroValue) {
    match v
    case KDouble(_) => false
    case KList(items) => forall k :: 0 <= k < |items| ==> DoubleFree(items[k])
    case KMap(entries) => forall key :: key in entries ==> DoubleFree(entries[key])
    case _ => true
  }

  lemma {:induction false} DoubleFreeSurvives(stod: Stod, fmt: Format, v: LoroValue)
    requires DoubleFree(v)
    ensures Finite(fmt, v) && Survives(stod, fmt, v)
  {
    match v
    case KList(items) =>
      forall k | 0 <= k < |items|
        ensures Finite(fmt, items[k]) && Survives(stod, fmt, items[k])
      {
        DoubleFreeSurvives(stod, fmt, items[k]);
      }
    case KMap(entries) =>
      forall key | key in entries
        ensures Finite(fmt, entries[key]) && Survives(stod, fmt, entries[key])
      {
        DoubleFreeSurvives(stod, fmt, entries[key]);
      }
    case _ =>
  }

  lemma {:induction false} SurvivesFinite(stod: Stod, fmt: Format, v: LoroValue)
    requires Survives(stod, fmt, v)
    ensures Finite(fmt, v)
  {
    match v
    case KList(items) =>
      forall k | 0 <= k < |items|
        ensures Finite(fmt, items[k])
      {
        SurvivesFinite(stod, fmt, items[k]);
      }
    case KMap(entries) =>
      forall key | key in entries
        ensures Finite(fmt, entries[key])
      {
        SurvivesFinite(stod, fmt, entries[key]);
      }
    case _ =>
  }

  lemma {:induction false} IntegerIsNumber(n: int)
    ensures IsNumber(ToString(n))
  {
    var num := Number(n < 0, Digits(if n < 0 then -n else n), None, None);
    assert FractionText(num) == [];
    assert num.whole + [] == num.whole && [] + num.whole == num.whole;
    assert NumberText(num) == ToString(n);
    assert NumberFits(num);
  }

  lemma {:induction false} NumberOf(lex: bytes)
    requires IsNumber(lex)
    ensures TreeOf(TNumber(lex), NumberDoc(lex)) && IsRfc(TNumber(lex))
  {
    var n: Number :| NumberFits(n) && lex == NumberText(n);
    NumberLexeme(n);
  }

  /** What prints is a text of the RFC with the value's document, and it escapes no surrogate pair. */
  lemma {:induction false} PrintsDoc(fmt: Format, v: LoroValue, t: Tree)
    requires HasJsonForm(v) && Finite(fmt, v) && Prints(fmt, v, t)
    ensures IsRfc(t) && TreeOf(t, DocOf(fmt, v)) && PairFree(t)
    decreases v
  {
    hide IsNumber, ToString, IntegerOf, IsDouble;
    match v
    case KNull =>
    case KBool(b) =>
    case KDouble(d) =>
      NumberOf(fmt(d));
    case KI64(i) =>
      IntegerIsNumber(i);
      DecimalRead(i);
      NumberOf(ToString(i));
    case KString(s) => PrintItemsDenote(s);
    case KList(items) => ListPrintsDoc(fmt, v, t);
    case KMap(entries) => MapPrintsDoc(fmt, v, t);
  }

  lemma {:induction false} ListPrintsDoc(fmt: Format, v: LoroValue, t: Tree)
    requires v.KList? && HasJsonForm(v) && Finite(fmt, v) && Prints(fmt, v, t)
    ensures IsRfc(t) && TreeOf(t, DocOf(fmt, v)) && PairFree(t)
    decreases v.items, 0
  {
    forall k | 0 <= k < |v.items|
      ensures ElemIsRfc(t.elems[k]) && ElemOf(t.elems[k], DocOf(fmt, v.items[k])) && ElemPairFree(t.elems[k])
    {
      hide IsRfc, TreeOf, DocOf, PairFree;
      PrintsDoc(fmt, v.items[k], t.elems[k].value);
    }
  }

  lemma {:induction false} MapPrintsDoc(fmt: Format, v: LoroValue, t: Tree)
    requires v.KMap? && HasJsonForm(v) && Finite(fmt, v) && Prints(fmt, v, t)
    ensures IsRfc(t) && TreeOf(t, DocOf(fmt, v)) && PairFree(t)
    decreases v, 0
  {
    hide KeyOf, HasKey;
    var d := DocOf(fmt, v);
    forall k | 0 <= k < |t.entries|
      ensures EntryIsRfc(t.entries[k]) && EntryOf(t.entries[k], d.entries) && EntryPairFree(t.entries[k])
    {
      hide IsRfc, TreeOf, PairFree;
      var e := t.entries[k];
      assert PrintedEntry(e);
      PrintItemsDenote(KeyOf(e));
      PrintsDoc(fmt, v.entries[KeyOf(e)], e.value);
    }
  }

  /** The value read back from a parsed document of v is v exactly when the doubles of v survive. */
  lemma {:induction false} ValueBack(stod: Stod, fmt: Format, j: JsonValue, v: LoroValue)
    requires HasJsonForm(v) && Finite(fmt, v) && Shows(stod, j, DocOf(fmt, v))
    ensures JsonToValue(j) == v <==> Survives(stod, fmt, v)
    decreases v
  {
    match v
    case KI64(i) => assert ToI64(i) == i;
    case KList(items) => ListBack(stod, fmt, j, v);
    case KMap(entries) => MapBack(stod, fmt, j, v);
    case _ =>
  }

  lemma {:induction false} ListBack(stod: Stod, fmt: Format, j: JsonValue, v: LoroValue)
    requires v.KList? && HasJsonForm(v) && Finite(fmt, v) && Shows(stod, j, DocOf(fmt, v))
    ensures JsonToValue(j) == v <==> Survives(stod, fmt, v)
    decreases v, 0
  {
    hide Shows;
    var d := DocOf(fmt, v);
    assert j.Array? && |j.arr| == |v.items| && forall k :: 0 <= k < |v.items| ==> Shows(stod, j.arr[k], d.items[k]) by {
      ShowsArray(stod, j, d);
    }
    var items := JsonToValue(j).items;
    forall k | 0 <= k < |v.items|
      ensures items[k] == v.items[k] <==> Survives(stod, fmt, v.items[k])
    {
      assert d.items[k] == DocOf(fmt, v.items[k]);
      ValueBack(stod, fmt, j.arr[k], v.items[k]);
    }
    assert items == v.items <==> forall k :: 0 <= k < |v.items| ==> items[k] == v.items[k];
  }

  lemma {:induction false} ShowsArray(stod: Stod, j: JsonValue, d: Doc)
    requires d.DArray? && Shows(stod, j, d)
    ensures j.Array? && |j.arr| == |d.items| && forall k :: 0 <= k < |d.items| ==> Shows(stod, j.arr[k], d.items[k])
  {
  }

  lemma {:induction false} ShowsObject(stod: Stod, j: JsonValue, d: Doc)
    requires d.DObject? && Shows(stod, j, d)
    ensures j.Object?
    ensures forall key :: key in d.entries <==> FindIn(j.obj, key).Some?
    ensures forall key :: key in d.entries ==> Shows(stod, FindIn(j.obj, key).value, d.entries[key])
  {
    hide FindIn;
    forall key
      ensures j.Find(key) == FindIn(j.obj, key)
    {
    }
  }

  lemma {:induction false} MapBack(stod: Stod, fmt: Format, j: JsonValue, v: LoroValue)
    requires v.KMap? && HasJsonForm(v) && Finite(fmt, v) && Shows(stod, j, DocOf(fmt, v))
    ensures JsonToValue(j) == v <==> Survives(stod, fmt, v)
    decreases v, 0
  {
    hide Shows, FindIn, EntriesOf;
    var d := DocOf(fmt, v);
    ShowsObject(stod, j, d);
    var m := EntriesOf(j.obj);
    forall key
      ensures key in m <==> key in v.entries
      ensures key in m && key in v.entries ==> (m[key] == v.entries[key] <==> Survives(stod, fmt, v.entries[key]))
    {
      EntriesAgreeWithFind(j.obj, key);
      assert key in v.entries <==> key in d.entries;
      if key in v.entries {
        assert d.entries[key] == DocOf(fmt, v.entries[key]);
        ValueBack(stod, fmt, FindIn(j.obj, key).value, v.entries[key]);
      }
    }
    assert m.Keys == v.entries.Keys;
    assert m == v.entries <==> forall key :: key in v.entries ==> m[key] == v.entries[key];
  }

  /** What survives can be read. */
  lemma {:induction false} SurvivesReadable(stod: Stod, fmt: Format, v: LoroValue)
    requires HasJsonForm(v) && Survives(stod, fmt, v)
    ensures DocReadable(stod, DocOf(fmt, v))
    decreases v
  {
    match v
    case KList(items) =>
      forall k | 0 <= k < |items|
        ensures DocReadable(stod, DocOf(fmt, items[k]))
      {
        SurvivesReadable(stod, fmt, items[k]);
      }
    case KMap(entries) =>
      forall key | key in entries
        ensures DocReadable(stod, DocOf(fmt, entries[key]))
      {
        SurvivesReadable(stod, fmt, entries[key]);
      }
    case _ =>
  }

  // Back from the value to the document: a value that was read right shows its document.

  lemma {:induction false} BackShows(stod: Stod, fmt: Format, t: Tree, v: LoroValue)
    requires HasJsonForm(v) && Fits(t) && TreeOf(t, DocOf(fmt, v)) && Denote(stod, t).Success?
    requires JsonToValue(Denote(stod, t).value) == v
    ensures Shows(stod, Denote(stod, t).value, DocOf(fmt, v))
    decreases v, 1
  {
    match v
    case KI64(i) => assert ToI64(i) == i;
    case KList(items) => ListBackShows(stod, fmt, t, v);
    case KMap(entries) => MapBackShows(stod, fmt, t, v);
    case _ =>
  }

  lemma {:induction false} ListBackShows(stod: Stod, fmt: Format, t: Tree, v: LoroValue)
    requires v.KList? && HasJsonForm(v) && Fits(t) && TreeOf(t, DocOf(fmt, v)) && Denote(stod, t).Success?
    requires JsonToValue(Denote(stod, t).value) == v
    ensures Shows(stod, Denote(stod, t).value, DocOf(fmt, v))
    decreases v, 0
  {
    hide DenoteElems;
    ElemsDenoted(stod, t.elems);
    var j := Denote(stod, t).value;
    forall k | 0 <= k < |v.items|
      ensures Shows(stod, j.arr[k], DocOf(fmt, v.items[k]))
    {
      assert ElemOf(t.elems[k], DocOf(fmt, v.items[k]));
      assert JsonToValue(j).items[k] == JsonToValue(j.arr[k]);
      hide Shows, Denote, DocOf, JsonToValue, TreeOf;
      BackShows(stod, fmt, t.elems[k].value, v.items[k]);
    }
  }

  lemma {:induction false} MapBackShows(stod: Stod, fmt: Format, t: Tree, v: LoroValue)
    requires v.KMap? && HasJsonForm(v) && Fits(t) && TreeOf(t, DocOf(fmt, v)) && Denote(stod, t).Success?
    requires JsonToValue(Denote(stod, t).value) == v
    ensures Shows(stod, Denote(stod, t).value, DocOf(fmt, v))
    decreases v, 0
  {
    hide Shows, FindIn, EntriesOf, KeyOf, ItemsBytes, HasKey, NoPair, DenoteEntries, Names, DistinctKeys, TreeOf;
    var m := DocOf(fmt, v).entries;
    var obj := DenoteEntries(stod, t.entries).value;
    EntriesDenoted(stod, t.entries);
    NamesOfTree(t, m);
    assert EntriesOf(obj) == v.entries && m.Keys == v.entries.Keys;
    KeysBack(t.entries, obj, m);
    forall k | 0 <= k < |t.entries|
      ensures KeyOf(t.entries[k]) in m && Shows(stod, obj[k].value, m[KeyOf(t.entries[k])])
    {
      var e := t.entries[k];
      EntryOfTree(t, m, k);
      FindOwn(obj, k);
      EntriesAgreeWithFind(obj, obj[k].key);
      BackShows(stod, fmt, e.value, v.entries[KeyOf(e)]);
    }
    assert forall key :: key in m <==> FindIn(obj, key).Some?;
    ObjectShown(stod, t.entries, obj, m);
  }

  /** The names of an object that was read right. */
  lemma {:induction false} KeysBack(entries: seq<Entry>, obj: seq<Member>, m: map<bytes, Doc>)
    requires Names(entries, m) && |obj| == |entries| && EntriesOf(obj).Keys == m.Keys
    requires forall k :: 0 <= k < |entries| ==> obj[k].key == ItemsBytes(entries[k].key)
    ensures DistinctKeys(obj)
    ensures forall k :: 0 <= k < |entries| ==> obj[k].key == KeyOf(entries[k])
    ensures forall key :: key in m <==> FindIn(obj, key).Some?
  {
    hide FindIn, EntriesOf, KeyOf, ItemsBytes, HasKey, NoPair;
    forall key
      ensures key in m <==> FindIn(obj, key).Some?
    {
      EntriesAgreeWithFind(obj, key);
    }
    KeysCounted(entries, obj, m);
    forall k | 0 <= k < |entries|
      ensures NoPair(entries[k].key)
    {
      KeysLost(entries, obj, m, k);
    }
    KeysKept(entries, obj, m);
  }

  /** As many members as names: when lookup finds the names and no others, no two members share one. */
  lemma {:induction false} KeysCounted(entries: seq<Entry>, obj: seq<Member>, m: map<bytes, Doc>)
    requires Names(entries, m) && |obj| == |entries|
    requires forall key :: key in m <==> FindIn(obj, key).Some?
    ensures DistinctKeys(obj)
  {
    hide KeyOf;
    var a, b := NamesOf(entries), KeysOf(obj);
    forall name
      ensures name in a <==> name in b
    {
      SameName(entries, obj, m, name);
    }
    Counted(a);
    Counted(b);
    assert (set name | name in a) == (set name | name in b);
    assert forall j, k :: 0 <= j < k < |obj| ==> b[j] != b[k];
    assert forall k :: 0 <= k < |obj| ==> b[k] == obj[k].key;
  }

  lemma {:induction false} Counted(names: seq<bytes>)
    ensures |set name | name in names| <= |names|
    ensures |set name | name in names| == |names| <==> Distinct(names)
    decreases |names|
  {
    if names != [] {
      var front, last := names[..|names| - 1], names[|names| - 1];
      Counted(front);
      assert names == front + [last];
      assert (set name | name in names) == (set name | name in front) + {last};
      if last in front {
        assert (set name | name in names) == (set name | name in front);
        var k :| 0 <= k < |front| && front[k] == last;
        assert names[k] == names[|names| - 1];
      }
      assert Distinct(names) ==> Distinct(front);
    }
  }

  // The round trip.

  /** Printed with printf, a value prints as numbers only if its doubles are finite; otherwise as no JSON. */
  lemma {:induction false} PrintsLoose(fmt: Format, v: LoroValue, t: Tree)
    requires IsPrintf(fmt) && HasJsonForm(v) && Prints(fmt, v, t)
    ensures Loose(t) && (Fits(t) ==> Finite(fmt, v))
    decreases v
  {
    hide IsNumber, IsNonFinite, ToString;
    match v
    case KDouble(d) =>
      if IsNumber(fmt(d)) {
        NumberOf(fmt(d));
      } else {
        LettersDoNotFit(fmt(d));
      }
    case KI64(i) =>
      IntegerIsNumber(i);
      NumberOf(ToString(i));
    case KString(s) => PrintItemsDenote(s);
    case KList(items) =>
      forall k | 0 <= k < |items|
        ensures ElemLoose(t.elems[k]) && (ElemFits(t.elems[k]) ==> Finite(fmt, items[k]))
      {
        PrintsLoose(fmt, items[k], t.elems[k].value);
      }
    case KMap(entries) => MapPrintsLoose(fmt, v, t);
    case _ =>
  }

  lemma {:induction false} LettersDoNotFit(lex: bytes)
    requires IsNonFinite(lex)
    ensures !Fits(TNumber(lex))
  {
    assert !IsNumberByte(lex[1]);
  }

  lemma {:induction false} MapPrintsLoose(fmt: Format, v: LoroValue, t: Tree)
    requires v.KMap? && IsPrintf(fmt) && HasJsonForm(v) && Prints(fmt, v, t)
    ensures Loose(t) && (Fits(t) ==> Finite(fmt, v))
    decreases v, 0
  {
    hide KeyOf, IsPrintf;
    forall k | 0 <= k < |t.entries|
      ensures EntryLoose(t.entries[k]) && (EntryFits(t.entries[k]) ==> Finite(fmt, v.entries[KeyOf(t.entries[k])]))
    {
      var e := t.entries[k];
      assert PrintedEntry(e);
      PrintItemsDenote(KeyOf(e));
      PrintsLoose(fmt, v.entries[KeyOf(e)], e.value);
    }
    if Fits(t) {
      forall key | key in v.entries
        ensures Finite(fmt, v.entries[key])
      {
        assert HasKey(t.entries, key);
        var k :| 0 <= k < |t.entries| && KeyOf(t.entries[k]) == key;
        assert EntryFits(t.entries[k]);
      }
    }
  }

  lemma {:induction false} LooseText(stod: Stod, t: Tree)
    requires Loose(t) && !Fits(t)
    ensures Parse(stod, Text(t)).Failure?
  {
    hide ValueAt, Loose, Fits, Text;
    Completeness.ValueAfterSpace(stod, Text(t), 0);
    LooseRefused(stod, Text(t), 0, t);
  }

  /**
   A value comes back from its JSON text if each of its doubles prints as a number with a fraction or
   exponent that std::stod reads back. With printf as the printer of doubles, it comes back only then.
   */
  lemma {:induction false} PrintParse(stod: Stod, fmt: Format, v: LoroValue, t: Tree)
    requires HasJsonForm(v) && Prints(fmt, v, t)
    ensures var r := Parse(stod, Text(t));
            && (Survives(stod, fmt, v) ==> r.Success? && JsonToValue(r.value) == v)
            && (IsPrintf(fmt) && r.Success? && JsonToValue(r.value) == v ==> Survives(stod, fmt, v))
  {
    hide Prints, HasJsonForm, Finite, DocOf, Survives, JsonToValue, TreeOf, IsRfc, Text, Parse, Loose, Fits;
    hide NoPairEscape, PairFree, IsPrintf, Renders;
    if Survives(stod, fmt, v) {
      SurvivesFinite(stod, fmt, v);
    }
    if IsPrintf(fmt) {
      PrintsLoose(fmt, v, t);
      if !Fits(t) {
        LooseText(stod, t);
      }
    }
    if Finite(fmt, v) {
      PrintsDoc(fmt, v, t);
      PrintedPairFree(t);
      RendersBare(t, DocOf(fmt, v));
      RenderedValue(stod, fmt, Text(t), v);
    }
  }

  lemma {:induction false} PrintedPairFree(t: Tree)
    requires Fits(t) && PairFree(t)
    ensures NoPairEscape(Text(t))
  {
    hide Text, NoPairEscape, PairFree, Fits;
    AroundTree([], t, []);
    assert [] + Text(t) + [] == Text(t);
  }

  /** The failing case: an infinity prints as a text that is refused, whatever std::stod would make of it. */
  lemma {:induction false} InfinityRefused(stod: Stod, fmt: Format, d: F64)
    requires fmt(d) == INF
    ensures HasJsonForm(KDouble(d)) && Prints(fmt, KDouble(d), TNumber(INF))
    ensures Parse(stod, Text(TNumber(INF))) == Failure(BadNumber)
  {
    hide ValueAt;
    NonFiniteRefused(stod, INF, 0, INF);
    Completeness.ValueAfterSpace(stod, INF, 0);
  }

  /** A double that prints as an integer, such as 2.0 under %.17g, comes back as that integer. */
  lemma {:induction false} WholeDoubleComesBackInteger(stod: Stod, fmt: Format, d: F64, n: I64)
    requires fmt(d) == ToString(n)
    ensures Prints(fmt, KDouble(d), TNumber(fmt(d)))
    ensures Parse(stod, Text(TNumber(fmt(d)))) == Success(JsonValue.Int(n))
    ensures JsonToValue(Parse(stod, Text(TNumber(fmt(d)))).value) == KI64(n) != KDouble(d)
  {
    hide Parse, ToString, Stoll, ReadInteger, IsNumber, ToI64, IsDouble;
    DecimalRead(n);
    I64Kept(n);
    IntegerIsNumber(n);
    NumberOf(fmt(d));
    RendersBare(TNumber(fmt(d)), DInt(n));
    AsciiRendered(fmt(d), DInt(n));
    ParseRendered(stod, fmt(d), DInt(n));
  }

  /**
   The general form: printed anywhere inside a larger text, with nothing behind it that could extend a
   number, the value is read back and reading stops exactly at its end.
   */
  lemma {:induction false} PrintParseInside(stod: Stod, fmt: Format, v: LoroValue, t: Tree, s: bytes, i: nat)
    requires HasJsonForm(v) && Survives(stod, fmt, v) && Prints(fmt, v, t)
    requires At(s, i, Text(t)) && (i + |Text(t)| < |s| ==> !IsNumberByte(s[i + |Text(t)|]))
    ensures var r := ValueAt(stod, s, i);
            r.Ok? && JsonToValue(r.value) == v && r.end == i + |Text(t)|
  {
    hide Prints, HasJsonForm, Finite, DocOf, Survives, DocReadable, Shows, JsonToValue, TreeOf, IsRfc, Text, Denote;
    hide PairFree;
    var d := DocOf(fmt, v);
    SurvivesFinite(stod, fmt, v);
    PrintsDoc(fmt, v, t);
    Completeness.ValueComplete(stod, s, i, t);
    SurvivesReadable(stod, fmt, v);
    TreeShows(stod, t, d);
    ValueBack(stod, fmt, Denote(stod, t).value, v);
  }

  /**
   Any rendering of a value's document, whoever wrote it, is read back as the value exactly when its
   doubles survive and the text escapes no surrogate pair.
   */
  lemma {:induction false} RenderedValue(stod: Stod, fmt: Format, text: bytes, v: LoroValue)
    requires HasJsonForm(v) && Finite(fmt, v) && Renders(text, DocOf(fmt, v))
    ensures Parse(stod, text).Success? && JsonToValue(Parse(stod, text).value) == v <==>
            Survives(stod, fmt, v) && NoPairEscape(text)
  {
    hide HasJsonForm, Finite, DocOf, Survives, DocReadable, Shows, JsonToValue, Parse, Text, Denote, IsRfc, TreeOf;
    hide NoPairEscape, Readable;
    var d := DocOf(fmt, v);
    ParseRendered(stod, text, d);
    if Survives(stod, fmt, v) {
      SurvivesReadable(stod, fmt, v);
    }
    if Parse(stod, text).Success? {
      if JsonToValue(Parse(stod, text).value) == v {
        var before, t, after :|
          IsRfc(t) && TreeOf(t, d) && AllSpace(before) && AllSpace(after) && text == before + Text(t) + after;
        TextParse(stod, before, t, after);
        BackShows(stod, fmt, t, v);
      }
      if Shows(stod, Parse(stod, text).value, d) {
        ValueBack(stod, fmt, Parse(stod, text).value, v);
      }
    }
  }

  /** What json_to_value makes always has a JSON form. */
  lemma {:induction false} ParsedHasForm(j: JsonValue)
    ensures HasJsonForm(JsonToValue(j))
    decreases j
  {
    match j
    case Array(arr) =>
      forall k | 0 <= k < |arr|
        ensures HasJsonForm(JsonToValue(arr[k]))
      {
        ParsedHasForm(arr[k]);
      }
    case Object(obj) =>
      forall key | key in EntriesOf(obj)
        ensures HasJsonForm(EntriesOf(obj)[key])
      {
        EntriesAgreeWithFind(obj, key);
        var k :| 0 <= k < |obj| && obj[k] == Member(key, FindIn(obj, key).value);
        assert obj[k].value < obj[k];
        ParsedHasForm(obj[k].value);
      }
    case _ =>
  }

  /**
   Normal form: printing what an accepted text means, in any order of members, and parsing again gives
   the same value if its doubles survive, and with printf only then; without doubles it always does.
   */
  lemma {:induction false} NormalForm(stod: Stod, fmt: Format, s: bytes, t: Tree)
    requires Parse(stod, s).Success? && Prints(fmt, JsonToValue(Parse(stod, s).value), t)
    ensures var v := JsonToValue(Parse(stod, s).value);
            var again := Parse(stod, Text(t));
            && (Survives(stod, fmt, v) || DoubleFree(v) ==> again.Success? && JsonToValue(again.value) == v)
            && (IsPrintf(fmt) && again.Success? && JsonToValue(again.value) == v ==> Survives(stod, fmt, v))
  {
    hide Prints, Finite, Survives, JsonToValue, Text, Parse, IsPrintf;
    var v := JsonToValue(Parse(stod, s).value);
    ParsedHasForm(Parse(stod, s).value);
    PrintParse(stod, fmt, v, t);
    if DoubleFree(v) {
      DoubleFreeSurvives(stod, fmt, v);
    }
  }
}
