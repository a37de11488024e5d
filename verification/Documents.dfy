/**
 JSON documents as serde_json holds them, and the texts that render them: any text of RFC 8259 with
 the document's content, whatever its white space, escapes (pairs of surrogates included) and order of
 members.
 */
module Documents {
  import opened Bytes
  import opened Decimal
  import opened Outcome
  import opened Json
  import opened Grammar
  import opened Reader
  import opened Rfc8259
  import opened Surrogates

  datatype Doc =
    | DNull
    | DBool(b: bool)
    | DInt(n: int)
    | DFloat(lex: bytes)
    | DString(s: bytes)
    | DArray(items: seq<Doc>)
    | DObject(entries: map<bytes, Doc>)

  /** The tree has the content of the document. */
  predicate TreeOf(t: Tree, d: Doc)
    decreases t
  {
    match t
    case TNull => d == DNull
    case TBool(b) => d == DBool(b)
    case TNumber(lex) =>
      if IsDouble(lex) then d == DFloat(lex) else Magnitude(lex) != [] && d == DInt(IntegerOf(lex))
    case TString(items) => ItemsFit(items) && d == DString(ItemsMeaning(items))
    case TArray(_, elems) =>
      d.DArray? && |d.items| == |elems| && forall k :: 0 <= k < |elems| ==> ElemOf(elems[k], d.items[k])
    case TObject(_, entries) =>
      && d.DObject?
      && (forall k :: 0 <= k < |entries| ==> EntryOf(entries[k], d.entries))
      && (forall j, k :: 0 <= j < k < |entries| ==> KeyOf(entries[j]) != KeyOf(entries[k]))
      && forall key :: key in d.entries ==> HasKey(entries, key)
  }

  predicate ElemOf(e: Elem, d: Doc)
    decreases e
  {
    TreeOf(e.value, d)
  }

  predicate EntryOf(e: Entry, m: map<bytes, Doc>)
    decreases e
  {
    ItemsFit(e.key) && KeyOf(e) in m && TreeOf(e.value, m[KeyOf(e)])
  }

  /** The name of a member. */
  function KeyOf(e: Entry): bytes {
    if ItemsFit(e.key) then ItemsMeaning(e.key) else []
  }

  predicate HasKey(entries: seq<Entry>, key: bytes) {
    exists k :: 0 <= k < |entries| && KeyOf(entries[k]) == key
  }

  /** The text renders the document. */
  ghost predicate Renders(text: bytes, d: Doc) {
    exists before, t, after ::
      IsRfc(t) && TreeOf(t, d) && AllSpace(before) && AllSpace(after) && text == before + Text(t) + after
  }

  lemma {:induction false} RendersBare(t: Tree, d: Doc)
    requires IsRfc(t) && TreeOf(t, d)
    ensures Renders(Text(t), d)
  {
    hide IsRfc, TreeOf, Text;
    assert AllSpace([]) && [] + Text(t) + [] == Text(t);
  }

  // Every text of the RFC without duplicate names renders some document.

  predicate NoDuplicates(t: Tree)
    decreases t
  {
    match t
    case TArray(_, elems) => forall k :: 0 <= k < |elems| ==> ElemNoDuplicates(elems[k])
    case TObject(_, entries) =>
      && (forall k :: 0 <= k < |entries| ==> EntryNoDuplicates(entries[k]))
      && forall j, k :: 0 <= j < k < |entries| ==> KeyOf(entries[j]) != KeyOf(entries[k])
    case _ => true
  }

  predicate ElemNoDuplicates(e: Elem)
    decreases e
  {
    NoDuplicates(e.value)
  }

  predicate EntryNoDuplicates(e: Entry)
    decreases e
  {
    NoDuplicates(e.value)
  }

  lemma {:induction false} EveryTreeRenders(before: bytes, t: Tree, after: bytes) returns (d: Doc)
    requires IsRfc(t) && NoDuplicates(t) && AllSpace(before) && AllSpace(after)
    ensures TreeOf(t, d) && Renders(before + Text(t) + after, d)
  {
    hide IsRfc, TreeOf, Text, NoDuplicates;
    d := TreeDoc(t);
  }

  lemma {:induction false} TreeDoc(t: Tree) returns (d: Doc)
    requires IsRfc(t) && NoDuplicates(t)
    ensures TreeOf(t, d)
    decreases t, 0
  {
    match t
    case TNull => d := DNull;
    case TBool(b) => d := DBool(b);
    case TNumber(lex) => d := NumberTextDoc(lex);
    case TString(items) => d := DString(ItemsMeaning(items));
    case TArray(_, elems) =>
      var items := ElemDocs(elems);
      d := DArray(items);
    case TObject(_, entries) =>
      var m := EntryDocs(entries);
      d := DObject(m);
  }

  /** The document a number text denotes. */
  lemma {:induction false} NumberTextDoc(lex: bytes) returns (d: Doc)
    requires IsNumber(lex)
    ensures TreeOf(TNumber(lex), d)
  {
    var n: Number :| NumberFits(n) && lex == NumberText(n);
    NumberLexeme(n);
    d := if IsDouble(lex) then DFloat(lex) else DInt(IntegerOf(lex));
  }

  lemma {:induction false} ElemDocs(elems: seq<Elem>) returns (items: seq<Doc>)
    requires forall k :: 0 <= k < |elems| ==> ElemIsRfc(elems[k]) && ElemNoDuplicates(elems[k])
    ensures |items| == |elems| && forall k :: 0 <= k < |elems| ==> ElemOf(elems[k], items[k])
    decreases elems, 0
  {
    hide IsRfc, TreeOf, NoDuplicates;
    items := [];
    if elems != [] {
      assert ElemIsRfc(elems[0]) && ElemNoDuplicates(elems[0]) && elems[0].value < elems[0];
      var first := TreeDoc(elems[0].value);
      var rest := ElemDocs(elems[1..]);
      items := [first] + rest;
      assert forall k :: 1 <= k < |elems| ==> elems[k] == elems[1..][k - 1];
    }
  }

  lemma {:induction false} EntryDocs(entries: seq<Entry>) returns (m: map<bytes, Doc>)
    requires forall k :: 0 <= k < |entries| ==> EntryIsRfc(entries[k]) && EntryNoDuplicates(entries[k])
    requires forall j, k :: 0 <= j < k < |entries| ==> KeyOf(entries[j]) != KeyOf(entries[k])
    ensures forall k :: 0 <= k < |entries| ==> EntryOf(entries[k], m)
    ensures forall key :: key in m ==> HasKey(entries, key)
    decreases entries, 0
  {
    hide IsRfc, TreeOf, NoDuplicates, KeyOf;
    m := map[];
    if entries != [] {
      var e := entries[0];
      assert EntryIsRfc(e) && EntryNoDuplicates(e) && e.value < e && ItemsFit(e.key);
      var first := TreeDoc(e.value);
      var rest := EntryDocs(entries[1..]);
      assert forall k :: 1 <= k < |entries| ==> entries[k] == entries[1..][k - 1];
      m := rest[KeyOf(e) := first];
      forall k | 0 <= k < |entries|
        ensures EntryOf(entries[k], m)
      {
        if k > 0 {
          assert EntryOf(entries[1..][k - 1], rest) && KeyOf(entries[k]) != KeyOf(e);
        }
      }
      forall key | key in m
        ensures HasKey(entries, key)
      {
        if key == KeyOf(e) {
          assert KeyOf(entries[0]) == key;
        } else {
          assert HasKey(entries[1..], key);
          var k :| 0 <= k < |entries[1..]| && KeyOf(entries[1..][k]) == key;
          assert KeyOf(entries[k + 1]) == key;
        }
      }
    }
  }

  lemma {:induction false} RendersNonEmpty(text: bytes, d: Doc)
    requires Renders(text, d)
    ensures text != []
  {
    hide IsRfc, TreeOf, Text;
    var before, t, after :|
      IsRfc(t) && TreeOf(t, d) && AllSpace(before) && AllSpace(after) && text == before + Text(t) + after;
    TextStarts(t);
  }

  /** Every integer lies in [-2^63, 2^64) and std::stod takes every other number. */
  ghost predicate DocReadable(stod: Stod, d: Doc)
    decreases d
  {
    match d
    case DInt(n) => -TWO63 <= n < TWO64
    case DFloat(lex) => stod(lex).Success?
    case DArray(items) => forall k :: 0 <= k < |items| ==> DocReadable(stod, items[k])
    case DObject(entries) => forall key :: key in entries ==> DocReadable(stod, entries[key])
    case _ => true
  }

  /** What the parsed value j shows of the document: integers modulo 2^64, members by name. */
  ghost predicate Shows(stod: Stod, j: JsonValue, d: Doc)
    decreases d
  {
    match d
    case DNull => j == JsonValue.Null
    case DBool(b) => j == JsonValue.Bool(b)
    case DInt(n) => j == JsonValue.Int(ToI64(n))
    case DFloat(lex) => j.Double? && stod(lex) == Success(j.d)
    case DString(s) => j == JsonValue.String(s)
    case DArray(items) =>
      j.Array? && |j.arr| == |items| && forall k :: 0 <= k < |items| ==> Shows(stod, j.arr[k], items[k])
    case DObject(entries) =>
      && j.Object? && DistinctKeys(j.obj)
      && (forall key :: key in entries ==> j.Find(key).Some? && Shows(stod, j.Find(key).value, entries[key]))
      && forall key :: j.Find(key).Some? ==> key in entries
  }

  lemma {:induction false} MemberShown(stod: Stod, j: JsonValue, d: Doc, key: bytes)
    requires d.DObject? && Shows(stod, j, d) && key in d.entries
    ensures j.Find(key).Some? && Shows(stod, j.Find(key).value, d.entries[key])
  {
    hide FindIn, DistinctKeys;
  }

  /** An integer member of a shown object. */
  lemma {:induction false} FieldShown(stod: Stod, j: JsonValue, d: Doc, key: bytes, n: int)
    requires d.DObject? && Shows(stod, j, d) && key in d.entries && d.entries[key] == DInt(n)
    ensures j.Find(key) == Some(JsonValue.Int(ToI64(n)))
  {
    hide FindIn, ToI64, DistinctKeys;
  }

  predicate DistinctKeys(obj: seq<Member>) {
    forall j, k :: 0 <= j < k < |obj| ==> obj[j].key != obj[k].key
  }

  /** The value read shows the document exactly when no string or key of the text escapes a surrogate pair. */
  lemma {:induction false} TreeShows(stod: Stod, t: Tree, d: Doc)
    requires Fits(t) && TreeOf(t, d)
    ensures Readable(stod, t) <==> DocReadable(stod, d)
    ensures Readable(stod, t) ==>
              Denote(stod, t).Success? && (Shows(stod, Denote(stod, t).value, d) <==> PairFree(t))
    decreases t, 0
  {
    match t
    case TNumber(lex) =>
      if !IsDouble(lex) {
        IntegerRead(lex);
      }
    case TString(items) => MeaningIff(items);
    case TArray(_, elems) => ElemsShow(stod, elems, d.items);
    case TObject(_, entries) => ObjectShows(stod, t, d);
    case _ =>
  }

  lemma {:induction false} ElemsShow(stod: Stod, elems: seq<Elem>, items: seq<Doc>)
    requires (forall k :: 0 <= k < |elems| ==> ElemFits(elems[k])) && |items| == |elems|
    requires forall k :: 0 <= k < |elems| ==> ElemOf(elems[k], items[k])
    ensures forall k :: 0 <= k < |elems| ==> (ElemReadable(stod, elems[k]) <==> DocReadable(stod, items[k]))
    ensures (forall k :: 0 <= k < |elems| ==> ElemReadable(stod, elems[k])) ==>
              var r := DenoteElems(stod, elems);
              r.Success? &&
              forall k :: 0 <= k < |elems| ==> (Shows(stod, r.value[k], items[k]) <==> ElemPairFree(elems[k]))
    decreases elems, 0
  {
    hide TreeOf, Readable, DocReadable, Shows, Denote, Fits, PairFree;
    if elems != [] {
      var e := elems[0];
      assert ElemFits(e) && ElemOf(e, items[0]) && e.value < e;
      TreeShows(stod, e.value, items[0]);
      assert ElemReadable(stod, e) <==> Readable(stod, e.value);
      assert ElemPairFree(e) <==> PairFree(e.value);
      forall k | 0 <= k < |elems[1..]|
        ensures ElemFits(elems[1..][k]) && ElemOf(elems[1..][k], items[1..][k])
      {
        assert elems[1..][k] == elems[k + 1];
      }
      ElemsShow(stod, elems[1..], items[1..]);
      forall k | 1 <= k < |elems|
        ensures elems[k] == elems[1..][k - 1] && items[k] == items[1..][k - 1]
      {
      }
    }
  }

  /** What the parser makes of an entry: its name byte by byte, and its value if that has no pair in it. */
  ghost predicate MemberOf(stod: Stod, member: Member, e: Entry, m: map<bytes, Doc>)
    requires ItemsFit(e.key) && KeyOf(e) in m
  {
    member.key == ItemsBytes(e.key) && (Shows(stod, member.value, m[KeyOf(e)]) <==> PairFree(e.value))
  }

  lemma {:induction false} EntriesShow(stod: Stod, entries: seq<Entry>, m: map<bytes, Doc>)
    requires forall k :: 0 <= k < |entries| ==> EntryFits(entries[k]) && EntryOf(entries[k], m)
    ensures forall k :: 0 <= k < |entries| ==>
              KeyOf(entries[k]) in m && (EntryReadable(stod, entries[k]) <==> DocReadable(stod, m[KeyOf(entries[k])]))
    ensures (forall k :: 0 <= k < |entries| ==> EntryReadable(stod, entries[k])) ==>
              var r := DenoteEntries(stod, entries);
              r.Success? && forall k :: 0 <= k < |entries| ==>
                EntryOf(entries[k], m) && MemberOf(stod, r.value[k], entries[k], m)
    decreases entries, 0
  {
    hide TreeOf, Readable, DocReadable, Shows, Denote, Fits, KeyOf, ItemsBytes;
    if entries != [] {
      var e := entries[0];
      assert EntryFits(e) && EntryOf(e, m) && e.value < e;
      TreeShows(stod, e.value, m[KeyOf(e)]);
      assert EntryReadable(stod, e) <==> Readable(stod, e.value);
      EntriesShow(stod, entries[1..], m);
      forall k | 1 <= k < |entries|
        ensures entries[k] == entries[1..][k - 1]
      {
      }
    }
  }

  lemma {:induction false} ObjectShows(stod: Stod, t: Tree, d: Doc)
    requires t.TObject? && Fits(t) && TreeOf(t, d)
    ensures Readable(stod, t) <==> DocReadable(stod, d)
    ensures Readable(stod, t) ==>
              Denote(stod, t).Success? && (Shows(stod, Denote(stod, t).value, d) <==> PairFree(t))
    decreases t.entries, 1
  {
    hide Readable, DocReadable, Denote, Shows, EntryOf, EntryReadable, MemberOf, DenoteEntries, EntryFits, FindIn;
    hide HasKey, KeyOf, DistinctKeys, PairFree;
    EntriesShow(stod, t.entries, d.entries);
    KeysReadable(stod, t.entries, d.entries);
    ObjectReadable(stod, t, d);
    if Readable(stod, t) {
      var obj := DenoteEntries(stod, t.entries).value;
      ObjectDenoted(stod, t, obj);
      ObjectShownIff(stod, t.entries, obj, d.entries);
      ObjectPairFree(t);
    }
  }

  lemma {:induction false} ObjectReadable(stod: Stod, t: Tree, d: Doc)
    requires t.TObject? && d.DObject?
    ensures Readable(stod, t) <==> forall k :: 0 <= k < |t.entries| ==> EntryReadable(stod, t.entries[k])
    ensures DocReadable(stod, d) <==> forall key :: key in d.entries ==> DocReadable(stod, d.entries[key])
  {
    hide EntryReadable;
  }

  lemma {:induction false} ObjectDenoted(stod: Stod, t: Tree, obj: seq<Member>)
    requires t.TObject? && Fits(t) && DenoteEntries(stod, t.entries) == Success(obj)
    ensures Denote(stod, t) == Success(JsonValue.Object(obj))
  {
    hide DenoteEntries;
  }

  lemma {:induction false} ObjectPairFree(t: Tree)
    requires t.TObject?
    ensures PairFree(t) <==> forall k :: 0 <= k < |t.entries| ==> EntryPairFree(t.entries[k])
  {
    hide EntryPairFree;
  }

  /** The entries name the members of the map, each once. */
  predicate Names(entries: seq<Entry>, m: map<bytes, Doc>) {
    && (forall k :: 0 <= k < |entries| ==> ItemsFit(entries[k].key) && KeyOf(entries[k]) in m)
    && (forall key :: key in m ==> HasKey(entries, key))
    && forall j, k :: 0 <= j < k < |entries| ==> KeyOf(entries[j]) != KeyOf(entries[k])
  }

  lemma {:induction false} ObjectShownIff(stod: Stod, entries: seq<Entry>, obj: seq<Member>, m: map<bytes, Doc>)
    requires |obj| == |entries|
    requires forall k :: 0 <= k < |entries| ==> EntryOf(entries[k], m) && MemberOf(stod, obj[k], entries[k], m)
    requires forall key :: key in m ==> HasKey(entries, key)
    requires forall j, k :: 0 <= j < k < |entries| ==> KeyOf(entries[j]) != KeyOf(entries[k])
    ensures Shows(stod, JsonValue.Object(obj), DObject(m)) <==>
            forall k :: 0 <= k < |entries| ==> EntryPairFree(entries[k])
  {
    hide Shows, KeyOf, HasKey, PairFree, ItemsBytes, NoPair, Names, DistinctKeys, FindIn, MemberOf, EntryOf;
    MembersNamed(stod, entries, obj, m);
    if k :| 0 <= k < |entries| && !NoPair(entries[k].key) {
      assert !EntryPairFree(entries[k]);
      if Shows(stod, JsonValue.Object(obj), DObject(m)) {
        ShowsKeys(stod, obj, m);
        KeysLost(entries, obj, m, k);
      }
    } else {
      KeysKept(entries, obj, m);
      PlainShownIff(stod, entries, obj, m);
    }
  }

  lemma {:induction false} MembersNamed(stod: Stod, entries: seq<Entry>, obj: seq<Member>, m: map<bytes, Doc>)
    requires |obj| == |entries|
    requires forall k :: 0 <= k < |entries| ==> EntryOf(entries[k], m) && MemberOf(stod, obj[k], entries[k], m)
    requires forall key :: key in m ==> HasKey(entries, key)
    requires forall j, k :: 0 <= j < k < |entries| ==> KeyOf(entries[j]) != KeyOf(entries[k])
    ensures Names(entries, m)
    ensures forall k :: 0 <= k < |entries| ==> ItemsFit(entries[k].key) && obj[k].key == ItemsBytes(entries[k].key)
  {
    hide Shows, TreeOf, KeyOf, HasKey, PairFree, ItemsBytes;
    forall k | 0 <= k < |entries|
      ensures ItemsFit(entries[k].key) && KeyOf(entries[k]) in m && obj[k].key == ItemsBytes(entries[k].key)
    {
      assert EntryOf(entries[k], m) && MemberOf(stod, obj[k], entries[k], m);
    }
  }

  /** The names are read as they are, so it is for the values to show theirs. */
  lemma {:induction false} PlainShownIff(stod: Stod, entries: seq<Entry>, obj: seq<Member>, m: map<bytes, Doc>)
    requires Names(entries, m) && |obj| == |entries| && DistinctKeys(obj)
    requires forall k :: 0 <= k < |entries| ==> NoPair(entries[k].key) && obj[k].key == KeyOf(entries[k])
    requires forall k :: 0 <= k < |entries| ==> MemberOf(stod, obj[k], entries[k], m)
    requires forall key :: key in m <==> FindIn(obj, key).Some?
    ensures Shows(stod, JsonValue.Object(obj), DObject(m)) <==>
            forall k :: 0 <= k < |entries| ==> EntryPairFree(entries[k])
  {
    hide Shows, KeyOf, HasKey, PairFree, ItemsBytes, NoPair, FindIn, DistinctKeys;
    ObjectShown(stod, entries, obj, m);
    hide Names;
    forall k | 0 <= k < |entries|
      ensures EntryPairFree(entries[k]) <==> Shows(stod, obj[k].value, m[KeyOf(entries[k])])
    {
      assert MemberOf(stod, obj[k], entries[k], m);
    }
  }

  lemma {:induction false} ShowsKeys(stod: Stod, obj: seq<Member>, m: map<bytes, Doc>)
    requires Shows(stod, JsonValue.Object(obj), DObject(m))
    ensures DistinctKeys(obj) && forall key :: key in m <==> FindIn(obj, key).Some?
  {
    hide FindIn, DistinctKeys;
    forall key
      ensures JsonValue.Object(obj).Find(key) == FindIn(obj, key)
    {
    }
  }

  /** Names without pairs are read as they are: lookup finds each member under its name, and nothing else. */
  lemma {:induction false} KeysKept(entries: seq<Entry>, obj: seq<Member>, m: map<bytes, Doc>)
    requires Names(entries, m) && |obj| == |entries|
    requires forall k :: 0 <= k < |entries| ==> NoPair(entries[k].key) && obj[k].key == ItemsBytes(entries[k].key)
    ensures forall k :: 0 <= k < |entries| ==> obj[k].key == KeyOf(entries[k])
    ensures DistinctKeys(obj)
    ensures forall key :: key in m <==> FindIn(obj, key).Some?
  {
    forall k | 0 <= k < |entries|
      ensures obj[k].key == KeyOf(entries[k])
    {
      MeaningIff(entries[k].key);
    }
    hide KeyOf, FindIn, ItemsBytes, NoPair;
    forall key
      ensures key in m <==> FindIn(obj, key).Some?
    {
      if key in m {
        assert HasKey(entries, key);
        var k :| 0 <= k < |entries| && KeyOf(entries[k]) == key;
        assert obj[k].key == key;
      }
      if FindIn(obj, key).Some? {
        var k :| 0 <= k < |obj| && obj[k] == Member(key, FindIn(obj, key).value);
        assert KeyOf(entries[k]) in m;
      }
    }
  }

  /** With distinct keys, lookup finds each member itself. */
  lemma {:induction false} FindOwn(obj: seq<Member>, k: nat)
    requires k < |obj| && DistinctKeys(obj)
    ensures FindIn(obj, obj[k].key) == Some(obj[k].value)
  {
    var r := FindIn(obj, obj[k].key);
    assert r.Some?;
    var j :| 0 <= j < |obj| && obj[j] == Member(obj[k].key, r.value);
    assert j == k;
  }

  lemma {:induction false} ObjectShown(stod: Stod, entries: seq<Entry>, obj: seq<Member>, m: map<bytes, Doc>)
    requires Names(entries, m) && |obj| == |entries| && DistinctKeys(obj)
    requires forall k :: 0 <= k < |entries| ==> obj[k].key == KeyOf(entries[k])
    requires forall key :: key in m <==> FindIn(obj, key).Some?
    ensures Shows(stod, JsonValue.Object(obj), DObject(m)) <==>
            forall k :: 0 <= k < |entries| ==> Shows(stod, obj[k].value, m[KeyOf(entries[k])])
  {
    hide KeyOf, FindIn, Shows;
    forall k | 0 <= k < |entries|
      ensures FindIn(obj, obj[k].key) == Some(obj[k].value)
    {
      hide DistinctKeys;
      FindOwn(obj, k);
    }
    if forall k :: 0 <= k < |entries| ==> Shows(stod, obj[k].value, m[KeyOf(entries[k])]) {
      forall key | key in m
        ensures Shows(stod, FindIn(obj, key).value, m[key])
      {
        assert HasKey(entries, key);
        var k :| 0 <= k < |entries| && KeyOf(entries[k]) == key;
        assert Shows(stod, obj[k].value, m[KeyOf(entries[k])]);
      }
    }
    ShowsMembers(stod, obj, m);
  }

  lemma {:induction false} ShowsMembers(stod: Stod, obj: seq<Member>, m: map<bytes, Doc>)
    requires DistinctKeys(obj) && forall key :: key in m <==> FindIn(obj, key).Some?
    ensures Shows(stod, JsonValue.Object(obj), DObject(m)) <==>
            forall key :: key in m ==> Shows(stod, FindIn(obj, key).value, m[key])
  {
    hide FindIn, DistinctKeys;
    forall key
      ensures JsonValue.Object(obj).Find(key) == FindIn(obj, key)
    {
    }
  }

  function Total(names: seq<bytes>): nat {
    if names == [] then 0 else |names[0]| + Total(names[1..])
  }

  predicate Distinct(names: seq<bytes>) {
    forall j, k :: 0 <= j < k < |names| ==> names[j] != names[k]
  }

  lemma {:induction false} TotalWithout(names: seq<bytes>, j: nat)
    requires j < |names|
    ensures Total(names) == |names[j]| + Total(names[..j] + names[j + 1..])
    decreases |names|
  {
    if j == 0 {
      assert names[..0] + names[1..] == names[1..];
    } else {
      TotalWithout(names[1..], j - 1);
      assert (names[..j] + names[j + 1..])[1..] == names[1..][..j - 1] + names[1..][j..];
    }
  }

  /** Two listings of the same names have the same length in all. */
  lemma {:induction false} SameTotal(a: seq<bytes>, b: seq<bytes>)
    requires |a| == |b| && Distinct(a) && Distinct(b) && forall name :: name in a <==> name in b
    ensures Total(a) == Total(b)
    decreases |a|
  {
    if a != [] {
      assert a[0] in b;
      var j :| 0 <= j < |b| && b[j] == a[0];
      TotalWithout(b, j);
      Without(b, j);
      Without(a, 0);
      assert a[..0] + a[1..] == a[1..];
      SameTotal(a[1..], b[..j] + b[j + 1..]);
    }
  }

  lemma {:induction false} Without(names: seq<bytes>, j: nat)
    requires Distinct(names) && j < |names|
    ensures var rest := names[..j] + names[j + 1..];
            Distinct(rest) && forall name :: name in rest <==> name in names && name != names[j]
  {
    var rest := names[..j] + names[j + 1..];
    forall k | 0 <= k < |rest|
      ensures rest[k] == names[if k < j then k else k + 1]
    {
    }
    forall name | name in names && name != names[j]
      ensures name in rest
    {
      var k :| 0 <= k < |names| && names[k] == name;
      assert rest[if k < j then k else k - 1] == name;
    }
  }

  lemma {:induction false} TotalLess(a: seq<bytes>, b: seq<bytes>)
    requires |a| == |b| && forall k :: 0 <= k < |a| ==> |a[k]| <= |b[k]|
    ensures Total(a) <= Total(b)
    ensures (exists k :: 0 <= k < |a| && |a[k]| < |b[k]|) ==> Total(a) < Total(b)
    decreases |a|
  {
    if a != [] {
      TotalLess(a[1..], b[1..]);
      if k :| 0 <= k < |a| && |a[k]| < |b[k]| {
        assert k > 0 ==> |a[1..][k - 1]| < |b[1..][k - 1]|;
      }
    }
  }

  function KeysOf(obj: seq<Member>): seq<bytes> {
    seq(|obj|, k requires 0 <= k < |obj| => obj[k].key)
  }

  function NamesOf(entries: seq<Entry>): seq<bytes> {
    seq(|entries|, k requires 0 <= k < |entries| => KeyOf(entries[k]))
  }

  /** A pair in a name makes the parser's names longer in all, so they are not the same names. */
  lemma {:induction false} KeysLost(entries: seq<Entry>, obj: seq<Member>, m: map<bytes, Doc>, k: nat)
    requires Names(entries, m) && |obj| == |entries| && DistinctKeys(obj) && k < |entries|
    requires forall j :: 0 <= j < |entries| ==> obj[j].key == ItemsBytes(entries[j].key)
    requires forall key :: key in m <==> FindIn(obj, key).Some?
    ensures NoPair(entries[k].key)
  {
    var a, b := NamesOf(entries), KeysOf(obj);
    forall j | 0 <= j < |entries|
      ensures |a[j]| <= |b[j]| && (|a[j]| == |b[j]| <==> NoPair(entries[j].key))
    {
      MeaningIff(entries[j].key);
    }
    hide KeyOf, ItemsBytes, NoPair;
    forall name
      ensures name in a <==> name in b
    {
      SameName(entries, obj, m, name);
    }
    SameTotal(a, b);
    TotalLess(a, b);
  }

  lemma {:induction false} SameName(entries: seq<Entry>, obj: seq<Member>, m: map<bytes, Doc>, name: bytes)
    requires Names(entries, m) && (name in m <==> FindIn(obj, name).Some?)
    ensures name in NamesOf(entries) <==> name in KeysOf(obj)
  {
    hide KeyOf;
    var a, b := NamesOf(entries), KeysOf(obj);
    if name in m {
      assert HasKey(entries, name);
      var k :| 0 <= k < |entries| && KeyOf(entries[k]) == name;
      assert a[k] == name;
      var j :| 0 <= j < |obj| && obj[j] == Member(name, FindIn(obj, name).value);
      assert b[j] == name;
    }
    if name in b {
      var j :| 0 <= j < |b| && b[j] == name;
      assert obj[j].key == name;
    }
    if name in a {
      var k :| 0 <= k < |a| && a[k] == name;
      assert KeyOf(entries[k]) == name;
    }
  }

  lemma {:induction false} KeysReadable(stod: Stod, entries: seq<Entry>, m: map<bytes, Doc>)
    requires forall k :: 0 <= k < |entries| ==> EntryOf(entries[k], m)
    requires forall k :: 0 <= k < |entries| ==>
      KeyOf(entries[k]) in m && (EntryReadable(stod, entries[k]) <==> DocReadable(stod, m[KeyOf(entries[k])]))
    requires forall key :: key in m ==> HasKey(entries, key)
    ensures (forall k :: 0 <= k < |entries| ==> EntryReadable(stod, entries[k])) <==>
            (forall key :: key in m ==> DocReadable(stod, m[key]))
  {
    hide EntryReadable, DocReadable, TreeOf;
    if forall key :: key in m ==> DocReadable(stod, m[key]) {
      forall k | 0 <= k < |entries|
        ensures EntryReadable(stod, entries[k])
      {
        assert EntryOf(entries[k], m);
      }
    }
    if forall k :: 0 <= k < |entries| ==> EntryReadable(stod, entries[k]) {
      forall key | key in m
        ensures DocReadable(stod, m[key])
      {
        assert HasKey(entries, key);
        var k :| 0 <= k < |entries| && KeyOf(entries[k]) == key;
        assert EntryReadable(stod, entries[k]);
      }
    }
  }

  /**
   Any rendering of a document is accepted exactly when its integers lie in [-2^63, 2^64) and std::stod
   takes its other numbers. The value then shows the document exactly when the text escapes no surrogate
   pair.
   */
  lemma {:induction false} ParseRendered(stod: Stod, text: bytes, d: Doc)
    requires Renders(text, d)
    ensures Parse(stod, text).Success? <==> DocReadable(stod, d)
    ensures DocReadable(stod, d) ==> (Shows(stod, Parse(stod, text).value, d) <==> NoPairEscape(text))
  {
    hide Denote, Text, IsRfc, TreeOf, Shows, DocReadable, Readable, PairFree, NoPairEscape, Parse;
    var before, t, after :|
      IsRfc(t) && TreeOf(t, d) && AllSpace(before) && AllSpace(after) && text == before + Text(t) + after;
    TextParse(stod, before, t, after);
    AroundTree(before, t, after);
    TreeShows(stod, t, d);
  }

  lemma {:induction false} ElemsDenoted(stod: Stod, elems: seq<Elem>)
    requires (forall k :: 0 <= k < |elems| ==> ElemFits(elems[k])) && DenoteElems(stod, elems).Success?
    ensures forall k :: 0 <= k < |elems| ==>
              ElemFits(elems[k]) && Denote(stod, elems[k].value) == Success(DenoteElems(stod, elems).value[k])
    decreases |elems|
  {
    hide Denote, Fits;
    if elems != [] {
      assert ElemFits(elems[0]);
      ElemsDenoted(stod, elems[1..]);
      assert forall k :: 1 <= k < |elems| ==> elems[k] == elems[1..][k - 1];
    }
  }

  lemma {:induction false} EntriesDenoted(stod: Stod, entries: seq<Entry>)
    requires (forall k :: 0 <= k < |entries| ==> EntryFits(entries[k])) && DenoteEntries(stod, entries).Success?
    ensures forall k :: 0 <= k < |entries| ==>
              EntryFits(entries[k]) && DenoteEntry(stod, entries[k]) == Success(DenoteEntries(stod, entries).value[k])
    decreases |entries|
  {
    hide DenoteEntry, EntryFits;
    if entries != [] {
      assert EntryFits(entries[0]);
      EntriesDenoted(stod, entries[1..]);
      assert forall k :: 1 <= k < |entries| ==> entries[k] == entries[1..][k - 1];
    }
  }

  lemma {:induction false} EntryOfTree(t: Tree, m: map<bytes, Doc>, k: nat)
    requires t.TObject? && Fits(t) && TreeOf(t, DObject(m)) && k < |t.entries|
    ensures var e := t.entries[k];
            Fits(e.value) && e.value < e && KeyOf(e) in m && TreeOf(e.value, m[KeyOf(e)])
  {
    assert EntryFits(t.entries[k]) && EntryOf(t.entries[k], m);
  }

  lemma {:induction false} NamesOfTree(t: Tree, m: map<bytes, Doc>)
    requires t.TObject? && TreeOf(t, DObject(m))
    ensures Names(t.entries, m)
  {
    forall k | 0 <= k < |t.entries|
      ensures ItemsFit(t.entries[k].key) && KeyOf(t.entries[k]) in m
    {
      assert EntryOf(t.entries[k], m);
    }
  }

  // Documents of ASCII strings: their renderings have no pair to escape.

  predicate AsciiDoc(d: Doc) {
    match d
    case DString(s) => IsAscii(s)
    case DArray(items) => forall k :: 0 <= k < |items| ==> AsciiDoc(items[k])
    case DObject(entries) => forall key :: key in entries ==> IsAscii(key) && AsciiDoc(entries[key])
    case _ => true
  }

  lemma {:induction false} AsciiTree(t: Tree, d: Doc)
    requires Fits(t) && TreeOf(t, d) && AsciiDoc(d)
    ensures PairFree(t)
    decreases t
  {
    match t
    case TString(items) => AsciiNoPair(items);
    case TArray(_, elems) =>
      forall k | 0 <= k < |elems|
        ensures ElemPairFree(elems[k])
      {
        assert ElemFits(elems[k]) && ElemOf(elems[k], d.items[k]) && elems[k].value < elems[k];
        AsciiTree(elems[k].value, d.items[k]);
      }
    case TObject(_, entries) =>
      forall k | 0 <= k < |entries|
        ensures EntryPairFree(entries[k])
      {
        var e := entries[k];
        assert EntryFits(e) && EntryOf(e, d.entries) && e.value < e;
        AsciiNoPair(e.key);
        AsciiTree(e.value, d.entries[KeyOf(e)]);
      }
    case _ =>
  }

  lemma {:induction false} AsciiRendered(text: bytes, d: Doc)
    requires Renders(text, d) && AsciiDoc(d)
    ensures NoPairEscape(text)
  {
    hide Text, IsRfc, TreeOf, AsciiDoc, PairFree, NoPairEscape;
    var before, t, after :|
      IsRfc(t) && TreeOf(t, d) && AllSpace(before) && AllSpace(after) && text == before + Text(t) + after;
    AroundTree(before, t, after);
    AsciiTree(t, d);
  }

  // Documents whose names alone are ASCII: all but the strings arrive in any rendering.

  predicate AsciiNames(d: Doc) {
    match d
    case DArray(items) => forall k :: 0 <= k < |items| ==> AsciiNames(items[k])
    case DObject(entries) => forall key :: key in entries ==> IsAscii(key) && AsciiNames(entries[key])
    case _ => true
  }

  /** Shows, but with any string in place of one that is not ASCII. */
  ghost predicate Resembles(stod: Stod, j: JsonValue, d: Doc)
    decreases d
  {
    match d
    case DString(s) => j.String? && (IsAscii(s) ==> j.s == s)
    case DArray(items) =>
      j.Array? && |j.arr| == |items| && forall k :: 0 <= k < |items| ==> Resembles(stod, j.arr[k], items[k])
    case DObject(entries) =>
      && j.Object? && DistinctKeys(j.obj)
      && (forall key :: key in entries <==> FindIn(j.obj, key).Some?)
      && forall key :: key in entries ==> Resembles(stod, FindIn(j.obj, key).value, entries[key])
    case _ => Shows(stod, j, d)
  }

  lemma {:induction false} ResemblesMembers(stod: Stod, j: JsonValue, m: map<bytes, Doc>)
    requires Resembles(stod, j, DObject(m))
    ensures j.Object? && forall key :: key in m <==> j.Find(key).Some?
    ensures forall key :: key in m ==> Resembles(stod, j.Find(key).value, m[key])
    ensures Shows(stod, j, DObject(m)) <==> forall key :: key in m ==> Shows(stod, j.Find(key).value, m[key])
  {
    hide FindIn, DistinctKeys;
    forall key
      ensures j.Find(key) == FindIn(j.obj, key)
    {
    }
  }

  lemma {:induction false} ResemblesLeaf(stod: Stod, j: JsonValue, d: Doc)
    requires Resembles(stod, j, d)
    ensures d.DInt? ==> Shows(stod, j, d) && j.Int?
    ensures d.DString? ==> j.String? && (Shows(stod, j, d) <==> j.s == d.s) && (IsAscii(d.s) ==> j.s == d.s)
  {
  }

  lemma {:induction false} TreeResembles(stod: Stod, t: Tree, d: Doc)
    requires Fits(t) && TreeOf(t, d) && AsciiNames(d) && Denote(stod, t).Success?
    ensures Resembles(stod, Denote(stod, t).value, d)
    decreases t, 0
  {
    match t
    case TString(items) =>
      if IsAscii(d.s) {
        AsciiNoPair(items);
        MeaningIff(items);
      }
    case TArray(_, elems) =>
      var arr := DenoteElems(stod, elems).value;
      ElemsDenoted(stod, elems);
      forall k | 0 <= k < |elems|
        ensures Resembles(stod, arr[k], d.items[k])
      {
        assert ElemOf(elems[k], d.items[k]) && elems[k].value < elems[k];
        TreeResembles(stod, elems[k].value, d.items[k]);
      }
    case TObject(_, entries) => ObjectResembles(stod, t, d.entries);
    case TNumber(lex) =>
      TreeShows(stod, t, d);
      DenotesIffReadable(stod, t);
    case _ =>
  }

  lemma {:induction false} ObjectResembles(stod: Stod, t: Tree, m: map<bytes, Doc>)
    requires t.TObject? && Fits(t) && TreeOf(t, DObject(m)) && AsciiNames(DObject(m)) && Denote(stod, t).Success?
    ensures Resembles(stod, Denote(stod, t).value, DObject(m))
    decreases t.entries, 1
  {
    hide FindIn, KeyOf, ItemsBytes, HasKey, NoPair, Names, DistinctKeys, TreeOf, Resembles, Denote, DenoteEntries;
    hide AsciiNames;
    ObjectParts(stod, t);
    var obj := DenoteEntries(stod, t.entries).value;
    EntriesDenoted(stod, t.entries);
    NamesOfTree(t, m);
    forall k | 0 <= k < |t.entries|
      ensures NoPair(t.entries[k].key) && obj[k].key == ItemsBytes(t.entries[k].key)
    {
      EntryOfTree(t, m, k);
      NameIsAscii(m, KeyOf(t.entries[k]));
      AsciiKey(t.entries[k]);
    }
    KeysKept(t.entries, obj, m);
    forall key | key in m
      ensures Resembles(stod, FindIn(obj, key).value, m[key])
    {
      var k := Named(t.entries, m, key);
      EntryOfTree(t, m, k);
      FindOwn(obj, k);
      NameIsAscii(m, key);
      TreeResembles(stod, t.entries[k].value, m[key]);
    }
    ObjectResembled(stod, obj, m);
  }

  lemma {:induction false} ObjectParts(stod: Stod, t: Tree)
    requires t.TObject? && Fits(t) && Denote(stod, t).Success?
    ensures DenoteEntries(stod, t.entries).Success?
    ensures Denote(stod, t) == Success(JsonValue.Object(DenoteEntries(stod, t.entries).value))
  {
    hide DenoteEntries;
  }

  lemma {:induction false} ObjectResembled(stod: Stod, obj: seq<Member>, m: map<bytes, Doc>)
    requires DistinctKeys(obj) && forall key :: key in m <==> FindIn(obj, key).Some?
    requires forall key :: key in m ==> Resembles(stod, FindIn(obj, key).value, m[key])
    ensures Resembles(stod, JsonValue.Object(obj), DObject(m))
  {
    hide FindIn, DistinctKeys;
  }

  lemma {:induction false} NameIsAscii(m: map<bytes, Doc>, key: bytes)
    requires key in m && AsciiNames(DObject(m))
    ensures IsAscii(key) && AsciiNames(m[key])
  {
  }

  lemma {:induction false} AsciiKey(e: Entry)
    requires ItemsFit(e.key) && IsAscii(KeyOf(e))
    ensures NoPair(e.key)
  {
    AsciiNoPair(e.key);
  }

  lemma {:induction false} Named(entries: seq<Entry>, m: map<bytes, Doc>, key: bytes) returns (k: nat)
    requires Names(entries, m) && key in m
    ensures k < |entries| && KeyOf(entries[k]) == key
  {
    hide KeyOf;
    assert HasKey(entries, key);
    k :| 0 <= k < |entries| && KeyOf(entries[k]) == key;
  }

  lemma {:induction false} ParseResembles(stod: Stod, text: bytes, d: Doc)
    requires Renders(text, d) && AsciiNames(d) && DocReadable(stod, d)
    ensures Parse(stod, text).Success? && Resembles(stod, Parse(stod, text).value, d)
  {
    hide Denote, Text, IsRfc, TreeOf, DocReadable, Readable, Parse, AsciiNames, Resembles, PairFree, Shows;
    var before, t, after :|
      IsRfc(t) && TreeOf(t, d) && AllSpace(before) && AllSpace(after) && text == before + Text(t) + after;
    TextParse(stod, before, t, after);
    TreeShows(stod, t, d);
    TreeResembles(stod, t, d);
  }
}
