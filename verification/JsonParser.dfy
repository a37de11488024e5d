/** The recursive-descent parser of include/loro.hpp: a cursor that its methods move over a byte buffer. */
module JsonParser {
  import opened Bytes
  import opened Decimal
  import opened Outcome
  import opened Json
  import opened Grammar
  import opened Reader

  /** A method that returns r and leaves the cursor at i did what the step says. */
  predicate Did<T(==)>(r: Result<T>, i: nat, step: Parsed<T>) {
    match step
    case Ok(v, e) => r == Success(v) && i == e
    case Err(e) => r == Failure(e)
  }

  /** The step that reads rest after out has been read already. */
  function After<T>(out: seq<T>, rest: Parsed<seq<T>>): Parsed<seq<T>> {
    match rest
    case Ok(t, e) => Ok(out + t, e)
    case Err(e) => Err(e)
  }

  lemma {:induction false} AfterNothing<T>(rest: Parsed<seq<T>>)
    ensures After([], rest) == rest
  {
    if rest.Ok? {
      assert [] + rest.value == rest.value;
    }
  }

  lemma {:induction false} AfterMore<T>(out: seq<T>, v: seq<T>, rest: Parsed<seq<T>>)
    ensures After(out, After(v, rest)) == After(out + v, rest)
  {
    if rest.Ok? {
      assert out + (v + rest.value) == (out + v) + rest.value;
    }
  }

  // One round of each loop.

  lemma {:induction false} MembersRound(stod: Stod, s: bytes, i: nat, out: seq<Member>)
    requires i <= |s|
    ensures MemberAt(stod, s, i).Err? ==> After(out, MembersAt(stod, s, i)) == Err(MemberAt(stod, s, i).error)
    ensures MemberAt(stod, s, i).Ok? ==>
            var m := MemberAt(stod, s, i);
            var sep := SkipSpace(s, m.end);
            After(out, MembersAt(stod, s, i)) ==
            if Peek(s, sep) == COMMA then After(out + [m.value], MembersAt(stod, s, sep + 1))
            else if Peek(s, sep) == RBRACE then Ok(out + [m.value], sep + 1)
            else Err(ExpectedCommaOrBrace)
  {
    hide MemberAt, SkipSpace;
    var m := MemberAt(stod, s, i);
    if m.Ok? {
      var sep := SkipSpace(s, m.end);
      if Peek(s, sep) == COMMA {
        assert MembersAt(stod, s, i) == After([m.value], MembersAt(stod, s, sep + 1));
        AfterMore(out, [m.value], MembersAt(stod, s, sep + 1));
      }
    }
  }

  lemma {:induction false} ElementsRound(stod: Stod, s: bytes, i: nat, out: seq<JsonValue>)
    requires i <= |s|
    ensures ValueAt(stod, s, i).Err? ==> After(out, ElementsAt(stod, s, i)) == Err(ValueAt(stod, s, i).error)
    ensures ValueAt(stod, s, i).Ok? ==>
            var v := ValueAt(stod, s, i);
            var sep := SkipSpace(s, v.end);
            After(out, ElementsAt(stod, s, i)) ==
            if Peek(s, sep) == COMMA then After(out + [v.value], ElementsAt(stod, s, sep + 1))
            else if Peek(s, sep) == RBRACKET then Ok(out + [v.value], sep + 1)
            else Err(ExpectedCommaOrBracket)
  {
    hide ValueAt, SkipSpace;
    var v := ValueAt(stod, s, i);
    if v.Ok? {
      var sep := SkipSpace(s, v.end);
      if Peek(s, sep) == COMMA {
        assert ElementsAt(stod, s, i) == After([v.value], ElementsAt(stod, s, sep + 1));
        AfterMore(out, [v.value], ElementsAt(stod, s, sep + 1));
      }
    }
  }

  lemma {:induction false} CharsRound(s: bytes, i: nat, out: bytes)
    requires i < |s|
    ensures s[i] == QUOTE ==> After(out, CharsAt(s, i)) == Ok(out, i + 1)
    ensures s[i] != QUOTE && CharAt(s, i).Err? ==> After(out, CharsAt(s, i)) == Err(CharAt(s, i).error)
    ensures s[i] != QUOTE && CharAt(s, i).Ok? ==>
              After(out, CharsAt(s, i)) == After(out + CharAt(s, i).value, CharsAt(s, CharAt(s, i).end))
  {
    if s[i] == QUOTE {
      assert out + [] == out;
    } else if CharAt(s, i).Ok? {
      AfterMore(out, CharAt(s, i).value, CharsAt(s, CharAt(s, i).end));
    }
  }

  /** Some byte in s[i..j) is no digit. */
  predicate HasNonDigit(s: bytes, i: nat, j: nat)
    requires j <= |s|
  {
    exists k :: i <= k < j && !IsDigit(s[k])
  }

  /** One byte of the scan. */
  lemma {:induction false} NumberRound(s: bytes, body: nat, i: nat)
    requires body <= i < |s|
    ensures NumberEnd(s, i) == if IsNumberByte(s[i]) then NumberEnd(s, i + 1) else i
    ensures HasNonDigit(s, body, i + 1) <==> HasNonDigit(s, body, i) || !IsDigit(s[i])
  {
  }

  lemma {:induction false} NoneYet(s: bytes, i: nat)
    requires i <= |s|
    ensures !HasNonDigit(s, i, i)
  {
  }

  lemma {:induction false} NumberStops(s: bytes, i: nat)
    requires i <= |s| && (i < |s| ==> !IsNumberByte(s[i]))
    ensures NumberEnd(s, i) == i
  {
  }

  lemma {:induction false} NumberDone(stod: Stod, s: bytes, i: nat)
    requires i <= |s|
    ensures var e := NumberEnd(s, i);
            NumberAt(stod, s, i) == if e == i then Err(BadNumber) else Lift(ReadNumber(stod, s[i..e]), e)
  {
    hide NumberEnd, ReadNumber;
  }

  /** The catch clause of parse_number. */
  lemma {:induction false} ReadIntegerCases(num: bytes)
    requires num != []
    ensures Stoll(num).Success? ==> ReadInteger(num) == Stoll(num)
    ensures Stoll(num).Failure? && (Stoll(num).error != OutOfRange || num[0] == MINUS) ==>
        ReadInteger(num) == Stoll(num)
    ensures Stoll(num) == Failure(OutOfRange) && num[0] != MINUS ==>
              ReadInteger(num) ==
              if Stoull(num).Success? then Success(ToI64(Stoull(num).value)) else Failure(Stoull(num).error)
  {
    hide Stoll, Stoull, ToI64;
  }

  lemma {:induction false} NonDigitMeansDouble(s: bytes, start: nat, end: nat)
    requires start < end <= |s|
    ensures IsDouble(s[start..end]) <==> HasNonDigit(s, if s[start] == MINUS then start + 1 else start, end)
  {
    var body := if s[start] == MINUS then start + 1 else start;
    var t := Magnitude(s[start..end]);
    assert t == s[body..end];
    forall k | body <= k < end
      ensures s[k] == t[k - body]
    {
    }
  }

  class JsonParser {
    const s: bytes
    const stod: Stod
    var i: nat

    ghost predicate Valid()
      reads this
    {
      i <= |s|
    }

    constructor (stod: Stod, s: bytes)
      ensures Valid() && i == 0 && this.s == s && this.stod == stod
    {
      this.s, this.stod, this.i := s, stod, 0;
    }

    /** parse() */
    method ParseDocument() returns (r: Result<JsonValue>)
      requires Valid()
      requires i == 0
      modifies this
      ensures Valid()
      ensures Did(r, i, DocumentAt(stod, s))
    {
      SkipWhite();
      var v :- ParseValue();
      SkipWhite();
      return Success(v);
    }

    method SkipWhite()
      requires Valid()
      modifies this
      ensures Valid()
      ensures i == SkipSpace(s, old(i))
    {
      while i < |s| && Grammar.IsSpace(s[i])
        invariant Valid()
        invariant SkipSpace(s, i) == SkipSpace(s, old(i))
      {
        i := i + 1;
      }
    }

    function Next(): Byte
      reads this
    {
      Peek(s, i)
    }

    method ParseValue() returns (r: Result<JsonValue>)
      requires Valid()
      modifies this
      ensures Valid()
      ensures Did(r, i, ValueAt(stod, s, old(i)))
      decreases |s| - i, 2
    {
      SkipWhite();
      var c := Next();
      if c == LBRACE {
        r := ParseObject();
      } else if c == LBRACKET {
        r := ParseArray();
      } else if c == QUOTE {
        var t :- ParseString();
        r := Success(JsonValue.String(t));
      } else if c == TRUE_TEXT[0] || c == FALSE_TEXT[0] {
        r := ParseBool();
      } else if c == NULL_TEXT[0] {
        r := ParseNull();
      } else {
        r := ParseNumber();
      }
    }

    method ParseObject() returns (r: Result<JsonValue>)
      requires Valid() && i < |s|
      modifies this
      ensures Valid()
      ensures Did(r, i, ObjectAt(stod, s, old(i)))
      decreases |s| - i, 1
    {
      hide MemberAt, SkipSpace;
      ghost var start := i;
      i := i + 1;
      SkipWhite();
      if Next() == RBRACE {
        i := i + 1;
        return Success(JsonValue.Object([]));
      }
      ghost var first := i;
      var obj: seq<Member> := [];
      AfterNothing(MembersAt(stod, s, first));
      while true
        invariant Valid() && start < i
        invariant After(obj, MembersAt(stod, s, i)) == MembersAt(stod, s, first)
        decreases |s| - i
      {
        MembersRound(stod, s, i, obj);
        var m :- ParseMember();
        obj := obj + [m];
        SkipWhite();
        if Next() == COMMA {
          i := i + 1;
        } else if Next() == RBRACE {
          i := i + 1;
          break;
        } else {
          return Failure(ExpectedCommaOrBrace);
        }
      }
      return Success(JsonValue.Object(obj));
    }

    /** One key, colon and value. */
    method ParseMember() returns (r: Result<Member>)
      requires Valid()
      modifies this
      ensures Valid()
      ensures Did(r, i, MemberAt(stod, s, old(i)))
      decreases |s| - i, 3
    {
      hide ValueAt, StringAt, SkipSpace;
      SkipWhite();
      if Next() != QUOTE {
        return Failure(ExpectedKey);
      }
      var key :- ParseString();
      SkipWhite();
      if Next() != COLON {
        return Failure(ExpectedColon);
      }
      i := i + 1;
      var v :- ParseValue();
      return Success(Member(key, v));
    }

    method ParseArray() returns (r: Result<JsonValue>)
      requires Valid() && i < |s|
      modifies this
      ensures Valid()
      ensures Did(r, i, ArrayAt(stod, s, old(i)))
      decreases |s| - i, 1
    {
      hide ValueAt, SkipSpace;
      ghost var start := i;
      i := i + 1;
      SkipWhite();
      if Next() == RBRACKET {
        i := i + 1;
        return Success(JsonValue.Array([]));
      }
      ghost var first := i;
      var arr: seq<JsonValue> := [];
      AfterNothing(ElementsAt(stod, s, first));
      while true
        invariant Valid() && start < i
        invariant After(arr, ElementsAt(stod, s, i)) == ElementsAt(stod, s, first)
        decreases |s| - i
      {
        ElementsRound(stod, s, i, arr);
        var v :- ParseValue();
        arr := arr + [v];
        SkipWhite();
        if Next() == COMMA {
          i := i + 1;
        } else if Next() == RBRACKET {
          i := i + 1;
          break;
        } else {
          return Failure(ExpectedCommaOrBracket);
        }
      }
      return Success(JsonValue.Array(arr));
    }

    method ParseString() returns (r: Result<bytes>)
      requires Valid()
      modifies this
      ensures Valid()
      ensures Did(r, i, StringAt(s, old(i)))
    {
      if Next() != QUOTE {
        return Failure(ExpectedQuote);
      }
      i := i + 1;
      ghost var first := i;
      var out: bytes := [];
      AfterNothing(CharsAt(s, first));
      while i < |s|
        invariant Valid()
        invariant After(out, CharsAt(s, i)) == CharsAt(s, first)
      {
        CharsRound(s, i, out);
        var c := s[i];
        i := i + 1;
        if c == QUOTE {
          return Success(out);
        }
        if c == BACKSLASH {
          var t :- ParseEscape();
          out := out + t;
        } else {
          out := out + [c];
        }
      }
      return Failure(UnterminatedString);
    }

    /** What an escape adds to the string; the cursor is behind its backslash. */
    method ParseEscape() returns (r: Result<bytes>)
      requires Valid() && i > 0 && s[i - 1] == BACKSLASH
      modifies this
      ensures Valid()
      ensures Did(r, i, CharAt(s, old(i) - 1))
    {
      if i >= |s| {
        return Failure(TruncatedEscape);
      }
      var e := s[i];
      i := i + 1;
      if e == LETTER_U {
        var cp :- ParseHex4();
        return Success(EmitBmp(cp));
      }
      match EscapeTarget(e)
      case Some(b) => return Success([b]);
      case None => return Failure(UnknownEscape);
    }

    /** The four hexadecimal digits of a \u escape. */
    method ParseHex4() returns (r: Result<nat>)
      requires Valid()
      modifies this
      ensures Valid()
      ensures if old(i) + 4 > |s| then r == Failure(TruncatedUnicodeEscape)
              else if !AllHex(s[old(i)..old(i) + 4]) then r == Failure(BadHexDigit)
              else r == Success(HexValue(s[old(i)..old(i) + 4])) && r.value < 0x1_0000 && i == old(i) + 4
    {
      if i + 4 > |s| {
        return Failure(TruncatedUnicodeEscape);
      }
      var cp := 0;
      ghost var start := i;
      for k := 0 to 4
        invariant i == start + k <= |s|
        invariant AllHex(s[start..i]) && cp == HexValue(s[start..i])
      {
        var h := s[i];
        i := i + 1;
        ghost var seen := s[start..i];
        assert seen[..|seen| - 1] == s[start..i - 1] && seen[|seen| - 1] == h;
        if !IsHex(h) {
          assert s[start..start + 4][k] == h;
          return Failure(BadHexDigit);
        }
        cp := cp * 16 + HexDigit(h);
      }
      HexValueBound(s[start..i]);
      return Success(cp);
    }

    method ParseBool() returns (r: Result<JsonValue>)
      requires Valid()
      modifies this
      ensures Valid()
      ensures Did(r, i, BoolAt(s, old(i)))
    {
      if At(s, i, TRUE_TEXT) {
        i := i + 4;
        return Success(JsonValue.Bool(true));
      } else if At(s, i, FALSE_TEXT) {
        i := i + 5;
        return Success(JsonValue.Bool(false));
      }
      return Failure(BadLiteral);
    }

    method ParseNull() returns (r: Result<JsonValue>)
      requires Valid()
      modifies this
      ensures Valid()
      ensures Did(r, i, NullAt(s, old(i)))
    {
      if At(s, i, NULL_TEXT) {
        i := i + 4;
        return Success(JsonValue.Null);
      }
      return Failure(BadLiteral);
    }

    method ParseNumber() returns (r: Result<JsonValue>)
      requires Valid()
      modifies this
      ensures Valid()
      ensures Did(r, i, NumberAt(stod, s, old(i)))
    {
      hide Stoll, Stoull, ToI64, NumberEnd, HasNonDigit, NumberAt, ReadInteger, IsDouble;
      var start := i;
      var isDouble := false;
      NumberDone(stod, s, start);
      if Next() == MINUS {
        NumberRound(s, i, i);
        i := i + 1;
      }
      ghost var body := i;
      NoneYet(s, body);
      while i < |s|
        invariant start <= body <= i <= |s|
        invariant NumberEnd(s, i) == NumberEnd(s, start)
        invariant isDouble <==> HasNonDigit(s, body, i)
      {
        NumberRound(s, body, i);
        var c := s[i];
        if IsDigit(c) {
          i := i + 1;
        } else if c == DOT || c == 0x65 || c == 0x45 || c == PLUS || c == MINUS {
          isDouble := true;
          i := i + 1;
        } else {
          break;
        }
      }
      NumberStops(s, i);
      if i == start {
        return Failure(BadNumber);
      }
      var num := s[start..i];
      NonDigitMeansDouble(s, start, i);
      if isDouble {
        var d :- stod(num);
        return Success(Double(d));
      }
      ReadIntegerCases(num);
      match Stoll(num)
      case Success(n) => return Success(Int(n));
      case Failure(e) =>
        if e != OutOfRange || num[0] == MINUS {
          return Failure(e);
        }
        var u :- Stoull(num);
        return Success(Int(ToI64(u)));
    }
  }

  /** parse_json */
  method ParseJson(stod: Stod, s: bytes) returns (r: Result<JsonValue>)
    ensures r == Parse(stod, s)
  {
    var parser := new JsonParser(stod, s);
    r := parser.ParseDocument();
  }
}
