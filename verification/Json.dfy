/** The parsed document of include/loro.hpp and the library calls its number path makes. */
module Json {
  import opened Bytes
  import opened Decimal
  import opened Outcome

  /** A double, as its 64-bit pattern. */
  type F64 = x: int | 0 <= x < 0x1_0000_0000_0000_0000

  /** std::stod: the double a text denotes, or the exception it throws. */
  type Stod = bytes -> Result<F64>

  datatype JsonValue =
    | Null
    | Bool(b: bool)
    | Int(i: I64)
    | Double(d: F64)
    | String(s: bytes)
    | Array(arr: seq<JsonValue>)
    | Object(obj: seq<Member>)
  {
    /** The first member of that name. Values that are no object have no members. */
    function Find(key: bytes): (r: Option<JsonValue>) {
      FindIn(Members(), key)
    }

    // The fields of the C++ struct keep their defaults in a value of another kind.

    function IntField(): I64 {
      if Int? then i else 0
    }

    function DoubleField(): F64 {
      if Double? then d else 0
    }

    function Elements(): seq<JsonValue> {
      if Array? then arr else []
    }

    function Members(): seq<Member> {
      if Object? then obj else []
    }
  }

  datatype Member = Member(key: bytes, value: JsonValue)

  function FindIn(obj: seq<Member>, key: bytes): (r: Option<JsonValue>)
    ensures r.None? <==> forall k :: 0 <= k < |obj| ==> obj[k].key != key
    ensures r.Some? ==> exists k :: 0 <= k < |obj| && obj[k] == Member(key, r.value) &&
                                    forall m :: 0 <= m < k ==> obj[m].key != key
  {
    if obj == [] then None
    else if obj[0].key == key then
      assert obj[0] == Member(key, obj[0].value);
      Some(obj[0].value)
    else
      var r := FindIn(obj[1..], key);
      assert forall k :: 1 <= k < |obj| ==> obj[k] == obj[1..][k - 1];
      assert r.Some? ==> exists k :: 0 <= k < |obj| && obj[k] == Member(key, r.value) &&
                                     forall m :: 0 <= m < k ==> obj[m].key != key by {
        if r.Some? {
          var k :| 0 <= k < |obj[1..]| && obj[1..][k] == Member(key, r.value) &&
                   forall m :: 0 <= m < k ==> obj[1..][m].key != key;
          assert obj[k + 1] == Member(key, r.value);
        }
      }
      r
  }

  /** A step of a parse: what was read and where it ended, or what was thrown. */
  datatype Parsed<+T> = Ok(value: T, end: nat) | Err(error: Error) {
    predicate IsFailure() {
      Err?
    }

    function PropagateFailure<U>(): Parsed<U>
      requires Err?
    {
      Err(error)
    }

    function Extract(): (T, nat)
      requires Ok?
    {
      (value, end)
    }
  }

  function Lift<T>(r: Result<T>, end: nat): Parsed<T> {
    match r
    case Success(v) => Ok(v, end)
    case Failure(e) => Err(e)
  }

  // Numbers. The lexeme is the longest run of number bytes.

  predicate IsNumberByte(b: Byte) {
    IsDigit(b) || b == DOT || b == 0x65 || b == 0x45 || b == PLUS || b == MINUS
  }

  /** The lexeme without its leading minus sign. */
  function Magnitude(lex: bytes): bytes {
    if lex != [] && lex[0] == MINUS then lex[1..] else lex
  }

  predicate IsDouble(lex: bytes) {
    !AllDigits(Magnitude(lex))
  }

  /** The int64 branch: stoll, and stoull for numbers that only fit unsigned. */
  function ReadInteger(lex: bytes): Result<I64>
    requires lex != []
  {
    match Stoll(lex)
    case Success(n) => Success(n)
    case Failure(OutOfRange) =>
      if lex[0] == MINUS then Failure(OutOfRange)
      else
        var u :- Stoull(lex);
        Success(ToI64(u))
    case Failure(e) => Failure(e)
  }

  function ReadNumber(stod: Stod, lex: bytes): Result<JsonValue>
    requires lex != []
  {
    if IsDouble(lex) then
      var d :- stod(lex);
      Success(Double(d))
    else
      var n :- ReadInteger(lex);
      Success(Int(n))
  }

  /** The integer an integer lexeme denotes. */
  function IntegerOf(lex: bytes): int
    requires !IsDouble(lex)
  {
    if lex != [] && lex[0] == MINUS then 0 - Value(lex[1..]) else Value(lex)
  }

  /**
   An integer lexeme is read exactly: its value modulo 2^64 when it lies in [-2^63, 2^64), and
   refused outside. A minus sign without digits is refused too.
   */
  lemma {:induction false} IntegerRead(lex: bytes)
    requires lex != [] && !IsDouble(lex)
    ensures ReadInteger(lex) ==
            if Magnitude(lex) == [] then Failure(InvalidArgument)
            else if -TWO63 <= IntegerOf(lex) < TWO64 then Success(ToI64(IntegerOf(lex)))
            else Failure(OutOfRange)
  {
    var negative := lex[0] == MINUS;
    ScanPlain(negative, Magnitude(lex));
    assert lex == (if negative then [MINUS] else []) + Magnitude(lex);
  }

  /** Canonical decimal text of n is read as n modulo 2^64, in and only in [-2^63, 2^64). */
  lemma {:induction false} DecimalRead(n: int)
    ensures ToString(n) != [] && !IsDouble(ToString(n)) && IntegerOf(ToString(n)) == n
    ensures ReadInteger(ToString(n)) ==
            if -TWO63 <= n < TWO64 then Success(ToI64(n)) else Failure(OutOfRange)
    ensures 0 <= n < TWO64 ==> ToU64(ReadInteger(ToString(n)).value) == n
  {
    var t := ToString(n);
    if n < 0 {
      assert t[1..] == Digits(-n);
      ValueOfDigits(-n);
    } else {
      assert IsDigit(t[0]);
      ValueOfDigits(n);
    }
    IntegerRead(t);
    if 0 <= n < TWO64 {
      U64ThroughI64(n);
    }
  }
}
