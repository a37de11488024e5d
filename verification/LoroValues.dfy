/** The typed value of include/loro.hpp and json_to_value. */
module LoroValues {
  import opened Bytes
  import opened Decimal
  import opened Outcome
  import opened Json
  import opened Cid

  datatype LoroValue =
    | KNull
    | KBool(b: bool)
    | KDouble(d: F64)
    | KI64(i: I64)
    | KBinary(data: bytes)
    | KString(s: bytes)
    | KList(items: seq<LoroValue>)
    | KMap(entries: map<bytes, LoroValue>)
    | KContainer(id: ContainerId)

  /** json_to_value */
  function JsonToValue(j: JsonValue): LoroValue
    decreases j
  {
    match j
    case Null => KNull
    case Bool(b) => KBool(b)
    case Int(i) => KI64(i)
    case Double(d) => KDouble(d)
    case String(s) => KString(s)
    case Array(arr) => KList(seq(|arr|, k requires 0 <= k < |arr| => JsonToValue(arr[k])))
    case Object(obj) => KMap(EntriesOf(obj))
  }

  /** The members emplaced one after the other: a key that is there already stays as it is. */
  function EntriesOf(obj: seq<Member>): map<bytes, LoroValue>
    decreases obj
  {
    if obj == [] then map[]
    else
      var m := EntriesOf(obj[..|obj| - 1]);
      var last := obj[|obj| - 1];
      assert last.value < last;
      if last.key in m then m else m[last.key := JsonToValue(last.value)]
  }

  lemma {:induction false} FindInFront(obj: seq<Member>, last: Member, key: bytes)
    ensures FindIn(obj + [last], key) ==
            if FindIn(obj, key).Some? then FindIn(obj, key)
            else if last.key == key then Some(last.value) else None
    decreases |obj|
  {
    if obj != [] {
      assert (obj + [last])[1..] == obj[1..] + [last];
      FindInFront(obj[1..], last, key);
    } else {
      assert FindIn([last][1..], key) == None;
    }
  }

  /** Lookup in the parsed object and in the converted map agree at every key, duplicates included. */
  lemma {:induction false} EntriesAgreeWithFind(obj: seq<Member>, key: bytes)
    ensures key in EntriesOf(obj) <==> FindIn(obj, key).Some?
    ensures key in EntriesOf(obj) ==> EntriesOf(obj)[key] == JsonToValue(FindIn(obj, key).value)
    decreases |obj|
  {
    if obj != [] {
      var front, last := obj[..|obj| - 1], obj[|obj| - 1];
      assert obj == front + [last];
      FindInFront(front, last, key);
      EntriesAgreeWithFind(front, key);
    }
  }
}
