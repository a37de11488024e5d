/** Key lists: a JSON array of strings from loro-c-api to parse_string_array. */
module StringLists {
  import opened Bytes
  import opened Outcome
  import opened Json
  import opened Reader
  import opened Documents
  import opened Surrogates
  import JsonParser

  /** The document of a list of keys. */
  function StringsDoc(keys: seq<bytes>): Doc {
    DArray(seq(|keys|, k requires 0 <= k < |keys| => DString(keys[k])))
  }

  /** The strings of an array, in order; elements of other kinds are passed over. */
  function ReadStrings(arr: seq<JsonValue>): seq<bytes> {
    if arr == [] then []
    else
      var front, last := ReadStrings(arr[..|arr| - 1]), arr[|arr| - 1];
      if last.String? then front + [last.s] else front
  }

  method ParseStringArray(stod: Stod, json: bytes) returns (r: Result<seq<bytes>>)
    ensures json == [] ==> r == Success([])
    ensures json != [] && Parse(stod, json).Failure? ==> r == Failure(Parse(stod, json).error)
    ensures json != [] && Parse(stod, json).Success? ==> r == Success(ReadStrings(Parse(stod, json).value.Elements()))
  {
    var out: seq<bytes> := [];
    if json == [] {
      return Success(out);
    }
    var root :- JsonParser.ParseJson(stod, json);
    if !root.Array? {
      return Success(out);
    }
    for k := 0 to |root.arr|
      invariant out == ReadStrings(root.arr[..k])
    {
      assert root.arr[..k + 1][..k] == root.arr[..k];
      if root.arr[k].String? {
        out := out + [root.arr[k].s];
      }
    }
    assert root.arr[..|root.arr|] == root.arr;
    return Success(out);
  }

  lemma {:induction false} StringsRead(arr: seq<JsonValue>, keys: seq<bytes>)
    requires |arr| == |keys| && forall k :: 0 <= k < |keys| ==> arr[k] == JsonValue.String(keys[k])
    ensures ReadStrings(arr) == keys
    decreases |keys|
  {
    if keys != [] {
      var n := |keys| - 1;
      StringsRead(arr[..n], keys[..n]);
      assert keys == keys[..n] + [keys[n]];
    }
  }

  /** The strings read are the keys only if each element is its key. */
  lemma {:induction false} StringsBack(arr: seq<JsonValue>, keys: seq<bytes>)
    requires |arr| == |keys| && forall k :: 0 <= k < |keys| ==> arr[k].String?
    requires ReadStrings(arr) == keys
    ensures forall k :: 0 <= k < |keys| ==> arr[k] == JsonValue.String(keys[k])
  {
    var own := seq(|arr|, k requires 0 <= k < |arr| => arr[k].s);
    StringsRead(arr, own);
  }

  /** A list of keys arrives unchanged and in order, in any rendering that escapes no surrogate pair, and only then. */
  lemma {:induction false} StringArrayRoundTrip(stod: Stod, text: bytes, keys: seq<bytes>)
    requires Renders(text, StringsDoc(keys))
    ensures Parse(stod, text).Success?
    ensures ReadStrings(Parse(stod, text).value.Elements()) == keys <==> NoPairEscape(text)
  {
    hide Parse, ReadStrings, NoPairEscape, Renders;
    var d := StringsDoc(keys);
    ParseRendered(stod, text, d);
    ParseResembles(stod, text, d);
    var j := Parse(stod, text).value;
    forall k | 0 <= k < |keys|
      ensures j.arr[k].String?
    {
      assert Resembles(stod, j.arr[k], d.items[k]);
    }
    if Shows(stod, j, d) {
      forall k | 0 <= k < |keys|
        ensures j.arr[k] == JsonValue.String(keys[k])
      {
        assert Shows(stod, j.arr[k], d.items[k]);
      }
      StringsRead(j.arr, keys);
    }
    if ReadStrings(j.arr) == keys {
      StringsBack(j.arr, keys);
    }
  }

  /** Each string of an array is read at its place, and every other element is passed over. */
  lemma {:induction false} ElementsRead(front: seq<JsonValue>, e: JsonValue, back: seq<JsonValue>)
    ensures ReadStrings([]) == []
    ensures ReadStrings(front + [e] + back) ==
            ReadStrings(front) + (match e case String(s) => [s] case _ => []) + ReadStrings(back)
    decreases |back|
  {
    if back == [] {
      assert front + [e] + back == front + [e];
      assert (front + [e])[..|front|] == front;
    } else {
      var all, n := front + [e] + back, |back| - 1;
      assert all[..|all| - 1] == front + [e] + back[..n] && all[|all| - 1] == back[n];
      ElementsRead(front, e, back[..n]);
    }
  }
}
