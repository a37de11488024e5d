/** Peer lists as little-endian u64 buffers: loro-c-api/src/awareness.rs to include/loro.hpp. */
module PeerBytes {
  import opened Bytes
  import opened Decimal

  function Power256(n: nat): (p: nat)
    ensures p > 0
  {
    if n == 0 then 1 else 256 * Power256(n - 1)
  }

  /** The n low bytes of a number, lowest first: u64::to_le_bytes for n = 8. */
  function LeBytes(v: nat, n: nat): (w: bytes)
    ensures |w| == n
  {
    if n == 0 then [] else [v % 256] + LeBytes(v / 256, n - 1)
  }

  /** The number a word of bytes stands for. */
  function LeValue(w: bytes): nat {
    if w == [] then 0 else w[0] + 256 * LeValue(w[1..])
  }

  /** The buffer of a list of peers. */
  function Packed(ids: seq<U64>): (raw: bytes)
    ensures |raw| == 8 * |ids|
  {
    if ids == [] then [] else LeBytes(ids[0], 8) + Packed(ids[1..])
  }

  /** The whole words of a buffer. */
  function Unpacked(raw: bytes): seq<nat> {
    if |raw| < 8 then [] else [LeValue(raw[..8])] + Unpacked(raw[8..])
  }

  lemma {:induction false} LeValueBound(w: bytes)
    ensures LeValue(w) < Power256(|w|)
  {
    if w != [] {
      LeValueBound(w[1..]);
    }
  }

  lemma {:induction false} Power256Of8()
    ensures Power256(8) == TWO64
  {
    assert Power256(4) == TWO32;
    assert Power256(6) == 0x1_0000 * TWO32;
  }

  lemma {:induction false} LeRoundTrip(v: nat, n: nat)
    requires v < Power256(n)
    ensures LeValue(LeBytes(v, n)) == v
  {
    if n > 0 {
      assert LeBytes(v, n)[1..] == LeBytes(v / 256, n - 1);
      LeRoundTrip(v / 256, n - 1);
    }
  }

  lemma {:induction false} LeRepack(w: bytes)
    ensures LeBytes(LeValue(w), |w|) == w
  {
    if w != [] {
      LeRepack(w[1..]);
      assert w == [w[0]] + w[1..];
    }
  }

  lemma {:induction false} LeValueAppend(w: bytes, b: Byte)
    ensures LeValue(w + [b]) == LeValue(w) + b * Power256(|w|)
  {
    if w == [] {
      assert LeValue([b][1..]) == 0;
    } else {
      assert (w + [b])[1..] == w[1..] + [b];
      LeValueAppend(w[1..], b);
      var p := Power256(|w| - 1);
      assert 256 * (b * p) == b * (256 * p);
    }
  }

  /** u64s_to_le_bytes */
  method U64sToLeBytes(ids: seq<U64>) returns (out: bytes)
    ensures out == Packed(ids)
  {
    out := [];
    for k := 0 to |ids|
      invariant out == Packed(ids[..k])
    {
      out := out + LeBytes(ids[k], 8);
      assert ids[..k + 1] == ids[..k] + [ids[k]];
      PackedMore(ids[..k], ids[k]);
    }
    assert ids[..|ids|] == ids;
  }

  lemma {:induction false} PackedMore(ids: seq<U64>, id: U64)
    ensures Packed(ids + [id]) == Packed(ids) + LeBytes(id, 8)
    decreases |ids|
  {
    if ids == [] {
      assert Packed([id][1..]) == [];
    } else {
      assert (ids + [id])[1..] == ids[1..] + [id];
      PackedMore(ids[1..], id);
    }
  }

  /** u64s_from_bytes; the shifted bytes do not overlap, so they are added (see BitFields). */
  method U64sFromBytes(raw: bytes) returns (out: seq<U64>)
    ensures out == Unpacked(raw)
  {
    out := [];
    var i := 0;
    while i + 8 <= |raw|
      invariant i <= |raw| && out + Unpacked(raw[i..]) == Unpacked(raw)
      decreases |raw| - i
    {
      var v: nat := 0;
      for j := 0 to 8
        invariant v == LeValue(raw[i..i + j])
      {
        assert raw[i..i + j + 1] == raw[i..i + j] + [raw[i + j]];
        LeValueAppend(raw[i..i + j], raw[i + j]);
        v := v + raw[i + j] * Power256(j);
      }
      LeValueBound(raw[i..i + 8]);
      Power256Of8();
      assert raw[i..][..8] == raw[i..i + 8] && raw[i..][8..] == raw[i + 8..];
      assert out + ([v] + Unpacked(raw[i + 8..])) == (out + [v]) + Unpacked(raw[i + 8..]);
      out := out + [v];
      i := i + 8;
    }
  }

  /** Every peer list survives its buffer. */
  lemma {:induction false} UnpackPacked(ids: seq<U64>)
    ensures Unpacked(Packed(ids)) == ids
    decreases |ids|
  {
    if ids != [] {
      var raw := Packed(ids);
      assert raw[..8] == LeBytes(ids[0], 8) && raw[8..] == Packed(ids[1..]);
      Power256Of8();
      LeRoundTrip(ids[0], 8);
      UnpackPacked(ids[1..]);
    }
  }

  /** Packing what a buffer holds gives its longest prefix of whole words. */
  lemma {:induction false} PackUnpacked(raw: bytes)
    ensures forall k :: 0 <= k < |Unpacked(raw)| ==> Unpacked(raw)[k] < TWO64
    ensures Packed(Unpacked(raw)) == raw[..|raw| - |raw| % 8]
    decreases |raw|
  {
    if |raw| >= 8 {
      PackUnpacked(raw[8..]);
      LeValueBound(raw[..8]);
      Power256Of8();
      LeRepack(raw[..8]);
      var ids := Unpacked(raw);
      assert ids[1..] == Unpacked(raw[8..]);
      assert raw[..|raw| - |raw| % 8] == raw[..8] + raw[8..][..|raw| - 8 - |raw| % 8];
    }
  }

  /** The weight of each byte of a word. */
  lemma {:induction false} WordSpelled(w: bytes)
    requires |w| == 8
    ensures LeValue(w) == Weighed(w)
  {
    WordTail(w, 0);
    WordTail(w, 1);
    WordTail(w, 2);
    WordTail(w, 3);
    WordTail(w, 4);
    WordTail(w, 5);
    WordTail(w, 6);
    WordTail(w, 7);
    assert w[0..] == w && w[8..] == [];
  }

  function Weighed(w: seq<int>): int
    requires |w| == 8
  {
    w[0] + w[1] * 0x100 + w[2] * 0x1_0000 + w[3] * 0x100_0000 + w[4] * 0x1_0000_0000 +
    w[5] * 0x100_0000_0000 + w[6] * 0x1_0000_0000_0000 + w[7] * 0x100_0000_0000_0000
  }

  lemma {:induction false} WordTail(w: bytes, k: nat)
    requires k < |w|
    ensures LeValue(w[k..]) == w[k] + 256 * LeValue(w[k + 1..])
  {
    assert w[k..][1..] == w[k + 1..];
  }

  /** The words stand one behind the other. */
  lemma {:induction false} WordAt(raw: bytes, k: nat)
    requires 8 * k + 8 <= |raw|
    ensures k < |Unpacked(raw)| && Unpacked(raw)[k] == LeValue(raw[8 * k..8 * k + 8])
    decreases k
  {
    hide LeValue;
    if k > 0 {
      var i := 8 * k;
      WordAt(raw[8..], k - 1);
      assert 8 * (k - 1) == i - 8;
      WordBehind(raw, i);
    }
  }

  lemma {:induction false} WordBehind(raw: bytes, i: nat)
    requires 8 <= i && i + 8 <= |raw|
    ensures raw[8..][i - 8..i] == raw[i..i + 8]
  {
  }
}
