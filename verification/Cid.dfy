/** Container ids and their "cid:" strings. */
module Cid {
  import opened Bytes
  import opened Decimal
  import opened Outcome

  datatype ContainerType =
    TextType | MapType | ListType | MovableListType | TreeType | CounterType | UnknownType(kind: Byte)

  datatype ContainerId =
    | Root(name: bytes, ty: ContainerType)
    | Normal(peer: U64, counter: I32, ty: ContainerType)

  const CID_PREFIX: bytes := [0x63, 0x69, 0x64, 0x3A]         // cid:
  const ROOT_PREFIX: bytes := [0x72, 0x6F, 0x6F, 0x74, 0x2D]  // root-

  const TEXT_NAME: bytes := [0x54, 0x65, 0x78, 0x74]
  const MAP_NAME: bytes := [0x4D, 0x61, 0x70]
  const LIST_NAME: bytes := [0x4C, 0x69, 0x73, 0x74]
  const MOVABLE_LIST_NAME: bytes := [0x4D, 0x6F, 0x76, 0x61, 0x62, 0x6C, 0x65, 0x4C, 0x69, 0x73, 0x74]
  const TREE_NAME: bytes := [0x54, 0x72, 0x65, 0x65]
  const COUNTER_NAME: bytes := [0x43, 0x6F, 0x75, 0x6E, 0x74, 0x65, 0x72]
  const UNKNOWN_NAME: bytes := [0x55, 0x6E, 0x6B, 0x6E, 0x6F, 0x77, 0x6E]

  /** container_type_name */
  function TypeName(ty: ContainerType): bytes {
    match ty
    case TextType => TEXT_NAME
    case MapType => MAP_NAME
    case ListType => LIST_NAME
    case MovableListType => MOVABLE_LIST_NAME
    case TreeType => TREE_NAME
    case CounterType => COUNTER_NAME
    case UnknownType(_) => UNKNOWN_NAME
  }

  /** container_type_from_name */
  function TypeFromName(name: bytes): ContainerType {
    if name == TEXT_NAME then TextType
    else if name == MAP_NAME then MapType
    else if name == LIST_NAME then ListType
    else if name == MOVABLE_LIST_NAME then MovableListType
    else if name == TREE_NAME then TreeType
    else if name == COUNTER_NAME then CounterType
    else UnknownType(0)
  }

  /** container_id_to_cid_string */
  function CidText(id: ContainerId): bytes {
    match id
    case Root(name, ty) => CID_PREFIX + (ROOT_PREFIX + (name + ([COLON] + TypeName(ty))))
    case Normal(peer, counter, ty) => CID_PREFIX + NormalBody(ToString(counter), ToString(peer), TypeName(ty))
  }

  function NormalBody(counter: bytes, peer: bytes, ty: bytes): bytes {
    counter + ([AT_SIGN] + (peer + ([COLON] + ty)))
  }

  /** cid_string_to_container_id */
  function ParseCid(cid: bytes): Result<ContainerId> {
    if !(CID_PREFIX <= cid) then Failure(NotACid)
    else
      var s := cid[4..];
      if ROOT_PREFIX <= s then ParseRoot(s[5..]) else ParseNormal(s)
  }

  function ParseRoot(s: bytes): Result<ContainerId> {
    var split := LastIndex(s, COLON);
    if split == -1 || split == 0 then Failure(MalformedRootCid)
    else Success(Root(s[..split], TypeFromName(s[split + 1..])))
  }

  function ParseNormal(s: bytes): Result<ContainerId> {
    var at := IndexFrom(s, AT_SIGN, 0);
    var colon := LastIndex(s, COLON);
    if at == -1 || colon == -1 || at >= colon then Failure(MalformedNormalCid)
    else
      var counter :- Stoll(s[..at]);
      var peer :- Stoull(s[at + 1..colon]);
      Success(Normal(peer, ToI32(counter), TypeFromName(s[colon + 1..])))
  }

  lemma {:induction false} LastIndexIs(s: bytes, b: Byte, k: nat)
    requires k < |s| && s[k] == b && b !in s[k + 1..]
    ensures LastIndex(s, b) == k
  {
    var r := LastIndex(s, b);
    assert b in s;
  }

  lemma {:induction false} FirstIndexIs(s: bytes, b: Byte, k: nat)
    requires k < |s| && s[k] == b && b !in s[..k]
    ensures IndexFrom(s, b, 0) == k
  {
    var r := IndexFrom(s, b, 0);
    assert s[0..] == s;
  }

  lemma {:induction false} TypeNamePlain(ty: ContainerType)
    ensures COLON !in TypeName(ty)
    ensures TypeFromName(TypeName(ty)) == if ty.UnknownType? then UnknownType(0) else ty
  {
  }

  lemma {:induction false} DecimalPlain(n: int)
    ensures COLON !in ToString(n) && AT_SIGN !in ToString(n)
    ensures ToString(n) != [] && ToString(n)[0] != ROOT_PREFIX[0]
  {
    var d := Digits(if n < 0 then -n else n);
    assert ToString(n) == d || ToString(n) == [MINUS] + d;
    assert forall k :: 0 <= k < |d| ==> IsDigit(d[k]);
  }

  /** The ids whose string names them: root names are not empty, and the kind of an unknown type is not printed. */
  predicate Printable(id: ContainerId) {
    (id.Root? ==> id.name != []) && (id.ty.UnknownType? ==> id.ty.kind == 0)
  }

  lemma {:induction false} BehindPrefix(rest: bytes)
    ensures ParseCid(CID_PREFIX + rest) == if ROOT_PREFIX <= rest then ParseRoot(rest[5..]) else ParseNormal(rest)
  {
    hide ParseRoot, ParseNormal;
    assert (CID_PREFIX + rest)[4..] == rest;
  }

  lemma {:induction false} RootText(name: bytes, ty: ContainerType)
    ensures ParseCid(CidText(Root(name, ty))) ==
            if name == [] then Failure(MalformedRootCid) else Success(Root(name, TypeFromName(TypeName(ty))))
  {
    hide TypeName, TypeFromName, LastIndex, ParseCid;
    var y := TypeName(ty);
    var rest := name + ([COLON] + y);
    BehindPrefix(ROOT_PREFIX + rest);
    assert (ROOT_PREFIX + rest)[5..] == rest;
    TypeNamePlain(ty);
    RootShape(name, y);
  }

  lemma {:induction false} RootShape(name: bytes, y: bytes)
    requires COLON !in y
    ensures var s := name + ([COLON] + y);
            LastIndex(s, COLON) == |name| && s[..|name|] == name && s[|name| + 1..] == y
  {
    var s := name + ([COLON] + y);
    assert s[|name| + 1..] == y && s[..|name|] == name;
    LastIndexIs(s, COLON, |name|);
  }

  /** A root id of a known type has one string only. */
  lemma {:induction false} RootParsed(cid: bytes)
    requires ParseCid(cid).Success? && ParseCid(cid).value.Root? && !ParseCid(cid).value.ty.UnknownType?
    ensures cid == CidText(ParseCid(cid).value)
  {
    hide ParseRoot, TypeName;
    assert !ParseNormal(cid[4..]).Success? || ParseNormal(cid[4..]).value.Normal? by {
      NormalParsed(cid[4..]);
    }
    hide ParseNormal;
    var s := cid[4..];
    assert ROOT_PREFIX <= s;
    assert s == ROOT_PREFIX + s[5..] && cid == CID_PREFIX + s;
    RootParts(s[5..]);
  }

  lemma {:induction false} NormalParsed(s: bytes)
    ensures ParseNormal(s).Success? ==> ParseNormal(s).value.Normal?
  {
    hide Stoll, Stoull, IndexFrom, LastIndex, TypeFromName;
  }

  lemma {:induction false} RootParts(s: bytes)
    requires ParseRoot(s).Success? && !ParseRoot(s).value.ty.UnknownType?
    ensures var id := ParseRoot(s).value; id.Root? && s == id.name + ([COLON] + TypeName(id.ty))
  {
    var split := LastIndex(s, COLON);
    hide LastIndex;
    assert s == s[..split] + ([COLON] + s[split + 1..]);
    KnownName(s[split + 1..]);
  }

  lemma {:induction false} KnownName(name: bytes)
    ensures !TypeFromName(name).UnknownType? ==> TypeName(TypeFromName(name)) == name
  {
  }

  /** Where the parser cuts the text of a normal id. */
  lemma {:induction false} NormalShape(c: bytes, p: bytes, y: bytes)
    requires c != [] && c[0] != ROOT_PREFIX[0] && AT_SIGN !in c
    requires COLON !in y
    ensures var s := NormalBody(c, p, y);
            && |s| == |c| + |p| + |y| + 2
            && !(ROOT_PREFIX <= s)
            && IndexFrom(s, AT_SIGN, 0) == |c| && s[..|c|] == c
            && LastIndex(s, COLON) == |c| + 1 + |p| && s[|c| + 1..|c| + 1 + |p|] == p && s[|c| + 1 + |p| + 1..] == y
  {
    hide IndexFrom, LastIndex;
    var s := c + ([AT_SIGN] + (p + ([COLON] + y)));
    var at, colon := |c|, |c| + 1 + |p|;
    assert s[0] == c[0];
    assert s[..at] == c && s[at + 1..colon] == p && s[colon + 1..] == y;
    FirstIndexIs(s, AT_SIGN, at);
    LastIndexIs(s, COLON, colon);
  }

  lemma {:induction false} ParseNormalShape(s: bytes, at: nat, colon: nat, counter: I64, peer: U64)
    requires IndexFrom(s, AT_SIGN, 0) == at && LastIndex(s, COLON) == colon && at < colon < |s|
    requires Stoll(s[..at]) == Success(counter) && Stoull(s[at + 1..colon]) == Success(peer)
    ensures ParseNormal(s) == Success(Normal(peer, ToI32(counter), TypeFromName(s[colon + 1..])))
  {
    hide Stoll, Stoull, IndexFrom, LastIndex, TypeFromName, ToI32;
  }

  lemma {:induction false} NormalText(peer: U64, counter: I32, ty: ContainerType)
    ensures ParseCid(CidText(Normal(peer, counter, ty))) == Success(Normal(peer, counter, TypeFromName(TypeName(ty))))
  {
    hide TypeName, TypeFromName, ToString, Stoll, Stoull, IndexFrom, LastIndex, ParseCid, ParseNormal, ToI32;
    hide NormalBody;
    var c, p, y := ToString(counter), ToString(peer), TypeName(ty);
    DecimalPlain(counter);
    DecimalPlain(peer);
    TypeNamePlain(ty);
    NormalShape(c, p, y);
    var s := NormalBody(c, p, y);
    BehindPrefix(s);
    StollOfString(counter);
    StoullOfString(peer);
    I32Kept(counter);
    ParseNormalShape(s, |c|, |c| + 1 + |p|, counter, peer);
  }

  /** A container id survives its string form exactly when it is printable. */
  lemma {:induction false} CidRoundTrip(id: ContainerId)
    ensures ParseCid(CidText(id)) == Success(id) <==> Printable(id)
  {
    match id
    case Root(name, ty) =>
      RootText(name, ty);
      TypeNamePlain(ty);
    case Normal(peer, counter, ty) =>
      NormalText(peer, counter, ty);
      TypeNamePlain(ty);
  }

  /** Different printable ids have different strings. */
  lemma {:induction false} CidInjective(a: ContainerId, b: ContainerId)
    requires Printable(a) && Printable(b) && CidText(a) == CidText(b)
    ensures a == b
  {
    CidRoundTrip(a);
    CidRoundTrip(b);
  }

  lemma {:induction false} ParsedIsPrintable(cid: bytes)
    requires ParseCid(cid).Success?
    ensures Printable(ParseCid(cid).value)
  {
    hide Stoll, Stoull, IndexFrom, LastIndex;
  }

  /** Whatever the parser accepts, it reads as a printable id, whose string it reads the same. */
  lemma {:induction false} CidNormalForm(cid: bytes)
    requires ParseCid(cid).Success?
    ensures Printable(ParseCid(cid).value)
    ensures ParseCid(CidText(ParseCid(cid).value)) == ParseCid(cid)
  {
    hide ParseCid, CidText;
    ParsedIsPrintable(cid);
    CidRoundTrip(ParseCid(cid).value);
  }
}
