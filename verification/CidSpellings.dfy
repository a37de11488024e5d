/** The "cid:" strings byte by byte: what container_id_to_cid_string writes and how every string is read. */
module CidSpellings {
  import opened Bytes
  import opened Decimal
  import opened Outcome
  import opened Cid

  /** Text, Map, List, MovableList, Tree and Counter. */
  function Spelling(ty: ContainerType): bytes
    requires !ty.UnknownType?
  {
    match ty
    case TextType => [0x54, 0x65, 0x78, 0x74]
    case MapType => [0x4D, 0x61, 0x70]
    case ListType => [0x4C, 0x69, 0x73, 0x74]
    case MovableListType => [0x4D, 0x6F, 0x76, 0x61, 0x62, 0x6C, 0x65, 0x4C, 0x69, 0x73, 0x74]
    case TreeType => [0x54, 0x72, 0x65, 0x65]
    case CounterType => [0x43, 0x6F, 0x75, 0x6E, 0x74, 0x65, 0x72]
  }

  lemma {:induction false} NamesSpelled(ty: ContainerType, name: bytes)
    ensures !ty.UnknownType? ==> TypeName(ty) == Spelling(ty)
    ensures ty.UnknownType? ==> TypeName(ty) == [0x55, 0x6E, 0x6B, 0x6E, 0x6F, 0x77, 0x6E]
    ensures !ty.UnknownType? && name == Spelling(ty) ==> TypeFromName(name) == ty
    ensures (forall known: ContainerType :: !known.UnknownType? ==> name != Spelling(known)) ==>
              TypeFromName(name) == UnknownType(0)
  {
    if forall known: ContainerType :: !known.UnknownType? ==> name != Spelling(known) {
      assert name != Spelling(TextType) && name != Spelling(MapType) && name != Spelling(ListType);
      assert name != Spelling(MovableListType) && name != Spelling(TreeType) && name != Spelling(CounterType);
    }
  }

  /** cid:root-NAME:TYPE is written for, and read as, the root id of that name and type. */
  lemma {:induction false} RootSpelled(name: bytes, ty: ContainerType)
    requires !ty.UnknownType?
    ensures var cid := [0x63, 0x69, 0x64, 0x3A, 0x72, 0x6F, 0x6F, 0x74, 0x2D] + (name + ([0x3A] + Spelling(ty)));
            && CidText(Root(name, ty)) == cid
            && ParseCid(cid) == if name == [] then Failure(MalformedRootCid) else Success(Root(name, ty))
  {
    hide ParseCid;
    NamesSpelled(ty, Spelling(ty));
    RootText(name, ty);
    assert CID_PREFIX + ROOT_PREFIX == [0x63, 0x69, 0x64, 0x3A, 0x72, 0x6F, 0x6F, 0x74, 0x2D];
    var rest := name + ([COLON] + TypeName(ty));
    assert CID_PREFIX + (ROOT_PREFIX + rest) == CID_PREFIX + ROOT_PREFIX + rest;
  }

  /** cid:COUNTER@PEER:TYPE, in decimal, is written for, and read as, the normal id. */
  lemma {:induction false} NormalSpelled(peer: U64, counter: I32, ty: ContainerType)
    requires !ty.UnknownType?
    ensures var cid := [0x63, 0x69, 0x64, 0x3A] +
                       (ToString(counter) + ([0x40] + (ToString(peer) + ([0x3A] + Spelling(ty)))));
            CidText(Normal(peer, counter, ty)) == cid && ParseCid(cid) == Success(Normal(peer, counter, ty))
  {
    hide ParseCid, ToString;
    NamesSpelled(ty, Spelling(ty));
    NormalText(peer, counter, ty);
  }

  // Every string.

  lemma {:induction false} OthersRefused(cid: bytes)
    requires !([0x63, 0x69, 0x64, 0x3A] <= cid)
    ensures ParseCid(cid) == Failure(NotACid)
  {
  }

  /** Behind cid:root- the last colon cuts the name, which may hold colons, from the type. */
  lemma {:induction false} RootRead(name: bytes, ty: bytes)
    requires 0x3A !in ty
    ensures ParseCid([0x63, 0x69, 0x64, 0x3A] + ([0x72, 0x6F, 0x6F, 0x74, 0x2D] + (name + ([0x3A] + ty)))) ==
            if name == [] then Failure(MalformedRootCid) else Success(Root(name, TypeFromName(ty)))
    ensures ParseCid([0x63, 0x69, 0x64, 0x3A] + ([0x72, 0x6F, 0x6F, 0x74, 0x2D] + ty)) == Failure(MalformedRootCid)
  {
    hide TypeFromName, LastIndex, ParseCid;
    var rest := name + ([COLON] + ty);
    BehindPrefix(ROOT_PREFIX + rest);
    assert (ROOT_PREFIX + rest)[5..] == rest;
    RootShape(name, ty);
    BehindPrefix(ROOT_PREFIX + ty);
    assert (ROOT_PREFIX + ty)[5..] == ty;
    NoColon(ty);
  }

  lemma {:induction false} NoColon(ty: bytes)
    requires 0x3A !in ty
    ensures LastIndex(ty, 0x3A) == -1
  {
  }

  /**
   Behind cid: the first @ ends the counter and the last colon starts the type. The counter and the peer
   are what std::stoll and std::stoull read, the counter cut to 32 bits.
   */
  lemma {:induction false} NormalRead(counter: bytes, peer: bytes, ty: bytes)
    requires 0x40 !in counter && 0x3A !in ty
    requires !([0x72, 0x6F, 0x6F, 0x74, 0x2D] <= counter + ([0x40] + (peer + ([0x3A] + ty))))
    ensures ParseCid([0x63, 0x69, 0x64, 0x3A] + (counter + ([0x40] + (peer + ([0x3A] + ty))))) ==
            match Stoll(counter)
            case Failure(e) => Failure(e)
            case Success(c) =>
              match Stoull(peer)
              case Failure(e) => Failure(e)
              case Success(p) => Success(Normal(p, ToI32(c), TypeFromName(ty)))
  {
    hide TypeFromName, LastIndex, IndexFrom, ParseCid, Stoll, Stoull, ToI32;
    BehindPrefix(counter + ([0x40] + (peer + ([0x3A] + ty))));
    NormalPlaces(counter, peer, ty);
  }

  lemma {:induction false} NormalPlaces(counter: bytes, peer: bytes, ty: bytes)
    requires 0x40 !in counter && 0x3A !in ty
    ensures var s := counter + ([0x40] + (peer + ([0x3A] + ty)));
            var at, colon := |counter|, |counter| + 1 + |peer|;
            && IndexFrom(s, 0x40, 0) == at && LastIndex(s, 0x3A) == colon && colon < |s|
            && s[..at] == counter && s[at + 1..colon] == peer && s[colon + 1..] == ty
  {
    hide IndexFrom, LastIndex;
    var s := counter + ([AT_SIGN] + (peer + ([COLON] + ty)));
    var at, colon := |counter|, |counter| + 1 + |peer|;
    assert s[at] == AT_SIGN && s[..at] == counter;
    FirstIndexIs(s, AT_SIGN, at);
    assert s[colon] == COLON && s[colon + 1..] == ty;
    LastIndexIs(s, COLON, colon);
    assert s[at + 1..colon] == peer;
  }

  /** Without an @ in front of a colon it is no normal id. */
  lemma {:induction false} NormalRefused(s: bytes)
    requires !([0x72, 0x6F, 0x6F, 0x74, 0x2D] <= s)
    requires forall k, j :: 0 <= k < j < |s| && s[k] == 0x40 ==> s[j] != 0x3A
    ensures ParseCid([0x63, 0x69, 0x64, 0x3A] + s) == Failure(MalformedNormalCid)
  {
    hide TypeFromName, LastIndex, IndexFrom, ParseCid, Stoll, Stoull, ToI32;
    BehindPrefix(s);
    assert IndexFrom(s, AT_SIGN, 0) != -1 && LastIndex(s, COLON) != -1 ==>
        IndexFrom(s, AT_SIGN, 0) >= LastIndex(s, COLON);
  }
}
