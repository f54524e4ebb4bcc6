/**
  Payload encodings (src/infra/network/payloads.cpp and the serialization parts of addresses.cpp)
  as functions on byte sequences.
 */
module Payloads {
  import opened Common
  import opened Addresses
  import opened Codec

  const MAPPED_PREFIX: Bytes := [0, 0, 0, 0, 0, 0, 0, 0, 0, 0, 0xFF, 0xFF]

  predicate LeadingZeros8(b: Bytes16) {
    b[..8] == [0, 0, 0, 0, 0, 0, 0, 0]
  }

  /** IPv4 addresses travel in their IPv4-mapped form (section 2.5.5.2 of RFC 4291). */
  function EncodeAddress(a: IPAddress): (b: Bytes)
    ensures |b| == 16
  {
    match a
    case V4(n) => MAPPED_PREFIX + BE(n, 4)
    case V6(bytes) => bytes
  }

  function ReadAddress(s: Bytes): Parsed<IPAddress> {
    var (b, rest) :- ReadBytes(s, 16);
    if LeadingZeros8(b) then
      BEOfFromBE(b[12..]);
      Pow256Values();
      Got(V4(FromBE(b[12..])), rest)
    else
      Got(V6(b), rest)
  }

  /** The addresses the reader gives back. */
  predicate Representable(a: IPAddress) {
    a.V6? ==> !LeadingZeros8(a.bytes)
  }

  /** An address survives exactly when it is IPv4, or IPv6 with a nonzero first half. */
  lemma AddressRoundTrip(a: IPAddress, tail: Bytes)
    ensures ReadAddress(EncodeAddress(a) + tail) == Got(a, tail) <==> Representable(a)
  {
    ReadBytesOf(EncodeAddress(a), tail);
    var b := EncodeAddress(a);
    if a.V4? {
      assert b[..8] == [0, 0, 0, 0, 0, 0, 0, 0];
      assert b[12..] == BE(a.value, 4);
      Pow256Values();
      FromBEOfBE(a.value, 4);
    }
  }

  function EncodeEndpoint(ep: IPEndpoint): (b: Bytes)
    ensures |b| == 18
  {
    EncodeAddress(ep.address) + BE(ep.port, 2)
  }

  function ReadPort(s: Bytes): Parsed<U16> {
    var (b, rest) :- ReadBytes(s, 2);
    BEOfFromBE(b);
    Pow256Values();
    Got(FromBE(b), rest)
  }

  function ReadEndpoint(s: Bytes): Parsed<IPEndpoint> {
    var (a, s1) :- ReadAddress(s);
    var (port, rest) :- ReadPort(s1);
    Got(IPEndpoint(a, port), rest)
  }

  lemma EndpointRoundTrip(ep: IPEndpoint, tail: Bytes)
    ensures ReadEndpoint(EncodeEndpoint(ep) + tail) == Got(ep, tail) <==> Representable(ep.address)
  {
    ReadBytesOf(EncodeAddress(ep.address), BE(ep.port, 2) + tail);
    AddressRoundTrip(ep.address, BE(ep.port, 2) + tail);
    assert EncodeEndpoint(ep) + tail == EncodeAddress(ep.address) + (BE(ep.port, 2) + tail);
    ReadBytesOf(BE(ep.port, 2), tail);
    Pow256Values();
    FromBEOfBE(ep.port, 2);
  }

  function ReadU32(s: Bytes): Parsed<U32> {
    var (b, rest) :- ReadBytes(s, 4);
    LEOfFromLE(b);
    Pow256Values();
    Got(FromLE(b), rest)
  }

  function ReadU64(s: Bytes): Parsed<U64> {
    var (b, rest) :- ReadBytes(s, 8);
    LEOfFromLE(b);
    Pow256Values();
    Got(FromLE(b), rest)
  }

  lemma ReadU32Of(n: U32, tail: Bytes)
    ensures ReadU32(LE(n, 4) + tail) == Got(n, tail)
  {
    Pow256Values();
    FromLEOfLE(n, 4);
    ReadBytesOf(LE(n, 4), tail);
  }

  lemma ReadU64Of(n: U64, tail: Bytes)
    ensures ReadU64(LE(n, 8) + tail) == Got(n, tail)
  {
    Pow256Values();
    FromLEOfLE(n, 8);
    ReadBytesOf(LE(n, 8), tail);
  }

  /** The service of a version message carries no time. */
  datatype VersionService = VersionService(services: U64, endpoint: IPEndpoint)

  function EncodeVersionService(v: VersionService): (b: Bytes)
    ensures |b| == 26
  {
    LE(v.services, 8) + EncodeEndpoint(v.endpoint)
  }

  function ReadVersionService(s: Bytes): Parsed<VersionService> {
    var (services, s1) :- ReadU64(s);
    var (ep, rest) :- ReadEndpoint(s1);
    Got(VersionService(services, ep), rest)
  }

  lemma VersionServiceRoundTrip(v: VersionService, tail: Bytes)
    requires Representable(v.endpoint.address)
    ensures ReadVersionService(EncodeVersionService(v) + tail) == Got(v, tail)
  {
    assert EncodeVersionService(v) + tail == LE(v.services, 8) + (EncodeEndpoint(v.endpoint) + tail);
    ReadU64Of(v.services, EncodeEndpoint(v.endpoint) + tail);
    EndpointRoundTrip(v.endpoint, tail);
  }

  /** Times are cut to 32 bits on the wire. */
  function EncodeNodeService(s: NodeService): (b: Bytes)
    ensures |b| == 30
  {
    LE(s.time % 0x1_0000_0000, 4) + (LE(s.services, 8) + EncodeEndpoint(s.endpoint))
  }

  function ReadNodeService(s: Bytes): Parsed<NodeService> {
    var (time, s1) :- ReadU32(s);
    var (services, s2) :- ReadU64(s1);
    var (ep, rest) :- ReadEndpoint(s2);
    Got(NodeService(time, services, ep), rest)
  }

  predicate WireService(s: NodeService) {
    0 <= s.time < 0x1_0000_0000 && Representable(s.endpoint.address)
  }

  /** An advertised service survives exactly when its time fits 32 bits and its address is representable. */
  lemma NodeServiceRoundTrip(s: NodeService, tail: Bytes)
    ensures ReadNodeService(EncodeNodeService(s) + tail) == Got(s, tail) <==> WireService(s)
  {
    var t2 := EncodeEndpoint(s.endpoint) + tail;
    var t1 := LE(s.services, 8) + t2;
    assert EncodeNodeService(s) + tail == LE(s.time % 0x1_0000_0000, 4) + t1;
    ReadU32Of(s.time % 0x1_0000_0000, t1);
    ReadU64Of(s.services, t2);
    EndpointRoundTrip(s.endpoint, tail);
  }

  datatype VersionPayload = VersionPayload(
    protocolVersion: int,
    services: U64,
    timestamp: int,
    recipient: VersionService,
    sender: VersionService,
    nonce: U64,
    userAgent: Bytes,
    lastBlockHeight: int,
    relay: bool
  ) {
    predicate Fits() {
      FitsSigned(protocolVersion, 4) && FitsSigned(timestamp, 8) && FitsSigned(lastBlockHeight, 4)
      && |userAgent| < 0x1_0000_0000_0000_0000
    }
  }

  datatype VersionHead = VersionHead(protocolVersion: int, services: U64, timestamp: int)
  datatype VersionMiddle = VersionMiddle(recipient: VersionService, sender: VersionService, nonce: U64,
                                         userAgent: Bytes)

  function EncodeVersionHead(v: VersionPayload): Bytes
    requires v.Fits()
  {
    EncodeInt(v.protocolVersion, 4) + (LE(v.services, 8) + EncodeInt(v.timestamp, 8))
  }

  function EncodeVersionMiddle(v: VersionPayload): Bytes
    requires v.Fits()
  {
    EncodeVersionService(v.recipient) + (EncodeVersionService(v.sender) + (LE(v.nonce, 8) + EncodeString(v.userAgent)))
  }

  function EncodeVersion(v: VersionPayload): Bytes
    requires v.Fits()
  {
    EncodeVersionHead(v) + (EncodeVersionMiddle(v) + (EncodeInt(v.lastBlockHeight, 4) + [if v.relay then 1 else 0]))
  }

  function ReadVersionHead(s: Bytes): Parsed<VersionHead> {
    var (pv, s1) :- ReadInt(s, 4);
    var (services, s2) :- ReadU64(s1);
    var (ts, rest) :- ReadInt(s2, 8);
    Got(VersionHead(pv, services, ts), rest)
  }

  function ReadVersionMiddle(s: Bytes): Parsed<VersionMiddle> {
    var (recipient, s1) :- ReadVersionService(s);
    var (sender, s2) :- ReadVersionService(s1);
    var (nonce, s3) :- ReadU64(s2);
    var (agent, rest) :- ReadString(s3);
    Got(VersionMiddle(recipient, sender, nonce, agent), rest)
  }

  /** A negative timestamp already read is reported before any later read failure, then a negative height. */
  function ReadVersion(s: Bytes): Parsed<VersionPayload> {
    var (head, s1) :- ReadVersionHead(s);
    match ReadVersionMiddle(s1)
    case Fail(e) => Fail(if head.timestamp < 0 then MessagePayloadInvalidTimestamp else e)
    case Got(mid, s2) =>
      match ReadInt(s2, 4)
      case Fail(e) => Fail(if head.timestamp < 0 then MessagePayloadInvalidTimestamp else e)
      case Got(height, s3) =>
        if head.timestamp < 0 then Fail(MessagePayloadInvalidTimestamp)
        else if height < 0 then Fail(MessagePayloadInvalidLastBlockHeight)
        else
          var (relay, rest) :- ReadBytes(s3, 1);
          Got(VersionPayload(head.protocolVersion, head.services, head.timestamp, mid.recipient, mid.sender,
                             mid.nonce, mid.userAgent, height, relay[0] == 1), rest)
  }

  predicate WireVersion(v: VersionPayload) {
    && v.Fits()
    && v.timestamp >= 0
    && v.lastBlockHeight >= 0
    && Representable(v.recipient.endpoint.address)
    && Representable(v.sender.endpoint.address)
    && |v.userAgent| <= MAX_COMPACT_SIZE
  }

  lemma VersionHeadRoundTrip(v: VersionPayload, tail: Bytes)
    requires v.Fits()
    ensures ReadVersionHead(EncodeVersionHead(v) + tail) ==
            Got(VersionHead(v.protocolVersion, v.services, v.timestamp), tail)
  {
    var t2 := EncodeInt(v.timestamp, 8) + tail;
    var t1 := LE(v.services, 8) + t2;
    assert EncodeVersionHead(v) + tail == EncodeInt(v.protocolVersion, 4) + t1;
    ReadIntOf(v.protocolVersion, 4, t1);
    ReadU64Of(v.services, t2);
    ReadIntOf(v.timestamp, 8, tail);
  }

  lemma VersionMiddleRoundTrip(v: VersionPayload, tail: Bytes)
    requires WireVersion(v)
    ensures ReadVersionMiddle(EncodeVersionMiddle(v) + tail) ==
            Got(VersionMiddle(v.recipient, v.sender, v.nonce, v.userAgent), tail)
  {
    var t3 := EncodeString(v.userAgent) + tail;
    var t2 := LE(v.nonce, 8) + t3;
    var t1 := EncodeVersionService(v.sender) + t2;
    assert EncodeVersionMiddle(v) + tail == EncodeVersionService(v.recipient) + t1;
    VersionServiceRoundTrip(v.recipient, t1);
    VersionServiceRoundTrip(v.sender, t2);
    ReadU64Of(v.nonce, t3);
    StringRoundTrip(v.userAgent, tail);
  }

  /** Version messages with non-negative timestamp and height survive the wire. */
  lemma VersionRoundTrip(v: VersionPayload, tail: Bytes)
    requires WireVersion(v)
    ensures ReadVersion(EncodeVersion(v) + tail) == Got(v, tail)
  {
    var flag: Bytes := [if v.relay then 1 else 0];
    var t3 := flag + tail;
    var t2 := EncodeInt(v.lastBlockHeight, 4) + t3;
    var t1 := EncodeVersionMiddle(v) + t2;
    assert EncodeVersion(v) + tail == EncodeVersionHead(v) + t1;
    VersionHeadRoundTrip(v, t1);
    VersionMiddleRoundTrip(v, t2);
    ReadIntOf(v.lastBlockHeight, 4, t3);
    ReadBytesOf(flag, tail);
  }

  const MAX_INV_ITEMS := 50_000
  const MAX_ADDR_ITEMS := 1_000
  const MAX_GETHEADERS_ITEMS := 2_000
  const MAX_HEADERS_ITEMS := 160

  /** The compact count of a vector, refused when zero or above `max`. */
  function ReadCount(s: Bytes, max: nat): Parsed<nat> {
    var (n, rest) :- ReadCompact(s);
    if n == 0 then Fail(MessagePayloadEmptyVector)
    else if n > max then Fail(MessagePayloadOversizedVector)
    else Got(n, rest)
  }

  function CheckCount(n: nat, max: nat): Option<Error> {
    if n == 0 then Some(MessagePayloadEmptyVector)
    else if n > max then Some(MessagePayloadOversizedVector)
    else None
  }

  lemma ReadCountOf(n: nat, max: nat, tail: Bytes)
    requires max <= MAX_COMPACT_SIZE && 1 <= n <= max
    ensures ReadCount(WriteCompact(n) + tail, max) == Got(n, tail)
  {
    CompactRoundTrip(n, tail);
  }

  function EncodeAddr(items: seq<NodeService>): Result<Bytes> {
    match CheckCount(|items|, MAX_ADDR_ITEMS)
    case Some(e) => Err(e)
    case None => Ok(WriteCompact(|items|) + EncodeItems(items, EncodeNodeService))
  }

  function ReadAddr(s: Bytes): Parsed<seq<NodeService>> {
    var (n, s1) :- ReadCount(s, MAX_ADDR_ITEMS);
    ReadItems(s1, n, ReadNodeService)
  }

  lemma AddrRoundTrip(items: seq<NodeService>, tail: Bytes)
    requires 1 <= |items| <= MAX_ADDR_ITEMS
    requires forall s | s in items :: WireService(s)
    ensures EncodeAddr(items).Ok?
    ensures ReadAddr(EncodeAddr(items).value + tail) == Got(items, tail)
  {
    var body := EncodeItems(items, EncodeNodeService);
    ReadCountOf(|items|, MAX_ADDR_ITEMS, body + tail);
    assert EncodeAddr(items).value + tail == WriteCompact(|items|) + (body + tail);
    forall x, t: Bytes | x in items
      ensures ReadNodeService(EncodeNodeService(x) + t) == Got(x, t)
    {
      NodeServiceRoundTrip(x, t);
    }
    ItemsRoundTrip(items, EncodeNodeService, ReadNodeService, tail);
  }

  datatype InventoryType = InvError | Tx | Block | FilteredBlock {
    function Code(): nat {
      match this
      case InvError => 0
      case Tx => 1
      case Block => 2
      case FilteredBlock => 3
    }
  }

  datatype InventoryItem = InventoryItem(kind: InventoryType, identifier: Bytes32)

  function EncodeInventoryItem(i: InventoryItem): (b: Bytes)
    ensures |b| == 36
  {
    LE(i.kind.Code(), 4) + i.identifier
  }

  function InventoryTypeOf(code: nat): Option<InventoryType> {
    if code == 0 then Some(InvError)
    else if code == 1 then Some(Tx)
    else if code == 2 then Some(Block)
    else if code == 3 then Some(FilteredBlock)
    else None
  }

  function ReadInventoryItem(s: Bytes): Parsed<InventoryItem> {
    var (code, s1) :- ReadUint(s, 4);
    match InventoryTypeOf(code)
    case None => Fail(InvalidInventoryType)
    case Some(kind) =>
      var (h, rest) :- ReadBytes(s1, 32);
      Got(InventoryItem(kind, h), rest)
  }

  lemma InventoryItemRoundTrip(i: InventoryItem, tail: Bytes)
    ensures ReadInventoryItem(EncodeInventoryItem(i) + tail) == Got(i, tail)
  {
    Pow256Values();
    assert EncodeInventoryItem(i) + tail == LE(i.kind.Code(), 4) + (i.identifier + tail);
    ReadUintOf(i.kind.Code(), 4, i.identifier + tail);
    ReadBytesOf(i.identifier, tail);
  }

  function EncodeInventory(items: seq<InventoryItem>): Result<Bytes> {
    match CheckCount(|items|, MAX_INV_ITEMS)
    case Some(e) => Err(e)
    case None => Ok(WriteCompact(|items|) + EncodeItems(items, EncodeInventoryItem))
  }

  function ReadInventory(s: Bytes): Parsed<seq<InventoryItem>> {
    var (n, s1) :- ReadCount(s, MAX_INV_ITEMS);
    ReadItems(s1, n, ReadInventoryItem)
  }

  lemma InventoryRoundTrip(items: seq<InventoryItem>, tail: Bytes)
    requires 1 <= |items| <= MAX_INV_ITEMS
    ensures EncodeInventory(items).Ok?
    ensures ReadInventory(EncodeInventory(items).value + tail) == Got(items, tail)
  {
    var body := EncodeItems(items, EncodeInventoryItem);
    ReadCountOf(|items|, MAX_INV_ITEMS, body + tail);
    assert EncodeInventory(items).value + tail == WriteCompact(|items|) + (body + tail);
    forall x, t: Bytes | x in items
      ensures ReadInventoryItem(EncodeInventoryItem(x) + t) == Got(x, t)
    {
      InventoryItemRoundTrip(x, t);
    }
    ItemsRoundTrip(items, EncodeInventoryItem, ReadInventoryItem, tail);
  }

  datatype GetHeadersPayload = GetHeadersPayload(protocolVersion: U32, hashes: seq<Bytes32>, hashStop: Bytes32)

  function ReadHash(s: Bytes): Parsed<Bytes32> {
    var (h, rest) :- ReadBytes(s, 32);
    Got(h, rest)
  }

  function HashBytes(h: Bytes32): Bytes {
    h
  }

  /** The writer allows 2000 hashes; the protocol version written is the stream's. */
  function EncodeGetHeaders(hashes: seq<Bytes32>, hashStop: Bytes32, version: U32): Result<Bytes> {
    match CheckCount(|hashes|, MAX_GETHEADERS_ITEMS)
    case Some(e) => Err(e)
    case None => Ok(LE(version, 4) + (WriteCompact(|hashes|) + (EncodeItems(hashes, HashBytes) + hashStop)))
  }

  /** The reader allows 160. */
  function ReadGetHeaders(s: Bytes): Parsed<GetHeadersPayload> {
    var (version, s1) :- ReadU32(s);
    var (n, s2) :- ReadCount(s1, MAX_HEADERS_ITEMS);
    var (hashes, s3) :- ReadItems(s2, n, ReadHash);
    var (stop, rest) :- ReadHash(s3);
    Got(GetHeadersPayload(version, hashes, stop), rest)
  }

  /** What the writer accepts, the reader gives back exactly when there are at most 160 hashes. */
  lemma GetHeadersRoundTrip(hashes: seq<Bytes32>, hashStop: Bytes32, version: U32, tail: Bytes)
    requires EncodeGetHeaders(hashes, hashStop, version).Ok?
    ensures var s := EncodeGetHeaders(hashes, hashStop, version).value + tail;
      ReadGetHeaders(s) == if |hashes| <= MAX_HEADERS_ITEMS then Got(GetHeadersPayload(version, hashes, hashStop), tail)
                           else Fail(MessagePayloadOversizedVector)
  {
    var t3 := hashStop + tail;
    var t2 := EncodeItems(hashes, HashBytes) + t3;
    var t1 := WriteCompact(|hashes|) + t2;
    assert EncodeGetHeaders(hashes, hashStop, version).value + tail == LE(version, 4) + t1;
    ReadU32Of(version, t1);
    CompactRoundTrip(|hashes|, t2);
    if |hashes| <= MAX_HEADERS_ITEMS {
      forall x, t: Bytes | x in hashes
        ensures ReadHash(HashBytes(x) + t) == Got(x, t)
      {
        ReadBytesOf(x, t);
      }
      ItemsRoundTrip(hashes, HashBytes, ReadHash, t3);
      ReadBytesOf(hashStop, tail);
    }
  }


  /** Whatever was read is representable: the readers produce nothing the writers could not have meant. */
  lemma ServiceRange(s: Bytes)
    requires ReadNodeService(s).Got?
    ensures WireService(ReadNodeService(s).value)
  {
  }

  lemma VersionRange(s: Bytes)
    requires ReadVersion(s).Got?
    ensures var v := ReadVersion(s).value;
      && v.timestamp >= 0
      && v.lastBlockHeight >= 0
      && Representable(v.recipient.endpoint.address)
      && Representable(v.sender.endpoint.address)
      && |v.userAgent| <= MAX_COMPACT_SIZE
  {
    hide ReadU64, ReadInt;
    var s1 := ReadVersionHead(s).rest;
    var s2 := ReadVersionService(s1).rest;
    assert Representable(ReadVersionService(s1).value.endpoint.address);
    assert Representable(ReadVersionService(s2).value.endpoint.address);
  }

  lemma AddrRange(s: Bytes)
    requires ReadAddr(s).Got?
    ensures forall x | x in ReadAddr(s).value :: WireService(x)
  {
    hide ReadNodeService, ReadCompact;
    forall t: Bytes | ReadNodeService(t).Got?
      ensures WireService(ReadNodeService(t).value)
    {
      ServiceRange(t);
    }
    ItemsRange(ReadCount(s, MAX_ADDR_ITEMS).rest, ReadCount(s, MAX_ADDR_ITEMS).value, ReadNodeService, WireService);
  }
}
