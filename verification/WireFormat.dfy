/**
  The wire format byte by byte (src/core/serialization/stream.hpp, src/core/serialization/serialize.hpp,
  src/infra/network/payloads.cpp): where each field of a payload is and how its bytes are weighed.
 */
module WireFormat {
  import opened Common
  import opened Addresses
  import opened Codec
  import opened Payloads
  import opened Protocol
  import opened PayloadTypes

  /** Numbers in a byte sequence, least or most significant byte first. */
  function Big16(b: Bytes, i: int): int
    requires 0 <= i <= i + 2 <= |b|
  {
    (b[i] as int) * 0x100 + b[i + 1]
  }

  function Big32(b: Bytes, i: int): int
    requires 0 <= i <= i + 4 <= |b|
  {
    (b[i] as int) * 0x100_0000 + (b[i + 1] as int) * 0x1_0000 + (b[i + 2] as int) * 0x100 + b[i + 3]
  }

  function Little16(b: Bytes, i: int): int
    requires 0 <= i <= i + 2 <= |b|
  {
    b[i] + (b[i + 1] as int) * 0x100
  }

  function Little32(b: Bytes, i: int): int
    requires 0 <= i <= i + 4 <= |b|
  {
    b[i] + (b[i + 1] as int) * 0x100 + (b[i + 2] as int) * 0x1_0000 + (b[i + 3] as int) * 0x100_0000
  }

  function Little64(b: Bytes, i: int): int
    requires 0 <= i <= i + 8 <= |b|
  {
    Little32(b, i) + Little32(b, i + 4) * 0x1_0000_0000
  }

  /** `part` is in `b` from position `i` on. */
  predicate At(b: Bytes, i: int, part: Bytes) {
    0 <= i <= i + |part| <= |b| && b[i..i + |part|] == part
  }

  lemma AtFront(a: Bytes, b: Bytes)
    ensures At(a + b, 0, a) && At(a + b, |a|, b) && At(a, 0, a)
  {
    assert (a + b)[0..|a|] == a && (a + b)[|a|..|a| + |b|] == b && a[0..|a|] == a;
  }

  /** What is in a part is in the whole. */
  lemma AtInner(b: Bytes, i: int, part: Bytes, j: int, inner: Bytes)
    requires At(b, i, part) && At(part, j, inner)
    ensures At(b, i + j, inner)
  {
    forall k | 0 <= k < |inner| ensures b[i + j + k] == inner[k] {
      assert b[i + j + k] == b[i..i + |part|][j + k] == part[j..j + |inner|][k];
    }
    assert b[i + j..i + j + |inner|] == inner;
  }

  /** The two halves of a part. */
  lemma AtBoth(b: Bytes, i: int, x: Bytes, y: Bytes)
    requires At(b, i, x + y)
    ensures At(b, i, x) && At(b, i + |x|, y)
  {
    AtFront(x, y);
    AtInner(b, i, x + y, 0, x);
    AtInner(b, i, x + y, |x|, y);
  }

  lemma LittleBytes(n: nat)
    ensures LE(n, 2) == [n % 256, n / 256 % 256]
    ensures LE(n, 4) == [n % 256, n / 256 % 256, n / 256 / 256 % 256, n / 256 / 256 / 256 % 256]
  {
    assert LE(n / 256 / 256, 0) == [];
    assert LE(n / 256 / 256 / 256 / 256, 0) == [];
    assert LE(n / 256 / 256 / 256, 1) == [n / 256 / 256 / 256 % 256];
    assert LE(n / 256 / 256, 2) == [n / 256 / 256 % 256, n / 256 / 256 / 256 % 256];
    assert LE(n / 256, 1) == [n / 256 % 256];
  }

  lemma BigBytes(n: nat)
    ensures BE(n, 2) == [n / 256 % 256, n % 256]
    ensures BE(n, 4) == [n / 256 / 256 / 256 % 256, n / 256 / 256 % 256, n / 256 % 256, n % 256]
  {
    assert BE(n / 256 / 256, 0) == [];
    assert BE(n / 256, 1) == [n / 256 % 256];
    assert BE(n / 256 / 256 / 256 / 256, 0) == [];
    assert BE(n / 256 / 256 / 256, 1) == [n / 256 / 256 / 256 % 256];
    assert BE(n / 256 / 256, 2) == [n / 256 / 256 / 256 % 256, n / 256 / 256 % 256];
    assert BE(n / 256, 3) == [n / 256 / 256 / 256 % 256, n / 256 / 256 % 256, n / 256 % 256];
  }

  lemma Little16At(b: Bytes, i: int, n: U16)
    requires At(b, i, LE(n, 2))
    ensures Little16(b, i) == n
  {
    LittleBytes(n);
    var part := LE(n, 2);
    assert part[0] == b[i] && part[1] == b[i + 1];
  }

  lemma Little32At(b: Bytes, i: int, n: nat)
    requires At(b, i, LE(n, 4))
    ensures Little32(b, i) == n % 0x1_0000_0000
  {
    LittleBytes(n);
    var part := LE(n, 4);
    assert part[0] == b[i] && part[1] == b[i + 1] && part[2] == b[i + 2] && part[3] == b[i + 3];
    FourDigits(n);
  }

  lemma FourDigits(n: nat)
    ensures n % 256 + n / 256 % 256 * 0x100 + n / 256 / 256 % 256 * 0x1_0000 + n / 256 / 256 / 256 % 256 * 0x100_0000
            == n % 0x1_0000_0000
    ensures n / 256 / 256 / 256 / 256 == n / 0x1_0000_0000
  {
    var a := n / 256;
    var b := a / 256;
    var c := b / 256;
    var d := c / 256;
    assert n == n % 256 + a % 256 * 0x100 + b % 256 * 0x1_0000 + c % 256 * 0x100_0000 + d * 0x1_0000_0000;
  }

  lemma EightBytes(n: nat)
    ensures LE(n, 8) == LE(n, 4) + LE(n / 0x1_0000_0000, 4)
  {
    hide LE;
    FourDigits(n);
    LEStep(n, 7);
    LEStep(n / 256, 6);
    LEStep(n / 256 / 256, 5);
    LEStep(n / 256 / 256 / 256, 4);
    LittleBytes(n);
  }

  lemma LEStep(n: nat, w: nat)
    ensures LE(n, w + 1) == [n % 256] + LE(n / 256, w)
  {
  }

  lemma Little64At(b: Bytes, i: int, n: U64)
    requires At(b, i, LE(n, 8))
    ensures Little64(b, i) == n
  {
    hide LE;
    EightBytes(n);
    AtBoth(b, i, LE(n, 4), LE(n / 0x1_0000_0000, 4));
    Little32At(b, i, n);
    Little32At(b, i + 4, n / 0x1_0000_0000);
  }

  lemma Big16At(b: Bytes, i: int, n: U16)
    requires At(b, i, BE(n, 2))
    ensures Big16(b, i) == n
  {
    BigBytes(n);
    var part := BE(n, 2);
    assert part[0] == b[i] && part[1] == b[i + 1];
  }

  lemma Big32At(b: Bytes, i: int, n: U32)
    requires At(b, i, BE(n, 4))
    ensures Big32(b, i) == n
  {
    BigBytes(n);
    var part := BE(n, 4);
    assert part[0] == b[i] && part[1] == b[i + 1] && part[2] == b[i + 2] && part[3] == b[i + 3];
  }

  /** An address: the IPv4-mapped form of section 2.5.5.2 of RFC 4291, or the 16 bytes of an IPv6 address. */
  predicate AddressAt(b: Bytes, i: int, a: IPAddress) {
    && 0 <= i <= i + 16 <= |b|
    && match a
       case V4(n) =>
         && (forall j | i <= j < i + 10 :: b[j] == 0)
         && b[i + 10] == 0xFF && b[i + 11] == 0xFF
         && Big32(b, i + 12) == n
       case V6(bytes) => b[i..i + 16] == bytes
  }

  lemma AddressLayout(b: Bytes, i: int, a: IPAddress)
    requires At(b, i, EncodeAddress(a))
    ensures AddressAt(b, i, a)
  {
    hide BE, Big32;
    if a.V4? {
      AtBoth(b, i, MAPPED_PREFIX, BE(a.value, 4));
      Big32At(b, i + 12, a.value);
      forall j | i <= j < i + 12 ensures b[j] == if j < i + 10 then 0 else 0xFF {
        assert b[j] == b[i..i + 12][j - i] == MAPPED_PREFIX[j - i];
      }
    }
  }

  /** An endpoint: the address, then the port most significant byte first. */
  predicate EndpointAt(b: Bytes, i: int, ep: IPEndpoint) {
    0 <= i <= i + 18 <= |b| && AddressAt(b, i, ep.address) && Big16(b, i + 16) == ep.port
  }

  lemma EndpointLayout(b: Bytes, i: int, ep: IPEndpoint)
    requires At(b, i, EncodeEndpoint(ep))
    ensures EndpointAt(b, i, ep)
  {
    hide BE, EncodeAddress, AddressAt, Big16;
    AtBoth(b, i, EncodeAddress(ep.address), BE(ep.port, 2));
    AddressLayout(b, i, ep.address);
    Big16At(b, i + 16, ep.port);
  }

  /** A service in 30 bytes: time, services, address, port. */
  predicate ServiceAt(b: Bytes, i: int, s: NodeService) {
    && 0 <= i <= i + 30 <= |b|
    && Little32(b, i) == s.time % 0x1_0000_0000
    && Little64(b, i + 4) == s.services
    && EndpointAt(b, i + 12, s.endpoint)
  }

  lemma ServiceLayout(b: Bytes, i: int, s: NodeService)
    requires At(b, i, EncodeNodeService(s))
    ensures ServiceAt(b, i, s)
  {
    hide LE, EncodeEndpoint, EndpointAt, Little32, Little64;
    AtBoth(b, i, LE(s.time % 0x1_0000_0000, 4), LE(s.services, 8) + EncodeEndpoint(s.endpoint));
    AtBoth(b, i + 4, LE(s.services, 8), EncodeEndpoint(s.endpoint));
    Little32At(b, i, s.time % 0x1_0000_0000);
    Little64At(b, i + 4, s.services);
    EndpointLayout(b, i + 12, s.endpoint);
  }

  /** The service of a version: the same without the time. */
  predicate VersionServiceAt(b: Bytes, i: int, v: VersionService) {
    0 <= i <= i + 26 <= |b| && Little64(b, i) == v.services && EndpointAt(b, i + 8, v.endpoint)
  }

  lemma VersionServiceLayout(b: Bytes, i: int, v: VersionService)
    requires At(b, i, EncodeVersionService(v))
    ensures VersionServiceAt(b, i, v)
  {
    hide LE, EncodeEndpoint, EndpointAt, Little64;
    AtBoth(b, i, LE(v.services, 8), EncodeEndpoint(v.endpoint));
    Little64At(b, i, v.services);
    EndpointLayout(b, i + 8, v.endpoint);
  }

  /** The bytes that a compact size takes. */
  function CountSize(n: nat): nat {
    if n <= 252 then 1 else if n <= 0xFFFF then 3 else if n <= 0xFFFF_FFFF then 5 else 9
  }

  /** A compact size: one byte, or a marker and two, four or eight. */
  predicate CountAt(b: Bytes, i: int, n: nat) {
    && 0 <= i <= i + CountSize(n) <= |b|
    && if n <= 252 then b[i] == n
       else if n <= 0xFFFF then b[i] == 253 && Little16(b, i + 1) == n
       else if n <= 0xFFFF_FFFF then b[i] == 254 && Little32(b, i + 1) == n
       else b[i] == 255 && Little64(b, i + 1) == n
  }

  lemma CountLayout(b: Bytes, i: int, n: U64)
    requires At(b, i, WriteCompact(n))
    ensures CountAt(b, i, n) && |WriteCompact(n)| == CountSize(n)
  {
    hide LE, Little16, Little32, Little64;
    if n <= 252 {
      assert b[i] == b[i..i + 1][0];
    } else {
      var w := if n <= 0xFFFF then 2 else if n <= 0xFFFF_FFFF then 4 else 8;
      var marker: Byte := if n <= 0xFFFF then 253 else if n <= 0xFFFF_FFFF then 254 else 255;
      AtBoth(b, i, [marker], LE(n, w));
      assert b[i] == b[i..i + 1][0];
      if w == 2 { Little16At(b, i + 1, n); }
      if w == 4 { Little32At(b, i + 1, n); }
      if w == 8 { Little64At(b, i + 1, n); }
    }
  }

  /** A string: its length as a compact size, then its bytes. */
  predicate StringAt(b: Bytes, i: int, text: Bytes) {
    CountAt(b, i, |text|) && At(b, i + CountSize(|text|), text)
  }

  lemma StringLayout(b: Bytes, i: int, text: Bytes)
    requires |text| < 0x1_0000_0000_0000_0000 && At(b, i, EncodeString(text))
    ensures StringAt(b, i, text) && |EncodeString(text)| == CountSize(|text|) + |text|
  {
    hide WriteCompact, CountAt;
    AtBoth(b, i, WriteCompact(|text|), text);
    CountLayout(b, i, |text|);
  }

  /** The fields of a version in their order; signed numbers are in two's complement. */
  predicate VersionAt(b: Bytes, v: VersionPayload) {
    var end := 80 + CountSize(|v.userAgent|) + |v.userAgent|;
    && |b| == end + 5
    && Little32(b, 0) == v.protocolVersion % 0x1_0000_0000
    && Little64(b, 4) == v.services
    && Little64(b, 12) == v.timestamp % 0x1_0000_0000_0000_0000
    && VersionServiceAt(b, 20, v.recipient)
    && VersionServiceAt(b, 46, v.sender)
    && Little64(b, 72) == v.nonce
    && StringAt(b, 80, v.userAgent)
    && Little32(b, end) == v.lastBlockHeight % 0x1_0000_0000
    && b[end + 4] == if v.relay then 1 else 0
  }

  lemma SignedAt(b: Bytes, i: int, n: int)
    requires FitsSigned(n, 4) && At(b, i, EncodeInt(n, 4))
    ensures Little32(b, i) == n % 0x1_0000_0000
  {
    hide LE, Little32;
    Pow256Values();
    Little32At(b, i, ToUnsigned(n, 4));
  }

  lemma Signed64At(b: Bytes, i: int, n: int)
    requires FitsSigned(n, 8) && At(b, i, EncodeInt(n, 8))
    ensures Little64(b, i) == n % 0x1_0000_0000_0000_0000
  {
    hide LE, Little64;
    Pow256Values();
    Little64At(b, i, ToUnsigned(n, 8));
  }

  lemma HeadLayout(b: Bytes, v: VersionPayload)
    requires v.Fits() && At(b, 0, EncodeVersionHead(v))
    ensures |EncodeVersionHead(v)| == 20 <= |b|
    ensures Little32(b, 0) == v.protocolVersion % 0x1_0000_0000 && Little64(b, 4) == v.services
    ensures Little64(b, 12) == v.timestamp % 0x1_0000_0000_0000_0000
  {
    hide LE, Little32, Little64, FitsSigned;
    AtBoth(b, 0, EncodeInt(v.protocolVersion, 4), LE(v.services, 8) + EncodeInt(v.timestamp, 8));
    AtBoth(b, 4, LE(v.services, 8), EncodeInt(v.timestamp, 8));
    SignedAt(b, 0, v.protocolVersion);
    Little64At(b, 4, v.services);
    Signed64At(b, 12, v.timestamp);
  }

  lemma MiddleLayout(b: Bytes, v: VersionPayload)
    requires v.Fits() && At(b, 20, EncodeVersionMiddle(v))
    ensures |EncodeVersionMiddle(v)| == 60 + CountSize(|v.userAgent|) + |v.userAgent| && 80 <= |b|
    ensures VersionServiceAt(b, 20, v.recipient) && VersionServiceAt(b, 46, v.sender)
    ensures Little64(b, 72) == v.nonce && StringAt(b, 80, v.userAgent)
  {
    hide LE, Little64, EncodeVersionService, EncodeString, VersionServiceAt, StringAt;
    var rest := LE(v.nonce, 8) + EncodeString(v.userAgent);
    AtBoth(b, 20, EncodeVersionService(v.recipient), EncodeVersionService(v.sender) + rest);
    AtBoth(b, 46, EncodeVersionService(v.sender), rest);
    AtBoth(b, 72, LE(v.nonce, 8), EncodeString(v.userAgent));
    VersionServiceLayout(b, 20, v.recipient);
    VersionServiceLayout(b, 46, v.sender);
    Little64At(b, 72, v.nonce);
    StringLayout(b, 80, v.userAgent);
  }

  /** A version is laid out as stated. */
  lemma VersionLayout(v: VersionPayload)
    requires v.Fits()
    ensures VersionAt(EncodeVersion(v), v)
  {
    hide LE, Little32, Little64, EncodeVersionHead, EncodeVersionMiddle, VersionServiceAt, StringAt, FitsSigned;
    var b := EncodeVersion(v);
    var relay: Bytes := [if v.relay then 1 else 0];
    var tail := EncodeInt(v.lastBlockHeight, 4) + relay;
    AtFront(b, []);
    assert b + [] == b;
    AtBoth(b, 0, EncodeVersionHead(v), EncodeVersionMiddle(v) + tail);
    HeadLayout(b, v);
    AtBoth(b, 20, EncodeVersionMiddle(v), tail);
    MiddleLayout(b, v);
    var end := 80 + CountSize(|v.userAgent|) + |v.userAgent|;
    AtBoth(b, end, EncodeInt(v.lastBlockHeight, 4), relay);
    SignedAt(b, end, v.lastBlockHeight);
    assert b[end + 4] == b[end + 4..end + 5][0];
  }

  /** Items of one size follow each other. */
  lemma {:induction false} ItemAt<T>(b: Bytes, i: int, items: seq<T>, encode: T -> Bytes, size: nat, j: int)
    requires (forall x | x in items :: |encode(x)| == size) && 0 <= j < |items|
    requires At(b, i, EncodeItems(items, encode))
    ensures At(b, i + j * size, encode(items[j]))
    decreases |items|
  {
    hide At;
    AtBoth(b, i, encode(items[0]), EncodeItems(items[1..], encode));
    if j > 0 {
      ItemAt(b, i + size, items[1..], encode, size, j - 1);
      assert size + (j - 1) * size == j * size;
    }
  }

  /** An `addr` payload of 1 to 1000 services. */
  lemma AddrLayout(items: seq<NodeService>)
    ensures EncodeAddr(items).Ok? <==> 1 <= |items| <= 1000
    ensures EncodeAddr(items).Ok? ==>
      && var b := EncodeAddr(items).value;
      && |b| == CountSize(|items|) + |items| * 30 && CountAt(b, 0, |items|)
      && forall j | 0 <= j < |items| :: ServiceAt(b, CountSize(|items|) + j * 30, items[j])
  {
    hide EncodeNodeService, WriteCompact, ServiceAt, CountAt;
    if EncodeAddr(items).Ok? {
      var b := EncodeAddr(items).value;
      var body := EncodeItems(items, EncodeNodeService);
      AtFront(WriteCompact(|items|), body);
      CountLayout(b, 0, |items|);
      ItemsLength(items, EncodeNodeService, 30);
      forall j | 0 <= j < |items| ensures ServiceAt(b, CountSize(|items|) + j * 30, items[j]) {
        ItemAt(b, CountSize(|items|), items, EncodeNodeService, 30, j);
        ServiceLayout(b, CountSize(|items|) + j * 30, items[j]);
      }
    }
  }

  /** An inventory item in 36 bytes: its type as a number, then its identifier. */
  predicate InventoryItemAt(b: Bytes, i: int, item: InventoryItem) {
    && 0 <= i <= i + 36 <= |b|
    && Little32(b, i) == (match item.kind case InvError => 0 case Tx => 1 case Block => 2 case FilteredBlock => 3)
    && b[i + 4..i + 36] == item.identifier
  }

  lemma InventoryItemLayout(b: Bytes, i: int, item: InventoryItem)
    requires At(b, i, EncodeInventoryItem(item))
    ensures InventoryItemAt(b, i, item)
  {
    hide LE, Little32;
    AtBoth(b, i, LE(item.kind.Code(), 4), item.identifier);
    Little32At(b, i, item.kind.Code());
  }

  /** An `inv`, `getdata` or `notfound` payload of 1 to 50,000 items. */
  lemma InventoryLayout(items: seq<InventoryItem>)
    ensures EncodeInventory(items).Ok? <==> 1 <= |items| <= 50_000
    ensures EncodeInventory(items).Ok? ==>
      && var b := EncodeInventory(items).value;
      && |b| == CountSize(|items|) + |items| * 36 && CountAt(b, 0, |items|)
      && forall j | 0 <= j < |items| :: InventoryItemAt(b, CountSize(|items|) + j * 36, items[j])
  {
    hide EncodeInventoryItem, WriteCompact, InventoryItemAt, CountAt;
    if EncodeInventory(items).Ok? {
      var b := EncodeInventory(items).value;
      var body := EncodeItems(items, EncodeInventoryItem);
      AtFront(WriteCompact(|items|), body);
      CountLayout(b, 0, |items|);
      ItemsLength(items, EncodeInventoryItem, 36);
      forall j | 0 <= j < |items| ensures InventoryItemAt(b, CountSize(|items|) + j * 36, items[j]) {
        ItemAt(b, CountSize(|items|), items, EncodeInventoryItem, 36, j);
        InventoryItemLayout(b, CountSize(|items|) + j * 36, items[j]);
      }
    }
  }

  /** A `getheaders` payload of 1 to 2000 hashes: the protocol version, their number, the hashes and the stop hash. */
  lemma GetHeadersLayout(hashes: seq<Bytes32>, stop: Bytes32, version: U32)
    ensures EncodeGetHeaders(hashes, stop, version).Ok? <==> 1 <= |hashes| <= 2000
    ensures EncodeGetHeaders(hashes, stop, version).Ok? ==>
      && var b := EncodeGetHeaders(hashes, stop, version).value;
      && var first := 4 + CountSize(|hashes|);
      && |b| == first + |hashes| * 32 + 32 && Little32(b, 0) == version && CountAt(b, 4, |hashes|)
      && (forall j | 0 <= j < |hashes| :: At(b, first + j * 32, hashes[j]))
      && At(b, first + |hashes| * 32, stop)
  {
    hide LE, WriteCompact, CountAt, Little32, At;
    if EncodeGetHeaders(hashes, stop, version).Ok? {
      var b := EncodeGetHeaders(hashes, stop, version).value;
      var body := EncodeItems(hashes, HashBytes);
      AtFront(LE(version, 4), WriteCompact(|hashes|) + (body + stop));
      AtBoth(b, 4, WriteCompact(|hashes|), body + stop);
      CountLayout(b, 4, |hashes|);
      AtBoth(b, 4 + CountSize(|hashes|), body, stop);
      Little32At(b, 0, version);
      ItemsLength(hashes, HashBytes, 32);
      forall j | 0 <= j < |hashes| ensures At(b, 4 + CountSize(|hashes|) + j * 32, hashes[j]) {
        ItemAt(b, 4 + CountSize(|hashes|), hashes, HashBytes, 32, j);
      }
    }
  }

  /** A `ping` or `pong` payload is its nonce. */
  lemma PingLayout(kind: MessageType, nonce: U64, version: U32)
    requires PingPongMsg(kind, nonce).WellFormed()
    ensures Encode(PingPongMsg(kind, nonce), version).Ok?
    ensures var b := Encode(PingPongMsg(kind, nonce), version).value; |b| == 8 && Little64(b, 0) == nonce
  {
    hide LE, Little64;
    AtFront(LE(nonce, 8), []);
    Little64At(LE(nonce, 8), 0, nonce);
  }

  /** What is read as an inventory item: 36 bytes whose type is known, laid out as it is. */
  lemma InventoryItemReads(s: Bytes)
    ensures ReadInventoryItem(s).Got? <==> |s| >= 36 && Little32(s, 0) <= 3
    ensures ReadInventoryItem(s).Got? ==>
      InventoryItemAt(s, 0, ReadInventoryItem(s).value) && ReadInventoryItem(s).rest == s[36..]
    ensures |s| >= 4 && Little32(s, 0) > 3 ==> ReadInventoryItem(s) == Fail(InvalidInventoryType)
  {
    hide LE, FromLE, Little32;
    if |s| >= 4 {
      LEOfFromLE(s[..4]);
      Pow256Values();
      assert At(s, 0, s[..4]);
      Little32At(s, 0, FromLE(s[..4]));
      if |s| >= 36 { assert s[4..][..32] == s[4..36]; }
    }
  }

  /** When a rejection can be written: its command is known and its reason not too long. */
  lemma RejectWritten(command: Bytes, code: int, reason: Bytes, extra: Option<Bytes32>)
    requires IsRejectionCode(code)
    ensures EncodeReject(command, code, reason, extra) == Err(UnknownRejectedCommand) <==>
      !(1 <= |command| <= 12 && TypeOfCommand(Padded(command)) != MissingOrUnknown)
    ensures EncodeReject(command, code, reason, extra).Ok? <==>
      1 <= |command| <= 12 && TypeOfCommand(Padded(command)) != MissingOrUnknown && |reason| <= 256
  {
    hide TypeOfCommand, EncodeString;
  }

  /** A `reject` payload: the command, the code in one byte, the reason, and 32 bytes of data or none. */
  lemma RejectLayout(command: Bytes, code: int, reason: Bytes, extra: Option<Bytes32>)
    requires IsRejectionCode(code) && EncodeReject(command, code, reason, extra).Ok?
    ensures 1 <= |command| <= 12 && |reason| <= 256
    ensures var b := EncodeReject(command, code, reason, extra).value;
      && |b| == 1 + |command| + 1 + CountSize(|reason|) + |reason| + (if extra.Some? then 32 else 0)
      && StringAt(b, 0, command) && b[1 + |command|] == code && StringAt(b, 2 + |command|, reason)
      && (extra.Some? ==> b[|b| - 32..] == extra.value)
  {
    hide EncodeString, StringAt, TypeOfCommand;
    var b := EncodeReject(command, code, reason, extra).value;
    var data := if extra.Some? then extra.value else [];
    var kind: Bytes := [code];
    AtFront(EncodeString(command), kind + (EncodeString(reason) + data));
    StringLayout(b, 0, command);
    AtBoth(b, 1 + |command|, kind, EncodeString(reason) + data);
    AtBoth(b, 2 + |command|, EncodeString(reason), data);
    StringLayout(b, 2 + |command|, reason);
    assert b[1 + |command|] == b[1 + |command|..2 + |command|][0];
  }
}
