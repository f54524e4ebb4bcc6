/**
  The `bind` and `serialization` methods: what they append to a stream and how they read it back,
  proved against the functions of Codec and Payloads.
 */
module Serialization {
  import opened Common
  import opened Addresses
  import opened Codec
  import opened Payloads
  import opened Stream

  /** A write method appended `bytes`, or reported that the stream is full. */
  ghost predicate Appended(st: DataStream, before: Bytes, r: Result<()>, bytes: Bytes)
    reads st
  {
    && (r.Ok? ==> st.buffer == before + bytes)
    && (r.Err? ==> r.error == InputTooLarge && |before| + |bytes| > MAX_STREAM_SIZE)
  }

  /** `write_data` for integers */
  method PutUint(st: DataStream, n: nat, w: nat) returns (r: Result<()>)
    requires st.Valid()
    modifies st`buffer
    ensures st.Valid() && Appended(st, old(st.buffer), r, LE(n, w))
    ensures r.Ok? ==> |st.buffer| <= MAX_STREAM_SIZE
  {
    r := st.Write(LE(n, w));
  }

  /** `read_data` for integers */
  method GetUint(st: DataStream, w: nat) returns (r: Result<nat>)
    requires st.Valid()
    modifies st`pos
    ensures st.Valid() && Follows(st, r, ReadUint(old(st.Unread()), w))
  {
    var b :- st.Read(Some(w));
    return Ok(FromLE(b));
  }

  /** `write_compact` */
  method PutCompact(st: DataStream, v: U64) returns (r: Result<()>)
    requires st.Valid()
    modifies st`buffer
    ensures st.Valid() && Appended(st, old(st.buffer), r, WriteCompact(v))
  {
    hide LE;
    var size := CompactSize(v);
    if size == 1 {
      st.PushBack(v);
      return Ok(());
    }
    var marker: Byte := if size == 3 then 253 else if size == 5 then 254 else 255;
    st.PushBack(marker);
    r := st.Write(LE(v, size - 1));
    assert WriteCompact(v) == [marker] + LE(v, size - 1);
    assert r.Ok? ==> st.buffer == old(st.buffer) + ([marker] + LE(v, size - 1));
  }

  /** `read_compact` */
  method GetCompact(st: DataStream, rangeCheck: bool) returns (r: Result<nat>)
    requires st.Valid()
    modifies st`pos
    ensures st.Valid() && Follows(st, r, ReadCompact(old(st.Unread()), rangeCheck))
  {
    var prefix :- GetUint(st, 1);
    var v := prefix;
    if prefix == 253 {
      v :- GetUint(st, 2);
      if v < 253 { return Err(NonCanonicalCompactSize); }
    } else if prefix == 254 {
      v :- GetUint(st, 4);
      if v < 0x1_0000 { return Err(NonCanonicalCompactSize); }
    } else if prefix >= 255 {
      v :- GetUint(st, 8);
      if v < 0x1_0000_0000 { return Err(NonCanonicalCompactSize); }
    }
    if rangeCheck && v > MAX_COMPACT_SIZE { return Err(CompactSizeTooBig); }
    return Ok(v);
  }

  method PutBytes(st: DataStream, b: Bytes) returns (r: Result<()>)
    requires st.Valid()
    modifies st`buffer
    ensures st.Valid() && Appended(st, old(st.buffer), r, b)
    ensures r.Ok? ==> |st.buffer| <= MAX_STREAM_SIZE
  {
    r := st.Write(b);
  }

  method PutString(st: DataStream, b: Bytes) returns (r: Result<()>)
    requires st.Valid() && |b| < 0x1_0000_0000_0000_0000
    modifies st`buffer
    ensures st.Valid() && Appended(st, old(st.buffer), r, EncodeString(b))
    ensures r.Ok? ==> |st.buffer| <= MAX_STREAM_SIZE
  {
    hide WriteCompact;
    r := PutCompact(st, |b|);
    if r.Err? { return; }
    r := st.Write(b);
    assert r.Ok? ==> st.buffer == old(st.buffer) + (WriteCompact(|b|) + b);
  }

  method GetString(st: DataStream) returns (r: Result<Bytes>)
    requires st.Valid()
    modifies st`pos
    ensures st.Valid() && Follows(st, r, ReadString(old(st.Unread())))
  {
    hide ReadCompact;
    var n :- GetCompact(st, true);
    r := st.Read(Some(n));
  }

  method GetAddress(st: DataStream) returns (r: Result<IPAddress>)
    requires st.Valid()
    modifies st`pos
    ensures st.Valid() && Follows(st, r, ReadAddress(old(st.Unread())))
  {
    var b :- st.Read(Some(16));
    if LeadingZeros8(b) {
      BEOfFromBE(b[12..]);
      Pow256Values();
      return Ok(V4(FromBE(b[12..])));
    }
    return Ok(V6(b));
  }

  /** The port is swapped to network order around the bind. */
  method PutEndpoint(st: DataStream, ep: IPEndpoint) returns (r: Result<()>)
    requires st.Valid()
    modifies st`buffer
    ensures st.Valid() && Appended(st, old(st.buffer), r, EncodeEndpoint(ep))
    ensures r.Ok? ==> |st.buffer| <= MAX_STREAM_SIZE
  {
    hide EncodeAddress, BE;
    r := PutBytes(st, EncodeAddress(ep.address));
    if r.Err? { return; }
    r := PutBytes(st, BE(ep.port, 2));
    assert r.Ok? ==> st.buffer == old(st.buffer) + EncodeEndpoint(ep);
  }

  method GetEndpoint(st: DataStream) returns (r: Result<IPEndpoint>)
    requires st.Valid()
    modifies st`pos
    ensures st.Valid() && Follows(st, r, ReadEndpoint(old(st.Unread())))
  {
    hide ReadAddress;
    var a :- GetAddress(st);
    var b :- st.Read(Some(2));
    BEOfFromBE(b);
    Pow256Values();
    return Ok(IPEndpoint(a, FromBE(b)));
  }

  method GetU32(st: DataStream) returns (r: Result<U32>)
    requires st.Valid()
    modifies st`pos
    ensures st.Valid() && Follows(st, r, ReadU32(old(st.Unread())))
  {
    var b :- st.Read(Some(4));
    LEOfFromLE(b);
    Pow256Values();
    return Ok(FromLE(b));
  }

  method GetU64(st: DataStream) returns (r: Result<U64>)
    requires st.Valid()
    modifies st`pos
    ensures st.Valid() && Follows(st, r, ReadU64(old(st.Unread())))
  {
    var b :- st.Read(Some(8));
    LEOfFromLE(b);
    Pow256Values();
    return Ok(FromLE(b));
  }

  method PutNodeService(st: DataStream, s: NodeService) returns (r: Result<()>)
    requires st.Valid()
    modifies st`buffer
    ensures st.Valid() && Appended(st, old(st.buffer), r, EncodeNodeService(s))
    ensures r.Ok? ==> |st.buffer| <= MAX_STREAM_SIZE
  {
    hide EncodeEndpoint, LE;
    r := PutUint(st, s.time % 0x1_0000_0000, 4);
    if r.Err? { return; }
    r := PutUint(st, s.services, 8);
    if r.Err? { return; }
    r := PutEndpoint(st, s.endpoint);
    assert r.Ok? ==> st.buffer == old(st.buffer) + EncodeNodeService(s);
  }

  method GetNodeService(st: DataStream) returns (r: Result<NodeService>)
    requires st.Valid()
    modifies st`pos
    ensures st.Valid() && Follows(st, r, ReadNodeService(old(st.Unread())))
  {
    hide ReadU32, ReadU64, ReadEndpoint;
    var time :- GetU32(st);
    var services :- GetU64(st);
    var ep :- GetEndpoint(st);
    return Ok(NodeService(time, services, ep));
  }

  /** `MsgAddrPayload::serialization`, writing */
  method PutAddr(st: DataStream, items: seq<NodeService>) returns (r: Result<()>)
    requires st.Valid()
    modifies st`buffer
    ensures st.Valid()
    ensures match EncodeAddr(items)
      case Err(e) => r == Err(e) && st.buffer == old(st.buffer)
      case Ok(bytes) => Appended(st, old(st.buffer), r, bytes)
    ensures r.Ok? ==> |st.buffer| <= MAX_STREAM_SIZE
  {
    hide EncodeNodeService, WriteCompact, EncodeItems;
    if items == [] { return Err(MessagePayloadEmptyVector); }
    if |items| > MAX_ADDR_ITEMS { return Err(MessagePayloadOversizedVector); }
    r := PutCompact(st, |items|);
    if r.Err? { return; }
    ghost var before := st.buffer;
    NoItems(EncodeNodeService);
    var i := 0;
    while i < |items|
      invariant 0 <= i <= |items|
      invariant st.Valid() && r.Ok?
      invariant i > 0 ==> |st.buffer| <= MAX_STREAM_SIZE
      invariant st.buffer == before + EncodeItems(items[..i], EncodeNodeService)
    {
      ItemsNext(items, i, EncodeNodeService);
      r := PutNodeService(st, items[i]);
      if r.Err? { return; }
      i := i + 1;
    }
    assert items[..i] == items;
  }

  /** `MsgAddrPayload::serialization`, reading */
  method GetAddr(st: DataStream) returns (r: Result<seq<NodeService>>)
    requires st.Valid()
    modifies st`pos
    ensures st.Valid() && Follows(st, r, ReadAddr(old(st.Unread())))
  {
    hide ReadNodeService, ReadCompact;
    var n :- GetCompact(st, true);
    if n == 0 { return Err(MessagePayloadEmptyVector); }
    if n > MAX_ADDR_ITEMS { return Err(MessagePayloadOversizedVector); }
    ghost var start := st.Unread();
    var items: seq<NodeService> := [];
    ResumeStart(ReadItems(start, n, ReadNodeService));
    while |items| < n
      invariant st.Valid() && |items| <= n
      invariant ReadItems(start, n, ReadNodeService)
                == Resume(items, ReadItems(st.Unread(), n - |items|, ReadNodeService))
    {
      ResumeStep(items, st.Unread(), n - |items|, ReadNodeService);
      var item :- GetNodeService(st);
      items := items + [item];
    }
    ResumeEnd(items, st.Unread(), ReadNodeService);
    return Ok(items);
  }

  method PutInventoryItem(st: DataStream, item: InventoryItem) returns (r: Result<()>)
    requires st.Valid()
    modifies st`buffer
    ensures st.Valid() && Appended(st, old(st.buffer), r, EncodeInventoryItem(item))
    ensures r.Ok? ==> |st.buffer| <= MAX_STREAM_SIZE
  {
    hide LE;
    r := PutUint(st, item.kind.Code(), 4);
    if r.Err? { return; }
    r := PutBytes(st, item.identifier);
    assert r.Ok? ==> st.buffer == old(st.buffer) + EncodeInventoryItem(item);
  }

  method GetInventoryItem(st: DataStream) returns (r: Result<InventoryItem>)
    requires st.Valid()
    modifies st`pos
    ensures st.Valid() && Follows(st, r, ReadInventoryItem(old(st.Unread())))
  {
    var code :- GetUint(st, 4);
    var kind := InventoryTypeOf(code);
    if kind.None? { return Err(InvalidInventoryType); }
    var h :- st.Read(Some(32));
    return Ok(InventoryItem(kind.value, h));
  }

  /** `MsgInventoryPayload::serialization`, writing */
  method PutInventory(st: DataStream, items: seq<InventoryItem>) returns (r: Result<()>)
    requires st.Valid()
    modifies st`buffer
    ensures st.Valid()
    ensures match EncodeInventory(items)
      case Err(e) => r == Err(e) && st.buffer == old(st.buffer)
      case Ok(bytes) => Appended(st, old(st.buffer), r, bytes)
    ensures r.Ok? ==> |st.buffer| <= MAX_STREAM_SIZE
  {
    hide EncodeInventoryItem, WriteCompact, EncodeItems;
    if items == [] { return Err(MessagePayloadEmptyVector); }
    if |items| > MAX_INV_ITEMS { return Err(MessagePayloadOversizedVector); }
    r := PutCompact(st, |items|);
    if r.Err? { return; }
    ghost var before := st.buffer;
    NoItems(EncodeInventoryItem);
    var i := 0;
    while i < |items|
      invariant 0 <= i <= |items|
      invariant st.Valid() && r.Ok?
      invariant i > 0 ==> |st.buffer| <= MAX_STREAM_SIZE
      invariant st.buffer == before + EncodeItems(items[..i], EncodeInventoryItem)
    {
      ItemsNext(items, i, EncodeInventoryItem);
      r := PutInventoryItem(st, items[i]);
      if r.Err? { return; }
      i := i + 1;
    }
    assert items[..i] == items;
  }

  /** `MsgInventoryPayload::serialization`, reading */
  method GetInventory(st: DataStream) returns (r: Result<seq<InventoryItem>>)
    requires st.Valid()
    modifies st`pos
    ensures st.Valid() && Follows(st, r, ReadInventory(old(st.Unread())))
  {
    hide ReadInventoryItem, ReadCompact;
    var n :- GetCompact(st, true);
    if n == 0 { return Err(MessagePayloadEmptyVector); }
    if n > MAX_INV_ITEMS { return Err(MessagePayloadOversizedVector); }
    ghost var start := st.Unread();
    var items: seq<InventoryItem> := [];
    ResumeStart(ReadItems(start, n, ReadInventoryItem));
    while |items| < n
      invariant st.Valid() && |items| <= n
      invariant ReadItems(start, n, ReadInventoryItem)
                == Resume(items, ReadItems(st.Unread(), n - |items|, ReadInventoryItem))
    {
      ResumeStep(items, st.Unread(), n - |items|, ReadInventoryItem);
      var item :- GetInventoryItem(st);
      items := items + [item];
    }
    ResumeEnd(items, st.Unread(), ReadInventoryItem);
    return Ok(items);
  }

  /** `MsgGetHeadersPayload::serialization`, writing: the count is checked after the version is written. */
  method PutGetHeaders(st: DataStream, hashes: seq<Bytes32>, hashStop: Bytes32, version: U32) returns (r: Result<()>)
    requires st.Valid()
    modifies st`buffer
    ensures st.Valid()
    ensures match EncodeGetHeaders(hashes, hashStop, version)
      case Err(e) => r.Err? && (r == Err(e) || |old(st.buffer)| + 4 > MAX_STREAM_SIZE)
      case Ok(bytes) => Appended(st, old(st.buffer), r, bytes)
    ensures r.Ok? ==> |st.buffer| <= MAX_STREAM_SIZE
  {
    hide LE, WriteCompact, EncodeItems;
    r := PutUint(st, version, 4);
    if r.Err? { return; }
    if hashes == [] { return Err(MessagePayloadEmptyVector); }
    if |hashes| > MAX_GETHEADERS_ITEMS { return Err(MessagePayloadOversizedVector); }
    r := PutCompact(st, |hashes|);
    if r.Err? { return; }
    ghost var before := st.buffer;
    NoItems(HashBytes);
    var i := 0;
    while i < |hashes|
      invariant 0 <= i <= |hashes|
      invariant st.Valid() && r.Ok?
      invariant i > 0 ==> |st.buffer| <= MAX_STREAM_SIZE
      invariant st.buffer == before + EncodeItems(hashes[..i], HashBytes)
    {
      ItemsNext(hashes, i, HashBytes);
      r := PutBytes(st, hashes[i]);
      if r.Err? { return; }
      i := i + 1;
    }
    assert hashes[..i] == hashes;
    r := PutBytes(st, hashStop);
    assert r.Ok? ==>
      st.buffer == old(st.buffer)
      + (LE(version, 4) + (WriteCompact(|hashes|) + (EncodeItems(hashes, HashBytes) + hashStop)));
  }

  method GetHash(st: DataStream) returns (r: Result<Bytes32>)
    requires st.Valid()
    modifies st`pos
    ensures st.Valid() && Follows(st, r, ReadHash(old(st.Unread())))
  {
    var h :- st.Read(Some(32));
    return Ok(h);
  }

  /** `MsgGetHeadersPayload::serialization`, reading */
  method GetGetHeaders(st: DataStream) returns (r: Result<GetHeadersPayload>)
    requires st.Valid()
    modifies st`pos
    ensures st.Valid() && Follows(st, r, ReadGetHeaders(old(st.Unread())))
  {
    hide ReadHash, ReadCompact, ReadU32;
    var version :- GetU32(st);
    var n :- GetCompact(st, true);
    if n == 0 { return Err(MessagePayloadEmptyVector); }
    if n > MAX_HEADERS_ITEMS { return Err(MessagePayloadOversizedVector); }
    ghost var start := st.Unread();
    var hashes: seq<Bytes32> := [];
    ResumeStart(ReadItems(start, n, ReadHash));
    while |hashes| < n
      invariant st.Valid() && |hashes| <= n
      invariant ReadItems(start, n, ReadHash) == Resume(hashes, ReadItems(st.Unread(), n - |hashes|, ReadHash))
    {
      ResumeStep(hashes, st.Unread(), n - |hashes|, ReadHash);
      var item :- GetHash(st);
      hashes := hashes + [item];
    }
    ResumeEnd(hashes, st.Unread(), ReadHash);
    var stop :- GetHash(st);
    return Ok(GetHeadersPayload(version, hashes, stop));
  }

  method GetInt(st: DataStream, w: nat) returns (r: Result<int>)
    requires st.Valid()
    modifies st`pos
    ensures st.Valid() && Follows(st, r, ReadInt(old(st.Unread()), w))
  {
    var n :- GetUint(st, w);
    return Ok(ToSigned(n, w));
  }

  method PutVersionService(st: DataStream, v: VersionService) returns (r: Result<()>)
    requires st.Valid()
    modifies st`buffer
    ensures st.Valid() && Appended(st, old(st.buffer), r, EncodeVersionService(v))
    ensures r.Ok? ==> |st.buffer| <= MAX_STREAM_SIZE
  {
    hide LE, EncodeEndpoint;
    r := PutUint(st, v.services, 8);
    if r.Err? { return; }
    r := PutEndpoint(st, v.endpoint);
    assert r.Ok? ==> st.buffer == old(st.buffer) + EncodeVersionService(v);
  }

  method GetVersionService(st: DataStream) returns (r: Result<VersionService>)
    requires st.Valid()
    modifies st`pos
    ensures st.Valid() && Follows(st, r, ReadVersionService(old(st.Unread())))
  {
    hide ReadU64, ReadEndpoint;
    var services :- GetU64(st);
    var ep :- GetEndpoint(st);
    return Ok(VersionService(services, ep));
  }

  method PutVersionHead(st: DataStream, v: VersionPayload) returns (r: Result<()>)
    requires st.Valid() && v.Fits()
    modifies st`buffer
    ensures st.Valid() && Appended(st, old(st.buffer), r, EncodeVersionHead(v))
    ensures r.Ok? ==> |st.buffer| <= MAX_STREAM_SIZE
  {
    hide LE;
    r := PutUint(st, ToUnsigned(v.protocolVersion, 4), 4);
    if r.Err? { return; }
    r := PutUint(st, v.services, 8);
    if r.Err? { return; }
    r := PutUint(st, ToUnsigned(v.timestamp, 8), 8);
    assert r.Ok? ==> st.buffer == old(st.buffer) + EncodeVersionHead(v);
  }

  method PutVersionMiddle(st: DataStream, v: VersionPayload) returns (r: Result<()>)
    requires st.Valid() && v.Fits()
    modifies st`buffer
    ensures st.Valid() && Appended(st, old(st.buffer), r, EncodeVersionMiddle(v))
    ensures r.Ok? ==> |st.buffer| <= MAX_STREAM_SIZE
  {
    hide LE, EncodeVersionService, EncodeString;
    r := PutVersionService(st, v.recipient);
    if r.Err? { return; }
    r := PutVersionService(st, v.sender);
    if r.Err? { return; }
    r := PutUint(st, v.nonce, 8);
    if r.Err? { return; }
    r := PutString(st, v.userAgent);
    assert r.Ok? ==> st.buffer == old(st.buffer) + EncodeVersionMiddle(v);
  }

  /** `MsgVersionPayload::serialization`, writing */
  method PutVersion(st: DataStream, v: VersionPayload) returns (r: Result<()>)
    requires st.Valid() && v.Fits()
    modifies st`buffer
    ensures st.Valid() && Appended(st, old(st.buffer), r, EncodeVersion(v))
    ensures r.Ok? ==> |st.buffer| <= MAX_STREAM_SIZE
  {
    hide LE, EncodeVersionHead, EncodeVersionMiddle;
    r := PutVersionHead(st, v);
    if r.Err? { return; }
    r := PutVersionMiddle(st, v);
    if r.Err? { return; }
    r := PutUint(st, ToUnsigned(v.lastBlockHeight, 4), 4);
    if r.Err? { return; }
    r := PutBytes(st, [if v.relay then 1 else 0]);
    assert r.Ok? ==> st.buffer == old(st.buffer) + EncodeVersion(v);
  }

  method GetVersionHead(st: DataStream) returns (r: Result<VersionHead>)
    requires st.Valid()
    modifies st`pos
    ensures st.Valid() && Follows(st, r, ReadVersionHead(old(st.Unread())))
  {
    hide ReadInt, ReadU64;
    var pv :- GetInt(st, 4);
    var services :- GetU64(st);
    var ts :- GetInt(st, 8);
    return Ok(VersionHead(pv, services, ts));
  }

  method GetVersionMiddle(st: DataStream) returns (r: Result<VersionMiddle>)
    requires st.Valid()
    modifies st`pos
    ensures st.Valid() && Follows(st, r, ReadVersionMiddle(old(st.Unread())))
  {
    hide ReadVersionService, ReadU64, ReadString;
    var recipient :- GetVersionService(st);
    var sender :- GetVersionService(st);
    var nonce :- GetU64(st);
    var agent :- GetString(st);
    return Ok(VersionMiddle(recipient, sender, nonce, agent));
  }

  /** `MsgVersionPayload::serialization`, reading: the sign checks run even after a failed read. */
  method GetVersion(st: DataStream) returns (r: Result<VersionPayload>)
    requires st.Valid()
    modifies st`pos
    ensures st.Valid() && Follows(st, r, ReadVersion(old(st.Unread())))
  {
    hide ReadVersionHead, ReadVersionMiddle, ReadInt;
    var head :- GetVersionHead(st);
    var mid := GetVersionMiddle(st);
    if mid.Err? { return Err(if head.timestamp < 0 then MessagePayloadInvalidTimestamp else mid.error); }
    var height := GetInt(st, 4);
    if head.timestamp < 0 { return Err(MessagePayloadInvalidTimestamp); }
    if height.Err? { return Err(height.error); }
    if height.value < 0 { return Err(MessagePayloadInvalidLastBlockHeight); }
    var flag :- st.Read(Some(1));
    return Ok(VersionPayload(head.protocolVersion, head.services, head.timestamp, mid.value.recipient, mid.value.sender,
                             mid.value.nonce, mid.value.userAgent, height.value, flag[0] == 1));
  }

  /** Reading the rest of a vector after `items` have been read. */
  ghost function Resume<T>(items: seq<T>, rest: Parsed<seq<T>>): Parsed<seq<T>> {
    match rest
    case Got(xs, tail) => Got(items + xs, tail)
    case Fail(e) => Fail(e)
  }

  lemma ResumeStart<T>(p: Parsed<seq<T>>)
    ensures Resume([], p) == p
  {
    if p.Got? {
      assert [] + p.value == p.value;
    }
  }

  lemma ResumeStep<T>(items: seq<T>, s: Bytes, n: nat, read: Bytes -> Parsed<T>)
    requires n > 0
    ensures match read(s)
      case Got(x, s1) => Resume(items, ReadItems(s, n, read)) == Resume(items + [x], ReadItems(s1, n - 1, read))
      case Fail(e) => Resume(items, ReadItems(s, n, read)) == Fail(e)
  {
    match read(s)
    case Fail(e) =>
    case Got(x, s1) =>
      match ReadItems(s1, n - 1, read)
      case Fail(e) =>
      case Got(xs, rest) =>
        assert items + ([x] + xs) == (items + [x]) + xs;
  }

  lemma ResumeEnd<T>(items: seq<T>, s: Bytes, read: Bytes -> Parsed<T>)
    ensures Resume(items, ReadItems(s, 0, read)) == Got(items, s)
  {
    assert items + [] == items;
  }

  lemma NoItems<T>(encode: T -> Bytes)
    ensures EncodeItems([], encode) == []
  {
  }

  /** One more item of a vector: its bytes follow, and fit within the whole. */
  lemma {:induction false} ItemsNext<T>(items: seq<T>, i: nat, encode: T -> Bytes)
    requires i < |items|
    ensures EncodeItems(items[..i + 1], encode) == EncodeItems(items[..i], encode) + encode(items[i])
    ensures |EncodeItems(items[..i + 1], encode)| <= |EncodeItems(items, encode)|
    decreases i
  {
    if i == 0 {
      assert items[..1][1..] == items[..0];
    } else {
      ItemsNext(items[1..], i - 1, encode);
      assert items[1..][..i] == items[..i + 1][1..];
      assert items[1..][..i - 1] == items[..i][1..];
    }
  }
}
