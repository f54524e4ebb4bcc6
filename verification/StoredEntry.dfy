/**
  The stored form of an address book entry and the order of the keys it is stored under
  (src/infra/network/addresses.cpp).
 */
module StoredEntry {
  import opened Common
  import opened Codec
  import opened Payloads
  import opened Addresses
  import opened BookTables
  import opened WireFormat

  /** `static_cast<uint32_t>` */
  function Low32(n: int): U32 {
    n % 0x1_0000_0000
  }

  /** An entry apart from where it is referenced, which the bucket tables hold. */
  function Bare(e: Entry): Entry {
    e.(triedRef := None, newRefs := {})
  }

  datatype Record = Record(entry: Entry, position: int)

  function EncodeTail(e: Entry, position: int): Bytes {
    LE(Low32(e.lastAttempt), 4) + (LE(Low32(e.lastSuccess), 4) + (LE(Low32(e.attempts), 4) + LE(Low32(position), 4)))
  }

  /** `NodeServiceInfo::serialization`, writing */
  function EncodeEntry(e: Entry, position: int): Bytes
    requires |e.userAgent| < 0x1_0000_0000_0000_0000
  {
    EncodeNodeService(e.service) + (EncodeString(e.userAgent) + (EncodeAddress(e.origin) + EncodeTail(e, position)))
  }

  datatype Tail = Tail(lastAttempt: U32, lastSuccess: U32, attempts: U32, position: U32)

  function ReadTail(s: Bytes): Parsed<Tail> {
    var (attempt, s1) :- ReadU32(s);
    var (success, s2) :- ReadU32(s1);
    var (attempts, s3) :- ReadU32(s2);
    var (position, rest) :- ReadU32(s3);
    Got(Tail(attempt, success, attempts, position), rest)
  }

  /** `NodeServiceInfo::serialization`, reading */
  function ReadEntry(s: Bytes): Parsed<Record> {
    var (service, s1) :- ReadNodeService(s);
    var (agent, s2) :- ReadString(s1);
    var (origin, s3) :- ReadAddress(s2);
    var (t, rest) :- ReadTail(s3);
    Got(Record(Entry(service, agent, origin, t.lastAttempt, t.lastSuccess, t.attempts, None, {}), t.position), rest)
  }

  predicate IsU32(n: int) {
    0 <= n < 0x1_0000_0000
  }

  /** What the stored form can hold. */
  predicate Storable(e: Entry, position: int) {
    && WireService(e.service)
    && |e.userAgent| <= MAX_COMPACT_SIZE
    && Representable(e.origin)
    && IsU32(e.lastAttempt) && IsU32(e.lastSuccess) && IsU32(e.attempts) && IsU32(position)
  }

  lemma TailRoundTrip(e: Entry, position: int)
    ensures ReadTail(EncodeTail(e, position)) ==
            Got(Tail(Low32(e.lastAttempt), Low32(e.lastSuccess), Low32(e.attempts), Low32(position)), [])
  {
    hide LE, ReadU32;
    var t3 := LE(Low32(position), 4);
    var t2 := LE(Low32(e.attempts), 4) + t3;
    var t1 := LE(Low32(e.lastSuccess), 4) + t2;
    ReadU32Of(Low32(e.lastAttempt), t1);
    ReadU32Of(Low32(e.lastSuccess), t2);
    ReadU32Of(Low32(e.attempts), t3);
    ReadU32Of(Low32(position), []);
    assert t3 + [] == t3;
  }

  /** The address that is read where `a` was written: an IPv6 address with a zero first half comes back as IPv4. */
  function WireAddress(a: IPAddress): IPAddress {
    match a
    case V4(_) => a
    case V6(b) =>
      if LeadingZeros8(b) then
        BEOfFromBE(b[12..]);
        Pow256Values();
        V4(FromBE(b[12..]))
      else a
  }

  function WireEndpoint(ep: IPEndpoint): IPEndpoint {
    IPEndpoint(WireAddress(ep.address), ep.port)
  }

  /** The entry that is read where `e` was written. */
  function StoredForm(e: Entry): Entry {
    Entry(NodeService(Low32(e.service.time), e.service.services, WireEndpoint(e.service.endpoint)), e.userAgent,
          WireAddress(e.origin), Low32(e.lastAttempt), Low32(e.lastSuccess), Low32(e.attempts), None, {})
  }

  lemma AddressReads(a: IPAddress, tail: Bytes)
    ensures ReadAddress(EncodeAddress(a) + tail) == Got(WireAddress(a), tail)
  {
    ReadBytesOf(EncodeAddress(a), tail);
    if a.V4? {
      AddressRoundTrip(a, tail);
    }
  }

  lemma ServiceReads(s: NodeService, tail: Bytes)
    ensures ReadNodeService(EncodeNodeService(s) + tail)
            == Got(NodeService(Low32(s.time), s.services, WireEndpoint(s.endpoint)), tail)
  {
    hide LE, BE, ReadU32, ReadU64, ReadAddress, EncodeAddress, WireAddress, FromBE, Pow256;
    var t3 := BE(s.endpoint.port, 2) + tail;
    var t2 := EncodeAddress(s.endpoint.address) + t3;
    var t1 := LE(s.services, 8) + t2;
    assert EncodeNodeService(s) + tail == LE(Low32(s.time), 4) + t1;
    ReadU32Of(Low32(s.time), t1);
    ReadU64Of(s.services, t2);
    AddressReads(s.endpoint.address, t3);
    PortReads(s.endpoint.port, tail);
  }

  lemma PortReads(port: U16, tail: Bytes)
    ensures ReadPort(BE(port, 2) + tail) == Got(port, tail)
  {
    ReadBytesOf(BE(port, 2), tail);
    Pow256Values();
    FromBEOfBE(port, 2);
  }

  /**
    The fields of a record: service, agent, origin, and the two times, the attempts and the position in 32 bits each.
   */
  lemma EntryLayout(e: Entry, position: int)
    requires |e.userAgent| < 0x1_0000_0000_0000_0000
    ensures var b := EncodeEntry(e, position);
      var i := 30 + CountSize(|e.userAgent|) + |e.userAgent|;
      && |b| == i + 32
      && ServiceAt(b, 0, e.service) && StringAt(b, 30, e.userAgent) && AddressAt(b, i, e.origin)
      && Little32(b, i + 16) == e.lastAttempt % 0x1_0000_0000 && Little32(b, i + 20) == e.lastSuccess % 0x1_0000_0000
      && Little32(b, i + 24) == e.attempts % 0x1_0000_0000 && Little32(b, i + 28) == position % 0x1_0000_0000
  {
    hide EncodeNodeService, EncodeString, EncodeAddress, EncodeTail, ServiceAt, StringAt, AddressAt, Little32, At;
    var b := EncodeEntry(e, position);
    var rest := EncodeAddress(e.origin) + EncodeTail(e, position);
    AtFront(EncodeNodeService(e.service), EncodeString(e.userAgent) + rest);
    ServiceLayout(b, 0, e.service);
    AtBoth(b, 30, EncodeString(e.userAgent), rest);
    StringLayout(b, 30, e.userAgent);
    var i := 30 + CountSize(|e.userAgent|) + |e.userAgent|;
    AtBoth(b, i, EncodeAddress(e.origin), EncodeTail(e, position));
    AddressLayout(b, i, e.origin);
    TailLayout(b, i + 16, e, position);
  }

  lemma TailLayout(b: Bytes, i: int, e: Entry, position: int)
    requires At(b, i, EncodeTail(e, position))
    ensures |EncodeTail(e, position)| == 16 && 0 <= i <= i + 16 <= |b|
    ensures Little32(b, i) == e.lastAttempt % 0x1_0000_0000 && Little32(b, i + 4) == e.lastSuccess % 0x1_0000_0000
    ensures Little32(b, i + 8) == e.attempts % 0x1_0000_0000 && Little32(b, i + 12) == position % 0x1_0000_0000
  {
    hide LE, Little32;
    var t3 := LE(Low32(position), 4);
    var t2 := LE(Low32(e.attempts), 4) + t3;
    var t1 := LE(Low32(e.lastSuccess), 4) + t2;
    AtBoth(b, i, LE(Low32(e.lastAttempt), 4), t1);
    AtBoth(b, i + 4, LE(Low32(e.lastSuccess), 4), t2);
    AtBoth(b, i + 8, LE(Low32(e.attempts), 4), t3);
    Little32At(b, i, Low32(e.lastAttempt));
    Little32At(b, i + 4, Low32(e.lastSuccess));
    Little32At(b, i + 8, Low32(e.attempts));
    Little32At(b, i + 12, Low32(position));
  }

  /** A record is at most 71 bytes longer than the agent in it. */
  lemma EntrySize(e: Entry, position: int)
    requires |e.userAgent| < 0x1_0000_0000_0000_0000
    ensures |EncodeEntry(e, position)| <= |e.userAgent| + 71
  {
    hide LE, BE, EncodeAddress;
  }

  /**
    What becomes of any entry that is stored: it is refused for too long an agent, and otherwise read in its stored
    form.
   */
  lemma EntryReads(e: Entry, position: int)
    requires |e.userAgent| < 0x1_0000_0000_0000_0000
    ensures ReadEntry(EncodeEntry(e, position)) ==
      if |e.userAgent| > MAX_COMPACT_SIZE then Fail(CompactSizeTooBig)
        else Got(Record(StoredForm(e), Low32(position)), [])
  {
    hide ReadNodeService, ReadString, ReadAddress, ReadTail, EncodeNodeService, EncodeString, EncodeAddress,
         EncodeTail, WireAddress;
    var t3 := EncodeTail(e, position);
    var t2 := EncodeAddress(e.origin) + t3;
    var t1 := EncodeString(e.userAgent) + t2;
    ServiceReads(e.service, t1);
    StringRoundTrip(e.userAgent, t2);
    AddressReads(e.origin, t3);
    TailRoundTrip(e, position);
  }

  lemma SmallStays(n: int)
    ensures Low32(n) == n <==> IsU32(n)
  {
  }

  /** What is read is always something that can be stored. */
  lemma EntryRange(s: Bytes)
    requires ReadEntry(s).Got?
    ensures var r := ReadEntry(s).value; Storable(r.entry, r.position) && r.entry == Bare(r.entry)
  {
    hide ReadNodeService, ReadString, ReadAddress, ReadTail, WireService, Representable;
    ServiceRange(s);
    var s1 := ReadNodeService(s).rest;
    StringRange(s1);
    AddressRange(ReadString(s1).rest);
  }

  lemma StringRange(s: Bytes)
    requires ReadString(s).Got?
    ensures |ReadString(s).value| <= MAX_COMPACT_SIZE
  {
    hide ReadCanonical;
  }

  lemma AddressRange(s: Bytes)
    requires ReadAddress(s).Got?
    ensures Representable(ReadAddress(s).value)
  {
  }

  /** An entry comes back from storage as it was exactly when its stored form can hold it. */
  lemma EntryRoundTrip(e: Entry, position: int)
    requires |e.userAgent| < 0x1_0000_0000_0000_0000
    ensures ReadEntry(EncodeEntry(e, position)) == Got(Record(Bare(e), position), []) <==> Storable(e, position)
  {
    hide ReadNodeService, ReadString, ReadAddress, ReadTail, WireService, Representable, EncodeNodeService,
         EncodeString, EncodeAddress, EncodeTail;
    if Storable(e, position) {
      var t3 := EncodeTail(e, position);
      var t2 := EncodeAddress(e.origin) + t3;
      var t1 := EncodeString(e.userAgent) + t2;
      NodeServiceRoundTrip(e.service, t1);
      StringRoundTrip(e.userAgent, t2);
      AddressRoundTrip(e.origin, t3);
      TailRoundTrip(e, position);
      SmallStays(e.lastAttempt);
      SmallStays(e.lastSuccess);
      SmallStays(e.attempts);
      SmallStays(position);
    }
    if ReadEntry(EncodeEntry(e, position)) == Got(Record(Bare(e), position), []) {
      EntryRange(EncodeEntry(e, position));
    }
  }

  /** The order of keys in the database. */
  predicate LexLess(a: Bytes, b: Bytes) {
    b != [] && (a == [] || a[0] < b[0] || (a[0] == b[0] && LexLess(a[1..], b[1..])))
  }

  lemma {:induction false} LexAppend(a: Bytes, b: Bytes, x: Byte, y: Byte)
    requires |a| == |b|
    ensures LexLess(a + [x], b + [y]) <==> LexLess(a, b) || (a == b && x < y)
    decreases |a|
  {
    if a == [] {
      assert a + [x] == [x] && b + [y] == [y] && [x][1..] == [] && [y][1..] == [];
    } else {
      assert (a + [x])[1..] == a[1..] + [x] && (b + [y])[1..] == b[1..] + [y];
      LexAppend(a[1..], b[1..], x, y);
      assert a == b <==> a[0] == b[0] && a[1..] == b[1..] by {
        assert a == [a[0]] + a[1..] && b == [b[0]] + b[1..];
      }
    }
  }

  /** Big-endian keys are in the order of their numbers. */
  lemma {:induction false} KeyOrder(m: nat, n: nat, w: nat)
    requires m < Pow256(w) && n < Pow256(w)
    ensures LexLess(BE(m, w), BE(n, w)) <==> m < n
    decreases w
  {
    if w > 0 {
      KeyOrder(m / 256, n / 256, w - 1);
      LexAppend(BE(m / 256, w - 1), BE(n / 256, w - 1), m % 256, n % 256);
      FromBEOfBE(m / 256, w - 1);
      FromBEOfBE(n / 256, w - 1);
    }
  }

  /** What a cursor visits from the first record to the last. */
  ghost predicate InCursorOrder(keys: seq<Bytes>, table: map<Bytes, Bytes>) {
    && (forall i, j | 0 <= i < j < |keys| :: LexLess(keys[i], keys[j]))
    && (forall i | 0 <= i < |keys| :: keys[i] in table)
    && (forall k | k in table :: k in keys)
  }
}
