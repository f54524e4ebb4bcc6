/**
  Where the address book puts an entry (src/infra/network/addressbook.cpp, `get_new_slot`, `get_tried_slot`,
  `compute_group`). The keyed hash is a parameter; everything below holds for every hash and every key.
 */
module Placing {
  import opened Common
  import opened Codec
  import opened Addresses
  import opened Subnet
  import opened BookTables
  import opened Capacity

  const NEW_BUCKETS_PER_SOURCE_GROUP := 64
  const TRIED_BUCKETS_PER_GROUP := 8
  const IPV4_GROUP_PREFIX := 16
  const IPV6_GROUP_PREFIX := 64

  function AddressBytes(a: IPAddress): Bytes {
    match a
    case V4(n) => BE(n, 4)
    case V6(b) => b
  }

  /** `IPEndpoint::to_bytes` */
  function EndpointBytes(ep: IPEndpoint): Bytes {
    (if ep.address.IsValid() then AddressBytes(ep.address) else []) + [ep.port / 256, ep.port % 256]
  }

  /** Different endpoints have different bytes. */
  lemma EndpointBytesInjective(a: IPEndpoint, b: IPEndpoint)
    requires a.address.IsValid() && b.address.IsValid()
    ensures EndpointBytes(a) == EndpointBytes(b) <==> a == b
  {
    var n := |EndpointBytes(a)| - 2;
    if EndpointBytes(a) == EndpointBytes(b) {
      assert EndpointBytes(a)[..n] == AddressBytes(a.address) && EndpointBytes(b)[..n] == AddressBytes(b.address);
      assert EndpointBytes(a)[n] == a.port / 256 && EndpointBytes(a)[n + 1] == a.port % 256;
      assert EndpointBytes(b)[n] == b.port / 256 && EndpointBytes(b)[n + 1] == b.port % 256;
      AddressBytesInjective(a.address, b.address);
    }
  }

  function GroupPrefix(a: IPAddress): nat {
    if a.V4? then IPV4_GROUP_PREFIX else IPV6_GROUP_PREFIX
  }

  /** `compute_group`: a family tag and the base of the group's subnet. */
  function Group(a: IPAddress): Bytes {
    [1, if a.V4? then 1 else 4] + AddressBytes(Base(a, GroupPrefix(a)))
  }

  /** Two addresses are in one group exactly when they share a /16 (IPv4) or a /64 (IPv6). */
  lemma SameGroup(a: IPAddress, b: IPAddress)
    ensures Group(a) == Group(b) <==> SamePrefix(a, b, if a.V4? then 16 else 64)
  {
    hide Base, Bit, BE;
    BaseFamily(a, GroupPrefix(a));
    BaseFamily(b, GroupPrefix(b));
    assert Group(a)[1] == (if a.V4? then 1 else 4) && Group(b)[1] == (if b.V4? then 1 else 4);
    if a.V4? == b.V4? {
      assert Group(a)[2..] == AddressBytes(Base(a, GroupPrefix(a)));
      assert Group(b)[2..] == AddressBytes(Base(b, GroupPrefix(b)));
      AddressBytesInjective(Base(a, GroupPrefix(a)), Base(b, GroupPrefix(b)));
      SameBase(a, b, GroupPrefix(a));
    }
  }

  lemma AddressBytesInjective(a: IPAddress, b: IPAddress)
    requires a.V4? == b.V4?
    ensures AddressBytes(a) == AddressBytes(b) <==> a == b
  {
    if a.V4? {
      Pow256Values();
      FromBEOfBE(a.value, 4);
      FromBEOfBE(b.value, 4);
    }
  }

  type Hash = (Bytes, Bytes) -> U64

  function NewBucket(sip: Hash, key: Bytes, ep: IPEndpoint, source: IPAddress): (x: nat)
    ensures x < NEW_BUCKETS
  {
    var hash1 := sip(key, Group(ep.address) + Group(source));
    sip(key, Group(source) + LE(hash1 % NEW_BUCKETS_PER_SOURCE_GROUP, 8)) % NEW_BUCKETS
  }

  function TriedBucket(sip: Hash, key: Bytes, ep: IPEndpoint): (x: nat)
    ensures x < TRIED_BUCKETS
  {
    var hash1 := sip(key, EndpointBytes(ep));
    sip(key, Group(ep.address) + LE(hash1 % TRIED_BUCKETS_PER_GROUP, 8)) % TRIED_BUCKETS
  }

  /** The new bucket depends on nothing but the group of the address and the group of the source. */
  lemma BucketByGroups(sip: Hash, key: Bytes, ep1: IPEndpoint, ep2: IPEndpoint, s1: IPAddress, s2: IPAddress)
    requires Group(ep1.address) == Group(ep2.address) && Group(s1) == Group(s2)
    ensures NewBucket(sip, key, ep1, s1) == NewBucket(sip, key, ep2, s2)
  {
  }

  /** The position within a bucket, with `tag` telling the two tables apart. */
  function Position(sip: Hash, key: Bytes, tag: Byte, bucket: nat, ep: IPEndpoint): (y: nat)
    ensures y < BUCKET_SIZE
  {
    sip(key, [tag] + LE(bucket, 2) + EndpointBytes(ep)) % BUCKET_SIZE
  }

  /** `SlotAddress` as one 32-bit number: the bucket in the high half. */
  function Slot(bucket: nat, position: nat): int {
    bucket * 0x1_0000 + position
  }

  /** `get_new_slot` */
  function NewSlotOf(sip: Hash, key: Bytes, ep: IPEndpoint, source: IPAddress): NewSlot {
    var bucket := NewBucket(sip, key, ep, source);
    Slot(bucket, Position(sip, key, 'N' as int, bucket, ep))
  }

  /** `get_tried_slot` */
  function TriedSlotOf(sip: Hash, key: Bytes, ep: IPEndpoint): TriedSlot {
    var bucket := TriedBucket(sip, key, ep);
    Slot(bucket, Position(sip, key, 'T' as int, bucket, ep))
  }

  /** The placement that a book with this key uses. */
  function PlacementOf(sip: Hash, key: Bytes): Placement {
    Placement((ep, source) => NewSlotOf(sip, key, ep, source), ep => TriedSlotOf(sip, key, ep),
              (a: IPAddress) => a.IsRoutable())
  }

  /** The buckets a group's hashes can reach. */
  function Reachable(sip: Hash, key: Bytes, group: Bytes, n: nat, buckets: nat): set<int>
    requires buckets > 0
  {
    if n == 0 then {} else Reachable(sip, key, group, n - 1, buckets) + {sip(key, group + LE(n - 1, 8)) % buckets}
  }

  lemma {:induction false} ReachableSize(sip: Hash, key: Bytes, group: Bytes, n: nat, buckets: nat)
    requires buckets > 0
    ensures |Reachable(sip, key, group, n, buckets)| <= n
    decreases n
  {
    if n > 0 { ReachableSize(sip, key, group, n - 1, buckets); }
  }

  lemma {:induction false} Reached(sip: Hash, key: Bytes, group: Bytes, n: nat, buckets: nat, i: nat)
    requires buckets > 0 && i < n
    ensures sip(key, group + LE(i, 8)) % buckets in Reachable(sip, key, group, n, buckets)
    decreases n
  {
    if i < n - 1 { Reached(sip, key, group, n - 1, buckets, i); }
  }

  /** Everything that sources of one group advertise goes to at most 64 of the 1024 new buckets. */
  lemma SourceGroupSpread(sip: Hash, key: Bytes, offers: set<(IPEndpoint, IPAddress)>, group: Bytes)
    requires forall o | o in offers :: Group(o.1) == group
    ensures |set o | o in offers :: NewBucket(sip, key, o.0, o.1)| <= NEW_BUCKETS_PER_SOURCE_GROUP
  {
    hide Group, LE;
    var all := set o | o in offers :: NewBucket(sip, key, o.0, o.1);
    var reach := Reachable(sip, key, group, NEW_BUCKETS_PER_SOURCE_GROUP, NEW_BUCKETS);
    forall o | o in offers ensures NewBucket(sip, key, o.0, o.1) in reach {
      var hash1 := sip(key, Group(o.0.address) + Group(o.1));
      Reached(sip, key, group, NEW_BUCKETS_PER_SOURCE_GROUP, NEW_BUCKETS, hash1 % NEW_BUCKETS_PER_SOURCE_GROUP);
    }
    ReachableSize(sip, key, group, NEW_BUCKETS_PER_SOURCE_GROUP, NEW_BUCKETS);
    assert all <= reach;
    NatSubset(all, reach);
  }

  lemma NatSubset(small: set<nat>, big: set<int>)
    requires forall x | x in small :: x in big
    ensures |small| <= |big|
    decreases small
  {
    if small != {} {
      var x :| x in small;
      NatSubset(small - {x}, big - {x});
    }
  }

  /** The tried slots a group's first `n` hashes can reach. */
  function ReachableSlots(sip: Hash, key: Bytes, group: Bytes, n: nat): set<int> {
    if n == 0 then {}
    else ReachableSlots(sip, key, group, n - 1)
         + Interval(sip(key, group + LE(n - 1, 8)) % TRIED_BUCKETS * 0x1_0000, BUCKET_SIZE)
  }

  lemma {:induction false} ReachableSlotsSize(sip: Hash, key: Bytes, group: Bytes, n: nat)
    ensures |ReachableSlots(sip, key, group, n)| <= n * BUCKET_SIZE
    decreases n
  {
    if n > 0 {
      ReachableSlotsSize(sip, key, group, n - 1);
      var bucket := Interval(sip(key, group + LE(n - 1, 8)) % TRIED_BUCKETS * 0x1_0000, BUCKET_SIZE);
      IntervalExactly(sip(key, group + LE(n - 1, 8)) % TRIED_BUCKETS * 0x1_0000, BUCKET_SIZE);
      UnionSize(ReachableSlots(sip, key, group, n - 1), bucket);
    }
  }

  lemma {:induction false} SlotReached(sip: Hash, key: Bytes, group: Bytes, n: nat, i: nat, y: nat)
    requires i < n && y < BUCKET_SIZE
    ensures Slot(sip(key, group + LE(i, 8)) % TRIED_BUCKETS, y) in ReachableSlots(sip, key, group, n)
    decreases n
  {
    if i < n - 1 {
      SlotReached(sip, key, group, n - 1, i, y);
    } else {
      IntervalExactly(sip(key, group + LE(n - 1, 8)) % TRIED_BUCKETS * 0x1_0000, BUCKET_SIZE);
    }
  }

  lemma TriedSlotReached(sip: Hash, key: Bytes, ep: IPEndpoint)
    ensures TriedSlotOf(sip, key, ep) in ReachableSlots(sip, key, Group(ep.address), TRIED_BUCKETS_PER_GROUP)
  {
    hide Group, LE, ReachableSlots;
    var i := sip(key, EndpointBytes(ep)) % TRIED_BUCKETS_PER_GROUP;
    SlotReached(sip, key, Group(ep.address), TRIED_BUCKETS_PER_GROUP, i,
                Position(sip, key, 'T' as int, TriedBucket(sip, key, ep), ep));
  }

  /** The addresses of one group occupy at most 8 tried buckets, so at most 512 tried entries. */
  lemma TriedPerGroup(t: Tables, sip: Hash, key: Bytes, group: Bytes, ids: set<int>)
    requires TriedAgree(t.entries, t.triedBuckets, PlacementOf(sip, key).triedSlot)
    requires forall id | id in ids ::
      id in t.entries && t.entries[id].triedRef.Some? && Group(t.entries[id].service.endpoint.address) == group
    ensures |ids| <= TRIED_BUCKETS_PER_GROUP * BUCKET_SIZE
  {
    hide Group, ReachableSlots, TriedSlotOf;
    var slotOf := map id | id in ids :: t.entries[id].triedRef.value;
    var target := ReachableSlots(sip, key, group, TRIED_BUCKETS_PER_GROUP);
    forall id | id in slotOf ensures slotOf[id] in target && t.triedBuckets[slotOf[id]] == id {
      assert id in ids;
      TriedSlotReached(sip, key, t.entries[id].service.endpoint);
    }
    ReachableSlotsSize(sip, key, group, TRIED_BUCKETS_PER_GROUP);
    InjectionSize(slotOf, target);
    assert slotOf.Keys == ids;
  }
}
