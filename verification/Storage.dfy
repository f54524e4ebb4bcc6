/**
  Saving and loading the address book (src/infra/network/addressbook.cpp). A table of the database is a map from
  keys to values; a cursor visits its keys in lexicographic order.
 */
module Storage {
  import opened Common
  import opened Codec
  import opened Addresses
  import opened BookTables
  import opened StoredEntry
  import opened WireFormat

  /** The state of a book that saving concerns. */
  datatype Image = Image(
    entries: Entries,
    positions: map<int, int>,
    ids: map<IPEndpoint, int>,
    lastId: int,
    order: seq<int>,
    newBuckets: map<int, int>,
    triedBuckets: map<int, int>,
    newCount: int,
    triedCount: int
  )

  type Table = map<Bytes, Bytes>

  datatype Db = Db(seed: Bytes, services: Table, order: Table, buckets: Table)

  const EMPTY := Image(map[], map[], map[], 1, [], map[], map[], 0, 0)

  const NEW_TAG: Byte := 0x4E
  const TRIED_TAG: Byte := 0x54

  /** The ranges of the source's types: 32-bit ids, slots and positions. */
  ghost predicate Typed(img: Image) {
    && (forall id | id in img.entries ::
          IsU32(id) && id in img.positions && |img.entries[id].userAgent| < 0x1_0000_0000_0000_0000)
    && |img.order| <= 0x1_0000_0000
    && (forall i | 0 <= i < |img.order| :: IsU32(img.order[i]))
    && (forall s | s in img.newBuckets :: IsU32(s) && IsU32(img.newBuckets[s]))
    && (forall s | s in img.triedBuckets :: IsU32(s) && IsU32(img.triedBuckets[s]))
  }

  /** Every entry has a stored form that holds it. */
  ghost predicate AllStorable(img: Image) {
    forall id | id in img.entries :: id in img.positions && Storable(img.entries[id], img.positions[id])
  }

  function Key(n: int): Bytes {
    BE(Low32(n), 4)
  }

  function Number(b: Bytes): int {
    if |b| >= 4 then FromBE(b[..4]) else 0
  }

  function SlotKey(tag: Byte, slot: int): Bytes {
    [tag] + Key(slot)
  }

  function SlotNumber(key: Bytes): int {
    if |key| >= 5 then FromBE(key[1..5]) else 0
  }

  lemma KeyNumber(n: int)
    requires IsU32(n)
    ensures |Key(n)| == 4 && Number(Key(n)) == n
  {
    hide BE, FromBE, Pow256;
    Pow256Values();
    FromBEOfBE(n, 4);
    assert Key(n)[..4] == Key(n);
  }

  lemma SlotKeyNumber(tag: Byte, n: int)
    requires IsU32(n)
    ensures |SlotKey(tag, n)| == 5 && SlotNumber(SlotKey(tag, n)) == n
  {
    hide BE, FromBE, Pow256;
    Pow256Values();
    FromBEOfBE(n, 4);
    assert SlotKey(tag, n)[1..5] == BE(n, 4);
  }

  /** Keys are big-endian; those of slots have an N or a T in front. */
  lemma KeyLayout(n: int)
    requires IsU32(n)
    ensures |Key(n)| == 4 && Big32(Key(n), 0) == n
    ensures |SlotKey(NEW_TAG, n)| == 5 && SlotKey(NEW_TAG, n)[0] == 0x4E && Big32(SlotKey(NEW_TAG, n), 1) == n
    ensures |SlotKey(TRIED_TAG, n)| == 5 && SlotKey(TRIED_TAG, n)[0] == 0x54 && Big32(SlotKey(TRIED_TAG, n), 1) == n
  {
    hide BE, Big32;
    AtFront(Key(n), []);
    AtFront([NEW_TAG], Key(n));
    AtFront([TRIED_TAG], Key(n));
    Big32At(Key(n), 0, n);
    Big32At(SlotKey(NEW_TAG, n), 1, n);
    Big32At(SlotKey(TRIED_TAG, n), 1, n);
  }

  /** The three tables that `save` writes. */
  ghost predicate HoldsServices(table: Table, img: Image) {
    && (forall id | id in img.entries :: Key(id) in table && table[Key(id)] == EncodeOf(img, id))
    && (forall k | k in table :: Number(k) in img.entries && k == Key(Number(k)))
  }

  /** Every record is that of an entry. */
  ghost predicate HoldsPart(table: Table, img: Image) {
    forall k | k in table :: Number(k) in img.entries && k == Key(Number(k)) && table[k] == EncodeOf(img, Number(k))
  }

  /** The records are those of the entries `ids`. */
  ghost predicate HoldsRecords(table: Table, img: Image, ids: seq<int>) {
    && (forall i | 0 <= i < |ids| :: Key(ids[i]) in table && table[Key(ids[i])] == EncodeOf(img, ids[i]))
    && (forall k | k in table :: Number(k) in ids && k == Key(Number(k)))
  }

  /** The record of an entry fits the limit of a stream; otherwise writing it fails. */
  predicate Writable(img: Image, id: int) {
    |EncodeOf(img, id)| <= MAX_STREAM_SIZE
  }

  /** The ids before the first that cannot be written. */
  function Kept(img: Image, ids: seq<int>): seq<int> {
    if ids == [] || !Writable(img, ids[0]) then [] else [ids[0]] + Kept(img, ids[1..])
  }

  /** What saving leaves: all records if all can be written, and some of them in any case. */
  ghost predicate HoldsWritten(table: Table, img: Image) {
    && HoldsPart(table, img)
    && ((forall id | id in img.entries :: Writable(img, id)) ==> HoldsServices(table, img))
  }

  ghost predicate HoldsOrder(table: Table, order: seq<int>) {
    && (forall i | 0 <= i < |order| :: Key(i) in table && table[Key(i)] == Key(order[i]))
    && (forall k | k in table :: 0 <= Number(k) < |order| && k == Key(Number(k)))
  }

  ghost predicate HoldsBuckets(table: Table, newBuckets: map<int, int>, triedBuckets: map<int, int>) {
    && HoldsSlots(table, NEW_TAG, newBuckets)
    && HoldsSlots(table, TRIED_TAG, triedBuckets)
    && (forall k | k in table :: IsSlotOf(k, NEW_TAG, newBuckets) || IsSlotOf(k, TRIED_TAG, triedBuckets))
  }

  /**
    `save`: an empty book is not saved. The sequences list the keys of the maps in the order they are visited; the
    services are saved up to the first whose record cannot be written.
   */
  method Save(db: Db, key: Bytes, img: Image, ids: seq<int>, newSlots: seq<int>, triedSlots: seq<int>) returns (r: Db)
    requires Typed(img)
    requires (forall id :: id in ids <==> id in img.entries)
    requires forall s :: s in newSlots <==> s in img.newBuckets
    requires forall s :: s in triedSlots <==> s in img.triedBuckets
    ensures img.entries == map[] ==> r == db
    ensures img.entries != map[] ==>
      && r.seed == key
      && HoldsRecords(r.services, img, Kept(img, ids)) && HoldsWritten(r.services, img)
      && HoldsOrder(r.order, img.order) && HoldsBuckets(r.buckets, img.newBuckets, img.triedBuckets)
  {
    if img.entries == map[] { return db; }
    var services := SaveServices(img, ids);
    var order := SaveOrder(img.order);
    var buckets := SaveBuckets(img, newSlots, triedSlots);
    return Db(key, services, order, buckets);
  }

  /** The loop ends at the first record that cannot be written. */
  method SaveServices(img: Image, ids: seq<int>) returns (table: Table)
    requires Typed(img)
    requires forall id :: id in ids <==> id in img.entries
    ensures HoldsRecords(table, img, Kept(img, ids)) && HoldsWritten(table, img)
  {
    hide EncodeEntry, Key, Number, EncodeOf, Kept, HoldsWritten;
    table := map[];
    var i := 0;
    while i < |ids|
      invariant 0 <= i <= |ids| && HoldsRecords(table, img, ids[..i])
      invariant forall j | 0 <= j < i :: Writable(img, ids[j])
    {
      var id := ids[i];
      var record := EncodeOf(img, id);
      if |record| > MAX_STREAM_SIZE { break; }
      PutRecord(table, img, ids, i);
      table := table[Key(id) := record];
      i := i + 1;
    }
    KeptIs(img, ids, i);
    KeptWritten(table, img, ids, i);
  }

  lemma PutRecord(table: Table, img: Image, ids: seq<int>, i: int)
    requires Typed(img) && (forall id :: id in ids <==> id in img.entries)
    requires 0 <= i < |ids| && HoldsRecords(table, img, ids[..i])
    ensures HoldsRecords(table[Key(ids[i]) := EncodeOf(img, ids[i])], img, ids[..i + 1])
  {
    hide Key, Number, EncodeOf;
    var id := ids[i];
    assert id in img.entries;
    KeyNumber(id);
    forall j | 0 <= j < i ensures Key(ids[j]) == Key(id) ==> ids[j] == id {
      assert ids[j] in img.entries;
      KeyNumber(ids[j]);
    }
    assert ids[..i + 1] == ids[..i] + [id];
  }

  lemma {:induction false} KeptIs(img: Image, ids: seq<int>, i: int)
    requires 0 <= i <= |ids| && (forall j | 0 <= j < i :: Writable(img, ids[j]))
    requires i < |ids| ==> !Writable(img, ids[i])
    ensures Kept(img, ids) == ids[..i]
    decreases i
  {
    hide Writable;
    if i > 0 {
      assert Writable(img, ids[0]);
      KeptIs(img, ids[1..], i - 1);
      assert ids[..i] == [ids[0]] + ids[1..][..i - 1];
    }
  }

  lemma KeptWritten(table: Table, img: Image, ids: seq<int>, i: int)
    requires 0 <= i <= |ids| && HoldsRecords(table, img, ids[..i]) && (forall id :: id in ids <==> id in img.entries)
    requires i < |ids| ==> !Writable(img, ids[i])
    ensures HoldsWritten(table, img)
  {
    hide Key, Number, EncodeOf, Writable;
    forall k | k in table ensures Number(k) in img.entries && table[k] == EncodeOf(img, Number(k)) {
      assert Number(k) in ids;
    }
    if forall id | id in img.entries :: Writable(img, id) {
      forall j | 0 <= j < |ids| ensures Writable(img, ids[j]) {
        assert ids[j] in ids;
      }
      assert ids[..i] == ids;
      forall id | id in img.entries ensures Key(id) in table && table[Key(id)] == EncodeOf(img, id) {
        assert id in ids;
      }
    }
  }

  function EncodeOf(img: Image, id: int): Bytes {
    if id in img.entries && id in img.positions && |img.entries[id].userAgent| < 0x1_0000_0000_0000_0000
    then EncodeEntry(img.entries[id], img.positions[id]) else []
  }

  method SaveOrder(order: seq<int>) returns (table: Table)
    requires |order| <= 0x1_0000_0000
    ensures HoldsOrder(table, order)
  {
    hide Key, Number;
    table := map[];
    var ordinal := 0;
    while ordinal < |order|
      invariant 0 <= ordinal <= |order|
      invariant forall i | 0 <= i < ordinal :: Key(i) in table && table[Key(i)] == Key(order[i])
      invariant forall k | k in table :: 0 <= Number(k) < ordinal && k == Key(Number(k))
    {
      KeyNumber(ordinal);
      table := table[Key(ordinal) := Key(order[ordinal])];
      ordinal := ordinal + 1;
    }
  }

  /** The slots of one kind. */
  ghost predicate HoldsSlots(table: Table, tag: Byte, buckets: map<int, int>) {
    forall s | s in buckets :: SlotKey(tag, s) in table && table[SlotKey(tag, s)] == Key(buckets[s])
  }

  predicate IsSlotOf(k: Bytes, tag: Byte, buckets: map<int, int>) {
    SlotNumber(k) in buckets && k == SlotKey(tag, SlotNumber(k))
  }

  method PutSlots(table: Table, tag: Byte, buckets: map<int, int>, slots: seq<int>) returns (r: Table)
    requires forall s :: s in slots <==> s in buckets
    requires forall s | s in buckets :: IsU32(s)
    ensures HoldsSlots(r, tag, buckets)
    ensures forall k | k in table && (k == [] || k[0] != tag) :: k in r && r[k] == table[k]
    ensures forall k | k in r :: k in table || IsSlotOf(k, tag, buckets)
  {
    hide Key, SlotNumber, SlotKey;
    r := table;
    var i := 0;
    while i < |slots|
      invariant 0 <= i <= |slots|
      invariant forall j | 0 <= j < i ::
                SlotKey(tag, slots[j]) in r && r[SlotKey(tag, slots[j])] == Key(buckets[slots[j]])
      invariant forall k | k in table && (k == [] || k[0] != tag) :: k in r && r[k] == table[k]
      invariant forall k | k in r :: k in table || IsSlotOf(k, tag, buckets)
    {
      var slot := slots[i];
      assert slot in buckets;
      SlotKeyNumber(tag, slot);
      SlotKeyTag(tag, slot);
      forall j | 0 <= j < i ensures SlotKey(tag, slots[j]) == SlotKey(tag, slot) ==> slots[j] == slot {
        assert slots[j] in buckets;
        SlotKeyNumber(tag, slots[j]);
      }
      r := r[SlotKey(tag, slot) := Key(buckets[slot])];
      i := i + 1;
    }
    forall s | s in buckets ensures SlotKey(tag, s) in r && r[SlotKey(tag, s)] == Key(buckets[s]) {
      assert s in slots;
    }
  }

  lemma SlotKeyTag(tag: Byte, slot: int)
    ensures SlotKey(tag, slot) != [] && SlotKey(tag, slot)[0] == tag
  {
  }

  method SaveBuckets(img: Image, newSlots: seq<int>, triedSlots: seq<int>) returns (table: Table)
    requires Typed(img)
    requires (forall s :: s in newSlots <==> s in img.newBuckets)
             && (forall s :: s in triedSlots <==> s in img.triedBuckets)
    ensures HoldsBuckets(table, img.newBuckets, img.triedBuckets)
  {
    hide Key, SlotNumber, SlotKey;
    var first := PutSlots(map[], NEW_TAG, img.newBuckets, newSlots);
    table := PutSlots(first, TRIED_TAG, img.triedBuckets, triedSlots);
    forall s | s in img.newBuckets
      ensures SlotKey(NEW_TAG, s) in table && table[SlotKey(NEW_TAG, s)] == Key(img.newBuckets[s]) {
      SlotKeyTag(NEW_TAG, s);
    }
  }

  /**
    One record of the services table: an undecodable one, or one whose id or endpoint is taken, only counts as seen.
   */
  function AddService(l: Image, key: Bytes, value: Bytes): Image {
    var id := Number(key);
    match ReadEntry(value)
    case Fail(_) => l.(lastId := id)
    case Got(r, _) =>
      var ep := r.entry.service.endpoint;
      if id in l.entries || ep in l.ids then l.(lastId := id)
      else l.(entries := l.entries[id := r.entry], positions := l.positions[id := r.position],
              ids := l.ids[ep := id], lastId := id)
  }

  function AddServices(keys: seq<Bytes>, table: Table): Image
    requires forall i | 0 <= i < |keys| :: keys[i] in table
  {
    if keys == [] then EMPTY
    else AddService(AddServices(keys[..|keys| - 1], table), keys[|keys| - 1], table[keys[|keys| - 1]])
  }

  /** Whatever the table holds, the last id is that of the last record, also if it could not be taken. */
  lemma LastSeen(keys: seq<Bytes>, table: Table)
    requires keys != [] && forall i | 0 <= i < |keys| :: keys[i] in table
    ensures AddServices(keys, table).lastId == Number(keys[|keys| - 1])
  {
    hide Number, ReadEntry;
  }

  /** The part of `img` whose keys are among `seen`, without references. */
  ghost predicate PartlyLoaded(l: Image, img: Image, seen: seq<Bytes>) {
    && l.positions.Keys == l.entries.Keys
    && Indexed(l.entries, l.ids)
    && (forall id | id in l.entries ::
          id in img.entries && id in img.positions && Key(id) in seen
          && l.entries[id] == Bare(img.entries[id]) && l.positions[id] == img.positions[id])
    && (forall id | id in img.entries && Key(id) in seen :: id in l.entries)
    && l == EMPTY.(entries := l.entries, positions := l.positions, ids := l.ids, lastId := l.lastId)
  }

  /** An endpoint belongs to the same id in a part of the entries and in all of them. */
  lemma EndpointOwner(part: Entries, partIds: map<IPEndpoint, int>, all: Entries, allIds: map<IPEndpoint, int>,
                      ep: IPEndpoint)
    requires Indexed(part, partIds) && Indexed(all, allIds) && ep in partIds
    requires forall id | id in part :: id in all && part[id].service.endpoint == all[id].service.endpoint
    ensures ep in allIds && allIds[ep] == partIds[ep] && partIds[ep] in part
  {
    var id := partIds[ep];
    assert id in part && part[id].service.endpoint == ep;
    assert id in all && all[id].service.endpoint == ep;
  }

  /** `back` has the entries and positions that the records of `img` are read as. */
  ghost predicate ReadsBack(img: Image, back: Image) {
    && back.entries.Keys == img.entries.Keys
    && forall id | id in img.entries ::
         && id in back.positions
         && ReadEntry(EncodeOf(img, id)) == Got(Record(Bare(back.entries[id]), back.positions[id]), [])
  }

  /** Storable entries are read as they were. */
  lemma StorableReadsBack(img: Image)
    requires Typed(img) && AllStorable(img)
    ensures ReadsBack(img, img)
  {
    hide EncodeEntry, ReadEntry, Storable;
    forall id | id in img.entries
      ensures ReadEntry(EncodeOf(img, id)) == Got(Record(Bare(img.entries[id]), img.positions[id]), [])
    {
      EntryRoundTrip(img.entries[id], img.positions[id]);
    }
  }

  /** Loading the record of one more entry. */
  lemma LoadOne(l: Image, img: Image, back: Image, seen: seq<Bytes>, id: int)
    requires Typed(img) && ReadsBack(img, back) && Indexed(back.entries, back.ids)
    requires PartlyLoaded(l, back, seen) && id in img.entries && Key(id) !in seen
    ensures PartlyLoaded(AddService(l, Key(id), EncodeOf(img, id)), back, seen + [Key(id)])
    ensures AddService(l, Key(id), EncodeOf(img, id)).lastId == id
  {
    hide Key, Number, EncodeOf, ReadEntry;
    KeyNumber(id);
    assert id in back.entries.Keys;
    var e := back.entries[id];
    assert id !in l.entries;
    var ep := e.service.endpoint;
    if ep in l.ids {
      EndpointOwner(l.entries, l.ids, back.entries, back.ids, ep);
    }
    var after := AddService(l, Key(id), EncodeOf(img, id));
    assert after.entries == l.entries[id := Bare(e)];
    forall x | x in back.entries && Key(x) in seen + [Key(id)] ensures x in after.entries {
      assert x in img.entries.Keys;
      KeyNumber(x);
    }
  }

  lemma {:induction false} LexIrreflexive(a: Bytes)
    ensures !LexLess(a, a)
    decreases |a|
  {
    if a != [] { LexIrreflexive(a[1..]); }
  }

  lemma NotSeen(keys: seq<Bytes>, table: Table, i: int)
    requires InCursorOrder(keys, table) && 0 <= i < |keys|
    ensures keys[i] !in keys[..i]
  {
    LexIrreflexive(keys[i]);
  }

  /** The services table gives back the entries, their positions and the index. */
  lemma {:induction false} ServicesLoaded(img: Image, back: Image, table: Table, keys: seq<Bytes>, i: int)
    requires Typed(img) && ReadsBack(img, back) && Indexed(back.entries, back.ids)
    requires HoldsServices(table, img) && InCursorOrder(keys, table) && 0 <= i <= |keys|
    ensures PartlyLoaded(AddServices(keys[..i], table), back, keys[..i])
    ensures i > 0 ==> AddServices(keys[..i], table).lastId == Number(keys[i - 1])
    decreases i
  {
    hide Key, Number, EncodeOf, AddService, Typed, ReadsBack, Indexed, PartlyLoaded, LexLess;
    if i == 0 {
      NothingLoaded(back);
      assert keys[..0] == [];
    } else {
      ServicesLoaded(img, back, table, keys, i - 1);
      NotSeen(keys, table, i - 1);
      var key := keys[i - 1];
      assert key in table;
      assert key == Key(Number(key));
      LoadOne(AddServices(keys[..i - 1], table), img, back, keys[..i - 1], Number(key));
      assert keys[..i][..i - 1] == keys[..i - 1];
      assert keys[..i] == keys[..i - 1] + [key];
    }
  }

  lemma NothingLoaded(img: Image)
    ensures PartlyLoaded(EMPTY, img, [])
  {
  }

  /** All of `back` apart from the references, the order and the buckets. */
  lemma AllServicesLoaded(img: Image, back: Image, table: Table, keys: seq<Bytes>)
    requires Typed(img) && ReadsBack(img, back) && Indexed(back.entries, back.ids)
             && back.positions.Keys == back.entries.Keys
    requires HoldsServices(table, img) && InCursorOrder(keys, table)
    ensures var l := AddServices(keys, table);
      && l.entries.Keys == back.entries.Keys
      && (forall id | id in back.entries :: l.entries[id] == Bare(back.entries[id]))
      && l.positions == back.positions && l.ids == back.ids
      && l.newBuckets == map[] && l.triedBuckets == map[] && l.newCount == 0 && l.triedCount == 0
      && (keys != [] ==> l.lastId == Number(keys[|keys| - 1]))
  {
    hide Key, Number, EncodeOf, AddServices, Typed, ReadEntry;
    ServicesLoaded(img, back, table, keys, |keys|);
    assert keys[..|keys|] == keys;
    var l := AddServices(keys, table);
    forall id | id in back.entries ensures id in l.entries {
      assert id in img.entries.Keys;
      assert Key(id) in keys;
    }
    SameKeys(l.entries, back.entries);
    SameIndex(l.entries, l.ids, back.entries, back.ids);
    SamePositions(l.positions, back.positions);
  }

  /** Whatever was saved, an entry that is loaded is the one that its record is read as, and endpoints stay unique. */
  lemma {:induction false} ServicesOrigin(img: Image, table: Table, keys: seq<Bytes>, i: int)
    requires Typed(img) && HoldsPart(table, img) && InCursorOrder(keys, table) && 0 <= i <= |keys|
    ensures var l := AddServices(keys[..i], table);
      && Indexed(l.entries, l.ids)
      && forall id | id in l.entries ::
           && id in img.entries && ReadEntry(EncodeOf(img, id)).Got?
           && l.entries[id] == ReadEntry(EncodeOf(img, id)).value.entry
    decreases i
  {
    hide Key, Number, EncodeOf, Typed, LexLess, ReadEntry, Indexed;
    if i == 0 {
      assert keys[..0] == [];
      NothingIndexed();
    } else {
      ServicesOrigin(img, table, keys, i - 1);
      var key := keys[i - 1];
      assert key in table;
      assert keys[..i][..i - 1] == keys[..i - 1];
      var l := AddServices(keys[..i - 1], table);
      var id := Number(key);
      var read := ReadEntry(EncodeOf(img, id));
      if read.Got? && id !in l.entries && read.value.entry.service.endpoint !in l.ids {
        IndexedAdd(l.entries, l.ids, id, read.value.entry);
      }
    }
  }

  lemma NothingIndexed()
    ensures Indexed(map[], map[])
  {
  }

  lemma SameKeys(a: Entries, b: Entries)
    requires (forall id | id in a :: id in b) && (forall id | id in b :: id in a)
    ensures a.Keys == b.Keys
  {
    forall id | id in a.Keys ensures id in b.Keys {
      assert id in a;
    }
    forall id | id in b.Keys ensures id in a.Keys {
      assert id in b;
    }
    assert a.Keys == b.Keys;
  }

  lemma SamePositions(a: map<int, int>, b: map<int, int>)
    requires a.Keys == b.Keys && forall id | id in a :: a[id] == b[id]
    ensures a == b
  {
    assert forall id | id in a.Keys :: a[id] == b[id];
  }

  lemma SameIndex(e1: Entries, ids1: map<IPEndpoint, int>, e2: Entries, ids2: map<IPEndpoint, int>)
    requires Indexed(e1, ids1) && Indexed(e2, ids2) && e1.Keys == e2.Keys
    requires forall id | id in e1 :: e1[id].service.endpoint == e2[id].service.endpoint
    ensures ids1 == ids2
  {
    forall ep | ep in ids1 ensures ep in ids2 && ids2[ep] == ids1[ep] {
      EndpointOwner(e1, ids1, e2, ids2, ep);
    }
    forall ep | ep in ids2 ensures ep in ids1 {
      EndpointOwner(e2, ids2, e1, ids1, ep);
    }
    assert ids1.Keys == ids2.Keys;
  }

  /** Every id is at most the last one visited. */
  lemma LastIsLargest(img: Image, table: Table, keys: seq<Bytes>, id: int)
    requires Typed(img) && HoldsServices(table, img) && InCursorOrder(keys, table) && id in img.entries
    ensures keys != [] && id <= Number(keys[|keys| - 1])
  {
    hide Key, Number, EncodeOf;
    assert Key(id) in keys;
    var i :| 0 <= i < |keys| && keys[i] == Key(id);
    var last := keys[|keys| - 1];
    KeyNumber(id);
    if i < |keys| - 1 {
      assert last in table;
      var top := Number(last);
      KeysInOrder(id, top);
    }
  }

  lemma KeysInOrder(m: int, n: int)
    requires IsU32(m) && IsU32(n)
    ensures LexLess(Key(m), Key(n)) <==> m < n
  {
    hide BE, Pow256, LexLess;
    Pow256Values();
    KeyOrder(m, n, 4);
  }

  /** The order table, read in the order of its keys. */
  function OrderOf(keys: seq<Bytes>, table: Table): seq<int>
    requires forall i | 0 <= i < |keys| :: keys[i] in table
  {
    seq(|keys|, i requires 0 <= i < |keys| => Number(table[keys[i]]))
  }

  lemma {:induction false} OrderKeys(order: seq<int>, table: Table, keys: seq<Bytes>, i: int)
    requires |order| <= 0x1_0000_0000 && HoldsOrder(table, order) && InCursorOrder(keys, table) && 0 <= i < |keys|
    ensures i < |order| && keys[i] == Key(i)
    decreases i
  {
    hide Key, Number;
    forall j | 0 <= j < i ensures j < |order| && keys[j] == Key(j) {
      OrderKeys(order, table, keys, j);
    }
    var n := Number(keys[i]);
    assert keys[i] in table && keys[i] == Key(n) && 0 <= n < |order|;
    if i > 0 {
      assert LexLess(keys[i - 1], keys[i]);
      assert keys[i - 1] == Key(i - 1) && i - 1 < |order|;
      KeysInOrder(i - 1, n);
    }
    assert Key(i) in keys;
    var j :| 0 <= j < |keys| && keys[j] == Key(i);
    KeyNumber(i);
    if j < i {
      KeyNumber(j);
    } else if i < j {
      KeysInOrder(n, i);
    }
  }

  /** The order table gives back the random order. */
  lemma OrderLoaded(order: seq<int>, table: Table, keys: seq<Bytes>)
    requires |order| <= 0x1_0000_0000 && (forall i | 0 <= i < |order| :: IsU32(order[i]))
    requires HoldsOrder(table, order) && InCursorOrder(keys, table)
    ensures OrderOf(keys, table) == order
  {
    hide Key, Number;
    forall i | 0 <= i < |keys| ensures i < |order| && keys[i] == Key(i) && Number(table[keys[i]]) == order[i] {
      OrderKeys(order, table, keys, i);
      KeyNumber(order[i]);
    }
    if keys != [] { OrderKeys(order, table, keys, |keys| - 1); }
    if |keys| < |order| {
      assert Key(|keys|) in keys;
      var j :| 0 <= j < |keys| && keys[j] == Key(|keys|);
      KeyNumber(j);
      KeyNumber(|keys|);
      assert false;
    }
  }
}
