/**
  What becomes of any saved book, storable or not (src/infra/network/addressbook.cpp, `save` and `load`): exactly when
  loading it runs into an ASSERT, and what is loaded otherwise.
 */
module Recovery {
  import opened Common
  import opened Codec
  import opened Addresses
  import opened BookTables
  import opened Capacity
  import opened StoredEntry
  import opened WireFormat
  import opened Storage
  import opened Restoring

  /** Every agent can be read back, and no two endpoints are read back as the same one. */
  ghost predicate Loadable(img: Image) {
    && (forall id | id in img.entries :: |img.entries[id].userAgent| <= MAX_COMPACT_SIZE)
    && (forall a, b | a in img.entries && b in img.entries && Wire(img, a) == Wire(img, b) :: a == b)
  }

  /** The endpoint that the record of an entry is read with. */
  function Wire(img: Image, id: int): IPEndpoint
    requires id in img.entries
  {
    WireEndpoint(img.entries[id].service.endpoint)
  }

  /** Every entry has a slot. */
  ghost predicate AllPlaced(img: Image) {
    forall id | id in img.entries :: img.entries[id].newRefs != {} || img.entries[id].triedRef.Some?
  }

  function StoredEntries(entries: Entries): Entries {
    map id | id in entries :: StoredForm(entries[id]).(triedRef := entries[id].triedRef, newRefs := entries[id].newRefs)
  }

  /** The index that entries call for. */
  ghost function IndexOf(entries: Entries): map<IPEndpoint, int> {
    map ep | ep in (set id | id in entries :: entries[id].service.endpoint) :: Owner(entries, ep)
  }

  ghost function Owner(entries: Entries, ep: IPEndpoint): int {
    var owners := set id | id in entries && entries[id].service.endpoint == ep;
    if owners == {} then 0 else Pick(owners)
  }

  /** The book that the records of `img` are read as. */
  ghost function Reread(img: Image): Image {
    var entries := StoredEntries(img.entries);
    img.(entries := entries, positions := map id | id in img.entries && id in img.positions :: Low32(img.positions[id]),
         ids := IndexOf(entries))
  }

  lemma OwnerOf(entries: Entries, id: int)
    requires id in entries
    requires forall a, b | a in entries && b in entries
             && entries[a].service.endpoint == entries[b].service.endpoint :: a == b
    ensures Owner(entries, entries[id].service.endpoint) == id
  {
    var ep := entries[id].service.endpoint;
    var owners := set x | x in entries && entries[x].service.endpoint == ep;
    assert id in owners;
    assert Pick(owners) in owners;
  }

  lemma IndexOfIndexed(entries: Entries)
    requires forall a, b | a in entries && b in entries
             && entries[a].service.endpoint == entries[b].service.endpoint :: a == b
    ensures Indexed(entries, IndexOf(entries))
  {
    hide Owner;
    var ids := IndexOf(entries);
    forall id | id in entries
      ensures entries[id].service.endpoint in ids && ids[entries[id].service.endpoint] == id
    {
      OwnerOf(entries, id);
    }
    forall ep | ep in ids
      ensures ids[ep] in entries && entries[ids[ep]].service.endpoint == ep
    {
      var id :| id in entries && entries[id].service.endpoint == ep;
      OwnerOf(entries, id);
    }
  }

  lemma SamePlaces(img: Image)
    requires Owned(img)
    ensures Owned(Reread(img))
    ensures NewIds(Reread(img).entries) == NewIds(img.entries) && TriedIds(Reread(img).entries) == TriedIds(img.entries)
  {
    hide StoredForm, IndexOf;
    var back := Reread(img);
    assert back.entries.Keys == img.entries.Keys;
    assert forall id | id in img.entries ::
      back.entries[id].newRefs == img.entries[id].newRefs && back.entries[id].triedRef == img.entries[id].triedRef;
  }

  /** A loadable book is read back as its stored form. */
  lemma LoadableResembles(img: Image)
    requires Sound(img) && Loadable(img)
    ensures Resembles(img, Reread(img))
  {
    hide EncodeEntry, ReadEntry, Owned, Indexed, NewIds, TriedIds, IndexOf;
    var back := Reread(img);
    assert back.entries.Keys == img.entries.Keys;
    assert back.positions.Keys == img.positions.Keys;
    forall id | id in img.entries
      ensures ReadEntry(EncodeOf(img, id)) == Got(Record(Bare(back.entries[id]), back.positions[id]), [])
    {
      EntryReads(img.entries[id], img.positions[id]);
      assert Bare(back.entries[id]) == StoredForm(img.entries[id]);
    }
    forall a, b | a in back.entries && b in back.entries
      && back.entries[a].service.endpoint == back.entries[b].service.endpoint
      ensures a == b
    {
      assert Wire(img, a) == Wire(img, b);
    }
    IndexOfIndexed(back.entries);
    SamePlaces(img);
  }

  /** A book that is not loadable loses an entry when its services are loaded. */
  lemma SomeEntryMissing(img: Image, table: Table, keys: seq<Bytes>) returns (id: int)
    requires Typed(img) && HoldsPart(table, img) && InCursorOrder(keys, table) && !Loadable(img)
    ensures id in img.entries && id !in AddServices(keys, table).entries
  {
    hide EncodeEntry, ReadEntry, HoldsPart, LexLess, AddServices;
    ServicesOrigin(img, table, keys, |keys|);
    assert keys[..|keys|] == keys;
    var l := AddServices(keys, table);
    if x :| x in img.entries && |img.entries[x].userAgent| > MAX_COMPACT_SIZE {
      id := x;
      EntryReads(img.entries[x], img.positions[x]);
    } else {
      var a, b :| a in img.entries && b in img.entries && Wire(img, a) == Wire(img, b) && a != b;
      EntryReads(img.entries[a], img.positions[a]);
      EntryReads(img.entries[b], img.positions[b]);
      id := if a in l.entries then b else a;
    }
  }

  lemma {:induction false} BucketsKeepIds(l: Image, keys: seq<Bytes>, table: Table)
    requires forall i | 0 <= i < |keys| :: keys[i] in table
    ensures AddBuckets(l, keys, table).Some? ==> AddBuckets(l, keys, table).value.entries.Keys == l.entries.Keys
    decreases |keys|
  {
    hide SlotNumber, Number;
    if keys != [] {
      BucketsKeepIds(l, keys[..|keys| - 1], table);
      var front := AddBuckets(l, keys[..|keys| - 1], table);
      if front.Some? {
        OneBucketKeepsIds(front.value, keys[|keys| - 1], table[keys[|keys| - 1]]);
      }
    }
  }

  lemma OneBucketKeepsIds(l: Image, key: Bytes, value: Bytes)
    ensures AddBucket(l, key, value).Some? ==> AddBucket(l, key, value).value.entries.Keys == l.entries.Keys
  {
    hide SlotNumber, Number;
    var id := Number(value);
    var slot := SlotNumber(key);
    if id in l.entries {
      var e := l.entries[id];
      assert l.entries[id := e.(newRefs := e.newRefs + {slot})].Keys == l.entries.Keys;
      assert l.entries[id := e.(triedRef := Some(slot))].Keys == l.entries.Keys;
    }
  }

  /** A slot whose owner is missing makes loading fail. */
  lemma MissingOwner(l: Image, keys: seq<Bytes>, table: Table, key: Bytes, id: int)
    requires InCursorOrder(keys, table) && key in table && IsU32(id) && table[key] == Key(id) && id !in l.entries
    ensures AddBuckets(l, keys, table).None?
  {
    hide Number, LexLess, Key, AddBuckets;
    assert key in keys;
    var j :| 0 <= j < |keys| && keys[j] == key;
    KeyNumber(id);
    MissingOwnerAt(l, keys, table, j, id);
    StaysFailed(l, keys, table, j + 1);
  }

  lemma MissingOwnerAt(l: Image, keys: seq<Bytes>, table: Table, j: int, id: int)
    requires (forall i | 0 <= i < |keys| :: keys[i] in table) && 0 <= j < |keys|
    requires table[keys[j]] == Key(id) && Number(Key(id)) == id && id !in l.entries
    ensures AddBuckets(l, keys[..j + 1], table).None?
  {
    hide Number, Key, AddBucket;
    BucketsKeepIds(l, keys[..j], table);
    var before := AddBuckets(l, keys[..j], table);
    assert keys[..j + 1][..j] == keys[..j];
    if before.Some? {
      assert id !in before.value.entries.Keys;
      OwnerNeeded(before.value, keys[j], id);
    }
  }

  lemma OwnerNeeded(l: Image, key: Bytes, id: int)
    requires Number(Key(id)) == id && id !in l.entries
    ensures AddBucket(l, key, Key(id)).None?
  {
  }

  /** The record of some slot of an entry. */
  lemma SomeSlot(img: Image, table: Table, id: int) returns (key: Bytes)
    requires Owned(img) && HoldsBuckets(table, img.newBuckets, img.triedBuckets) && id in img.entries
    requires img.entries[id].newRefs != {} || img.entries[id].triedRef.Some?
    ensures key in table && table[key] == Key(id) && IsU32(id)
  {
    hide SlotKey, SlotNumber, Key;
    var e := img.entries[id];
    if e.triedRef.Some? {
      assert e.triedRef.value in img.triedBuckets;
      key := SlotKey(TRIED_TAG, e.triedRef.value);
    } else {
      var s := Pick(e.newRefs);
      assert s in img.newBuckets && img.newBuckets[s] == id;
      key := SlotKey(NEW_TAG, s);
    }
  }

  /** What saving a book leaves in the database. */
  ghost predicate Written(db: Db, img: Image) {
    && HoldsWritten(db.services, img)
    && HoldsOrder(db.order, img.order)
    && HoldsBuckets(db.buckets, img.newBuckets, img.triedBuckets)
  }

  /** An agent that can be read back is short enough for its record to be written. */
  lemma ShortIsWritten(db: Db, img: Image)
    requires Typed(img) && Written(db, img)
    requires forall id | id in img.entries :: |img.entries[id].userAgent| <= MAX_COMPACT_SIZE
    ensures Holds(db, img)
  {
    hide EncodeEntry, HoldsPart, HoldsServices, HoldsOrder, HoldsBuckets;
    forall id | id in img.entries ensures Writable(img, id) {
      EntrySize(img.entries[id], img.positions[id]);
    }
  }

  /**
    Loading a saved book runs into an ASSERT exactly when an agent is too long to be read back or two endpoints are
    read back as the same one; otherwise it gives the stored form of the book, with the next id above all in use.
   */
  lemma LoadOutcome(db: Db, c: Cursors, img: Image)
    requires Sound(img) && AllPlaced(img) && img.entries != map[] && Written(db, img) && Visits(c, db)
    ensures Loadable(img) ==>
      && c.services != []
      && var next := Number(c.services[|c.services| - 1]) + 1;
      && Loaded(db, c) == Some(Reread(img).(lastId := next))
      && (forall id | id in img.entries :: id < next)
    ensures !Loadable(img) ==> Loaded(db, c) == None
  {
    hide Loadable, Reread, Resembles, AddServices, AddBuckets, Owned, HoldsServices, HoldsOrder, HoldsBuckets,
         LexLess, Typed, Indexed, NewIds, TriedIds, Number, OrderOf, HoldsPart, Writable;
    if Loadable(img) {
      LoadableShort(img);
      ShortIsWritten(db, img);
      LoadableResembles(img);
      LoadReads(db, c, img, Reread(img));
    } else {
      var id := SomeEntryMissing(img, db.services, c.services);
      var key := SomeSlot(img, db.buckets, id);
      var l := AddServices(c.services, db.services);
      MissingOwner(l.(lastId := l.lastId + 1, order := OrderOf(c.order, db.order)), c.buckets, db.buckets, key, id);
    }
  }

  lemma LoadableShort(img: Image)
    requires Loadable(img)
    ensures forall id | id in img.entries :: |img.entries[id].userAgent| <= MAX_COMPACT_SIZE
  {
  }

  /** In every consistent book every entry has a slot. */
  lemma BookIsPlaced(book: AddressBook.Book)
    requires book.Valid()
    ensures AllPlaced(Snapshot(book))
  {
    hide Bounded, Indexed, Ordered, NewAgree, TriedAgree;
    forall id | id in book.entries ensures book.entries[id].newRefs != {} || book.entries[id].triedRef.Some? {
      assert id !in {};
    }
  }

  const V4_FORM := V4(0x0808_0808)
  const V6_FORM := V6([0, 0, 0, 0, 0, 0, 0, 0, 0, 0, 0, 0, 8, 8, 8, 8])

  /** The address that is read where an IPv6 address with a zero first half was written. */
  lemma HiddenForm(b: Bytes16)
    requires forall i | 0 <= i < 8 :: b[i] == 0
    ensures WireAddress(V6(b)) == V4(Big32(b, 12))
  {
    hide BE, FromBE, Big32;
    assert b[..8] == [0, 0, 0, 0, 0, 0, 0, 0];
    var part := b[12..];
    BEOfFromBE(part);
    Pow256Values();
    assert At(b, 12, part);
    Big32At(b, 12, FromBE(part));
  }

  /** 8.8.8.8 and ::8.8.8.8 are two routable addresses that are read back as one. */
  lemma SameOnTheWire()
    ensures V4_FORM.IsRoutable() && V6_FORM.IsRoutable() && V4_FORM != V6_FORM
    ensures WireAddress(V4_FORM) == WireAddress(V6_FORM)
  {
    hide WireAddress;
    HiddenForm(V6_FORM.bytes);
    V4Stays(0x0808_0808);
    assert V6_FORM.bytes[15] == 8;
  }

  lemma V4Stays(n: U32)
    ensures WireAddress(V4(n)) == V4(n)
  {
  }

  /**
    A consistent book, made of two advertisements, that cannot be loaded again once it is saved: both endpoints are
    read back as the same one.
   */
  method UnloadableBook(place: Placement, source: IPAddress, services: U64, now: int) returns (book: AddressBook.Book)
    requires place.routable(source) && place.routable(V4_FORM) && place.routable(V6_FORM)
    requires place.newSlot(IPEndpoint(V4_FORM, 8333), source) != place.newSlot(IPEndpoint(V6_FORM, 8333), source)
    ensures fresh(book) && book.Valid() && book.place == place && |book.entries| == 2
    ensures !Loadable(Snapshot(book))
  {
    hide Placed, Bounded, Indexed, Ordered, WireAddress;
    SameOnTheWire();
    book := new AddressBook.Book(place);
    var one := NodeService(now, services, IPEndpoint(V4_FORM, 8333));
    var two := NodeService(now, services, IPEndpoint(V6_FORM, 8333));
    var slot1, slot2 := place.newSlot(one.endpoint, source), place.newSlot(two.endpoint, source);
    var first := book.InsertOrUpdate(one, source, 0, now, false);
    assert book.newBuckets == map[slot1 := 1] && book.entries.Keys == {1};
    OneIndexed(book, one.endpoint);
    var second := book.InsertOrUpdate(two, source, 0, now, false);
    assert book.entries.Keys == {1, 2};
    var img := Snapshot(book);
    assert Wire(img, 1) == Wire(img, 2);
  }

  lemma OneIndexed(book: AddressBook.Book, ep: IPEndpoint)
    requires book.Valid() && book.entries.Keys == {1} && book.entries[1].service.endpoint == ep
    ensures forall other | other in book.ids :: other == ep
  {
    hide Bounded, Ordered, Placed;
    forall other | other in book.ids ensures other == ep {
      assert book.ids[other] in book.entries.Keys;
    }
  }

  lemma {:induction false} LexTotal(a: Bytes, b: Bytes)
    ensures a == b || LexLess(a, b) || LexLess(b, a)
    decreases |a|
  {
    if a != [] && b != [] && a[0] == b[0] {
      LexTotal(a[1..], b[1..]);
      assert a[1..] == b[1..] ==> a == [a[0]] + a[1..] && b == [b[0]] + b[1..];
    }
  }

  lemma {:induction false} LexTransitive(a: Bytes, b: Bytes, c: Bytes)
    requires LexLess(a, b) && LexLess(b, c)
    ensures LexLess(a, c)
    decreases |a|
  {
    if a != [] && a[0] == b[0] && b[0] == c[0] {
      LexTransitive(a[1..], b[1..], c[1..]);
    }
  }

  ghost predicate Increasing(keys: seq<Bytes>) {
    forall i, j | 0 <= i < j < |keys| :: LexLess(keys[i], keys[j])
  }

  /** A key put at its place among keys in order. */
  method InsertKey(keys: seq<Bytes>, key: Bytes) returns (r: seq<Bytes>)
    requires Increasing(keys) && key !in keys
    ensures Increasing(r) && |r| == |keys| + 1
    ensures forall k :: k in r <==> k in keys || k == key
  {
    hide LexLess;
    var i := 0;
    while i < |keys| && LexLess(keys[i], key)
      invariant 0 <= i <= |keys|
      invariant forall j | 0 <= j < i :: LexLess(keys[j], key)
    {
      i := i + 1;
    }
    r := keys[..i] + [key] + keys[i..];
    forall j | i <= j < |keys| ensures LexLess(key, keys[j]) {
      assert keys[i] in keys;
      LexTotal(keys[i], key);
      if i < j { LexTransitive(key, keys[i], keys[j]); }
    }
    forall k ensures k in r <==> k in keys || k == key {
      assert keys == keys[..i] + keys[i..];
    }
  }

  /** The keys of a table in the order in which a cursor visits them. */
  method CursorOver(table: Table) returns (keys: seq<Bytes>)
    ensures InCursorOrder(keys, table)
  {
    hide LexLess;
    keys := [];
    var rest := table.Keys;
    while rest != {}
      invariant rest <= table.Keys && Increasing(keys)
      invariant forall k :: k in keys <==> k in table && k !in rest
      decreases |rest|
    {
      var key :| key in rest;
      keys := InsertKey(keys, key);
      rest := rest - {key};
    }
    assert forall i | 0 <= i < |keys| :: keys[i] in keys;
  }

  method Enumerate(s: set<int>) returns (xs: seq<int>)
    ensures forall x :: x in xs <==> x in s
  {
    xs := [];
    var rest := s;
    while rest != {}
      invariant rest <= s
      invariant forall x :: x in xs <==> x in s && x !in rest
      decreases |rest|
    {
      NonEmpty(rest);
      var x :| x in rest;
      xs := xs + [x];
      rest := rest - {x};
    }
  }

  /** Saving a book, over whatever the database held. */
  method SaveBook(book: AddressBook.Book, key: Bytes16, db: Db) returns (r: Db)
    requires book.Valid() && book.lastId <= 0x1_0000_0000
    requires forall id | id in book.entries :: |book.entries[id].userAgent| < 0x1_0000_0000_0000_0000
    ensures book.entries == map[] ==> r == db
    ensures book.entries != map[] ==> r.seed == key && Written(r, Snapshot(book))
  {
    hide Placed, Bounded, Indexed, Ordered, Owned, NewIds, TriedIds, HoldsWritten, HoldsRecords, HoldsOrder,
         HoldsBuckets, Kept;
    BookIsSound(book);
    var img := Image(book.entries, book.positions, book.ids, book.lastId, book.order, book.newBuckets,
                     book.triedBuckets, book.newCount, book.triedCount);
    var ids := Enumerate(img.entries.Keys);
    var newSlots := Enumerate(img.newBuckets.Keys);
    var triedSlots := Enumerate(img.triedBuckets.Keys);
    r := Save(db, key, img, ids, newSlots, triedSlots);
  }

  /** The agreement of the tables of a book, on its snapshot. */
  ghost predicate Agrees(img: Image, place: Placement) {
    && Indexed(img.entries, img.ids)
    && img.positions.Keys == img.entries.Keys
    && Ordered(img.positions, img.order)
    && Placed(Tables(img.entries, img.newBuckets, img.triedBuckets, img.newCount, img.triedCount), place.triedSlot, {})
    && Bounded(img.entries, img.newBuckets, img.triedBuckets, img.lastId, place.routable)
  }

  lemma ValidAgrees(book: AddressBook.Book)
    ensures book.Valid() <==> Agrees(Snapshot(book), book.place)
  {
    hide Placed, Bounded, Indexed, Ordered;
  }

  /** Every address stays routable as it is read back, and every tried entry stays in the slot of its endpoint. */
  ghost predicate Settled(img: Image, place: Placement) {
    forall id | id in img.entries :: SettledEntry(img.entries[id], place)
  }

  predicate SettledEntry(e: Entry, place: Placement) {
    && place.routable(WireAddress(e.service.endpoint.address)) && place.routable(WireAddress(e.origin))
    && (e.triedRef.Some? ==> e.triedRef.value == place.triedSlot(WireEndpoint(e.service.endpoint)))
  }

  /** Every tried entry is in the slot of its endpoint. */
  ghost predicate AtHome(entries: Entries, triedSlot: IPEndpoint -> TriedSlot) {
    forall id | id in entries && entries[id].triedRef.Some? ::
      entries[id].triedRef.value == triedSlot(entries[id].service.endpoint)
  }

  lemma OwnedAgree(img: Image, triedSlot: IPEndpoint -> TriedSlot)
    requires Owned(img)
    ensures NewAgree(img.entries, img.newBuckets)
    ensures TriedAgree(img.entries, img.triedBuckets, triedSlot) <==> AtHome(img.entries, triedSlot)
  {
  }

  /** `b` are the stored forms of `a`, where they were. */
  ghost predicate StoredAs(a: Entries, b: Entries) {
    && a.Keys == b.Keys
    && forall id | id in a ::
         && b[id].newRefs == a[id].newRefs && b[id].triedRef == a[id].triedRef
         && b[id].service.endpoint == WireEndpoint(a[id].service.endpoint) && b[id].origin == WireAddress(a[id].origin)
  }

  lemma RereadShape(img: Image)
    requires img.positions.Keys == img.entries.Keys && Ordered(img.positions, img.order) && |img.order| <= 81_920
    ensures Reread(img).positions == img.positions && StoredAs(img.entries, Reread(img).entries)
  {
    hide IndexOf, WireAddress, WireEndpoint;
    var back := Reread(img);
    assert back.positions.Keys == img.positions.Keys;
    forall id | id in img.positions.Keys ensures back.positions[id] == img.positions[id] {
      assert id in img.positions;
    }
  }

  lemma StoredSettled(img: Image, entries: Entries, place: Placement)
    requires StoredAs(img.entries, entries)
    ensures Settled(img, place) <==> AtHome(entries, place.triedSlot) && AllRoutable(entries, place.routable)
  {
    hide WireAddress;
    if Settled(img, place) {
      forall id | id in entries
        ensures place.routable(entries[id].service.endpoint.address) && place.routable(entries[id].origin)
        ensures entries[id].triedRef.Some? ==>
                entries[id].triedRef.value == place.triedSlot(entries[id].service.endpoint)
      {
        assert id in img.entries.Keys;
        assert SettledEntry(img.entries[id], place);
      }
    }
    if AtHome(entries, place.triedSlot) && AllRoutable(entries, place.routable) {
      forall id | id in img.entries ensures SettledEntry(img.entries[id], place) {
        assert id in entries.Keys;
      }
    }
  }

  lemma StoredSeparated(a: Entries, b: Entries)
    requires StoredAs(a, b) && Separated(a, {})
    ensures Separated(b, {})
  {
    hide WireAddress, WireEndpoint;
    forall id | id in b ensures b[id].newRefs == a[id].newRefs && b[id].triedRef == a[id].triedRef {
      assert id in a.Keys;
    }
  }

  /** The stored form of a book is in agreement exactly when the book is settled. */
  lemma RereadAgrees(img: Image, place: Placement, next: int)
    requires Sound(img) && Loadable(img) && Agrees(img, place) && |img.order| <= 81_920
    requires next >= 1 && forall id | id in img.entries :: id < next
    ensures Agrees(Reread(img).(lastId := next), place) <==> Settled(img, place)
  {
    hide Reread, Loadable, Indexed, Ordered, NewIds, TriedIds, ReadsBack, Typed, Owned, NewAgree, TriedAgree,
         Separated, StoredAs, Settled, AtHome, AllRoutable, OnGrid;
    LoadableResembles(img);
    RereadShape(img);
    var back := Reread(img);
    OwnedAgree(back, place.triedSlot);
    StoredSettled(img, back.entries, place);
    StoredSeparated(img.entries, back.entries);
    assert IdsBelow(back.entries, next) by { StoredIds(img.entries, back.entries, img.lastId, next); }
  }

  lemma StoredIds(a: Entries, b: Entries, lastId: int, next: int)
    requires StoredAs(a, b) && IdsBelow(a, lastId) && next >= 1 && forall id | id in a :: id < next
    ensures IdsBelow(b, next)
  {
    hide WireAddress, WireEndpoint;
    forall id | id in b ensures 1 <= id < next {
      assert id in a.Keys;
    }
  }

  /** What loading a saved book gives, and when that is in agreement. */
  lemma SavedOutcome(db: Db, c: Cursors, img: Image, place: Placement)
    requires Sound(img) && AllPlaced(img) && Agrees(img, place) && |img.order| <= 81_920
    requires img.entries != map[] && Written(db, img) && Visits(c, db)
    ensures Loaded(db, c).Some? <==> Loadable(img)
    ensures Loadable(img) ==>
      && var l := Loaded(db, c).value;
      && l == Reread(img).(lastId := l.lastId)
      && (Agrees(l, place) <==> Settled(img, place))
  {
    hide Loaded, Loadable, Reread, Written, Sound, Settled, Indexed, Ordered, Placed, AllPlaced,
         OnGrid, AllRoutable, Number, LexLess;
    LoadOutcome(db, c, img);
    if Loadable(img) {
      NextPositive(img, Loaded(db, c).value.lastId, place);
      RereadAgrees(img, place, Loaded(db, c).value.lastId);
    }
  }

  lemma StorableOutcome(db: Db, c: Cursors, img: Image, place: Placement)
    requires Sound(img) && AllStorable(img) && Agrees(img, place)
    requires img.entries != map[] && Written(db, img) && Visits(c, db)
    ensures Loaded(db, c).Some?
    ensures var l := Loaded(db, c).value;
      l == img.(lastId := l.lastId) && l.lastId - 1 in img.entries && Agrees(l, place)
  {
    hide Loaded, Written, Holds, AllStorable, Sound, Indexed, Ordered, Placed, OnGrid, AllRoutable, Number, LexLess;
    AgentsFit(img);
    SoundTyped(img);
    ShortIsWritten(db, img);
    LoadSaved(db, c, img);
  }

  lemma SoundTyped(img: Image)
    requires Sound(img)
    ensures Typed(img)
  {
  }

  lemma NextPositive(img: Image, next: int, place: Placement)
    requires Agrees(img, place) && img.entries != map[] && forall id | id in img.entries :: id < next
    ensures next >= 1
  {
    hide Indexed, Ordered, Placed, OnGrid, AllRoutable;
    assert img.entries.Keys != {};
    NonEmpty(img.entries.Keys);
    var id :| id in img.entries.Keys;
    assert 1 <= id < next;
  }

  const LOCAL_FORM := V4(0x0A00_0001)
  const HIDDEN_FORM := V6([0, 0, 0, 0, 0, 0, 0, 0, 0, 0, 0, 0, 10, 0, 0, 1])

  /** ::10.0.0.1 is routable, and is read back as 10.0.0.1, which is not. */
  lemma UnsettledAddress()
    ensures HIDDEN_FORM.IsRoutable() && WireAddress(HIDDEN_FORM) == LOCAL_FORM && !LOCAL_FORM.IsRoutable()
  {
    hide WireAddress;
    HiddenForm(HIDDEN_FORM.bytes);
    assert HIDDEN_FORM.bytes[12] == 10;
  }

  /** A consistent book, made of one advertisement, that is read back but not in agreement. */
  method UnsettledBook(place: Placement, source: IPAddress, services: U64, now: int) returns (book: AddressBook.Book)
    requires place.routable(source) && place.routable(HIDDEN_FORM) && !place.routable(LOCAL_FORM)
    ensures fresh(book) && book.Valid() && book.place == place && |book.entries| == 1
    ensures Loadable(Snapshot(book)) && !Settled(Snapshot(book), place)
  {
    hide Placed, Bounded, Indexed, Ordered, WireAddress;
    UnsettledAddress();
    book := new AddressBook.Book(place);
    var one := NodeService(now, services, IPEndpoint(HIDDEN_FORM, 8333));
    var first := book.InsertOrUpdate(one, source, 0, now, false);
    assert book.entries.Keys == {1};
    assert !SettledEntry(book.entries[1], place);
  }

  /**
    Saving a book and loading it again, over whatever the database held: an ASSERT stops it exactly when the book is
    not loadable; otherwise its stored form comes back, in agreement exactly when the book is settled. All of it comes
    back as it was, in agreement and with ids beyond those in use, if its entries are storable.
   */
  method SaveThenLoad(book: AddressBook.Book, placement: Bytes16 -> Placement, key: Bytes16, random: Bytes16, db: Db)
    returns (ok: bool, again: AddressBook.Book)
    requires book.Valid() && book.lastId <= 0x1_0000_0000 && book.place == placement(key) && book.entries != map[]
    requires forall id | id in book.entries :: |book.entries[id].userAgent| < 0x1_0000_0000_0000_0000
    ensures fresh(again) && again.place == book.place
    ensures ok <==> Loadable(Snapshot(book))
    ensures ok ==>
      && Snapshot(again) == Reread(Snapshot(book)).(lastId := again.lastId)
      && (again.Valid() <==> Settled(Snapshot(book), book.place))
    ensures AllStorable(Snapshot(book)) ==>
      && ok && again.Valid()
      && Snapshot(again) == Snapshot(book).(lastId := again.lastId) && again.lastId - 1 in again.entries
  {
    hide Placed, Bounded, Indexed, Ordered, Agrees, Settled, AllStorable, Sound, Loaded, Loadable, Reread, AllPlaced,
         InCursorOrder, Written;
    ghost var img := Snapshot(book);
    var saved := SaveBook(book, key, db);
    var services := CursorOver(saved.services);
    var order := CursorOver(saved.order);
    var buckets := CursorOver(saved.buckets);
    var c := Cursors(services, order, buckets);
    BookIsSound(book);
    BookIsPlaced(book);
    OrderFits(book);
    ValidAgrees(book);
    SavedOutcome(saved, c, img, book.place);
    if AllStorable(img) { StorableOutcome(saved, c, img, book.place); }
    ok, again := Load(placement, random, saved, c);
    ValidAgrees(again);
  }
}
