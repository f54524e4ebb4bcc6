/** Loading the buckets, and the book as a whole (src/infra/network/addressbook.cpp, `load`). */
module Restoring {
  import opened Common
  import opened Codec
  import opened Payloads
  import opened BookTables
  import opened Capacity
  import opened StoredEntry
  import opened Storage
  import AddressBook

  /** One record of the buckets table; nothing where an ASSERT of the original fails. */
  function AddBucket(l: Image, key: Bytes, value: Bytes): Option<Image> {
    var slot, id := SlotNumber(key), Number(value);
    if key == [] || id !in l.entries then None
    else
      var e := l.entries[id];
      if key[0] == NEW_TAG then
        if slot in e.newRefs || slot in l.newBuckets then None
        else Some(l.(entries := l.entries[id := e.(newRefs := e.newRefs + {slot})],
                     newBuckets := l.newBuckets[slot := id], newCount := l.newCount + if e.newRefs == {} then 1 else 0))
      else if key[0] == TRIED_TAG then
        if e.triedRef.Some? || slot in l.triedBuckets then None
        else Some(l.(entries := l.entries[id := e.(triedRef := Some(slot))], triedBuckets := l.triedBuckets[slot := id],
                     triedCount := l.triedCount + 1))
      else None
  }

  function AddBuckets(l: Image, keys: seq<Bytes>, table: Table): Option<Image>
    requires forall i | 0 <= i < |keys| :: keys[i] in table
  {
    if keys == [] then Some(l)
    else match AddBuckets(l, keys[..|keys| - 1], table)
      case None => None
      case Some(front) => AddBucket(front, keys[|keys| - 1], table[keys[|keys| - 1]])
  }

  /** When a record of the buckets table runs into an ASSERT: a stray owner or tag, or a slot that is taken. */
  lemma BucketRefused(l: Image, key: Bytes, value: Bytes)
    requires key != []
    ensures var slot, id := SlotNumber(key), Number(value);
      AddBucket(l, key, value).None? <==>
        || id !in l.entries
        || (key[0] != 0x4E && key[0] != 0x54)
        || (key[0] == 0x4E && (slot in l.newBuckets || slot in l.entries[id].newRefs))
        || (key[0] == 0x54 && (slot in l.triedBuckets || l.entries[id].triedRef.Some?))
  {
    hide SlotNumber, Number;
  }

  /** A part of a slot map: the slots whose keys are among `seen`. */
  ghost predicate PartOf(part: map<int, int>, all: map<int, int>, tag: Byte, seen: seq<Bytes>) {
    && (forall s | s in part :: s in all && part[s] == all[s] && SlotKey(tag, s) in seen)
    && (forall s | s in all && SlotKey(tag, s) in seen :: s in part)
  }

  ghost predicate PartOfRefs(part: Entry, all: Entry, seen: seq<Bytes>) {
    && Bare(part) == Bare(all)
    && (forall s | s in part.newRefs :: s in all.newRefs && SlotKey(NEW_TAG, s) in seen)
    && (forall s | s in all.newRefs && SlotKey(NEW_TAG, s) in seen :: s in part.newRefs)
    && part.triedRef == (if all.triedRef.Some? && SlotKey(TRIED_TAG, all.triedRef.value) in seen then all.triedRef
                         else None)
  }

  /** What has been restored of `img` once the slots `seen` have been read. */
  ghost predicate PartlyRestored(l: Image, img: Image, seen: seq<Bytes>) {
    && l.entries.Keys == img.entries.Keys
    && (forall id | id in img.entries :: PartOfRefs(l.entries[id], img.entries[id], seen))
    && PartOf(l.newBuckets, img.newBuckets, NEW_TAG, seen)
    && PartOf(l.triedBuckets, img.triedBuckets, TRIED_TAG, seen)
    && l.newCount == |NewIds(l.entries)|
    && l.triedCount == |TriedIds(l.entries)|
  }

  /** The slots of an image are owned as its entries say, and fit 32 bits. */
  ghost predicate Owned(img: Image) {
    && NewAgree(img.entries, img.newBuckets)
    && (forall s | s in img.triedBuckets ::
          img.triedBuckets[s] in img.entries && img.entries[img.triedBuckets[s]].triedRef == Some(s))
    && (forall id | id in img.entries && img.entries[id].triedRef.Some? ::
          img.entries[id].triedRef.value in img.triedBuckets && img.triedBuckets[img.entries[id].triedRef.value] == id)
    && (forall s | s in img.newBuckets :: IsU32(s) && IsU32(img.newBuckets[s]))
    && (forall s | s in img.triedBuckets :: IsU32(s) && IsU32(img.triedBuckets[s]))
  }

  /** Keys of different slots or of different kinds are different. */
  lemma SlotKeysDiffer(tag1: Byte, s1: int, tag2: Byte, s2: int)
    requires IsU32(s1) && IsU32(s2)
    ensures SlotKey(tag1, s1) == SlotKey(tag2, s2) <==> tag1 == tag2 && s1 == s2
  {
    hide SlotKey, SlotNumber;
    SlotKeyNumber(tag1, s1);
    SlotKeyNumber(tag2, s2);
    SlotKeyTag(tag1, s1);
    SlotKeyTag(tag2, s2);
  }

  lemma PartGrows(part: map<int, int>, all: map<int, int>, tag: Byte, seen: seq<Bytes>, slot: int)
    requires PartOf(part, all, tag, seen) && slot in all && SlotKey(tag, slot) !in seen
    requires forall s | s in all :: IsU32(s)
    ensures slot !in part
    ensures PartOf(part[slot := all[slot]], all, tag, seen + [SlotKey(tag, slot)])
  {
    hide SlotKey;
    forall s | s in all ensures SlotKey(tag, s) == SlotKey(tag, slot) ==> s == slot {
      SlotKeysDiffer(tag, s, tag, slot);
    }
  }

  lemma PartStays(part: map<int, int>, all: map<int, int>, tag: Byte, seen: seq<Bytes>, other: Byte, slot: int)
    requires PartOf(part, all, tag, seen) && tag != other && IsU32(slot)
    requires forall s | s in all :: IsU32(s)
    ensures PartOf(part, all, tag, seen + [SlotKey(other, slot)])
  {
    hide SlotKey;
    forall s | s in all ensures SlotKey(tag, s) != SlotKey(other, slot) {
      SlotKeysDiffer(tag, s, other, slot);
    }
  }

  /** Another entry's references do not concern the slot just read. */
  lemma RefsStay(img: Image, seen: seq<Bytes>, id: int, part: Entry, tag: Byte, slot: int)
    requires Owned(img) && id in img.entries && PartOfRefs(part, img.entries[id], seen) && IsU32(slot)
    requires tag == NEW_TAG ==> slot !in img.entries[id].newRefs
    requires tag == TRIED_TAG ==> img.entries[id].triedRef != Some(slot)
    ensures PartOfRefs(part, img.entries[id], seen + [SlotKey(tag, slot)])
  {
    hide SlotKey;
    var all := img.entries[id];
    forall s | s in all.newRefs ensures SlotKey(NEW_TAG, s) != SlotKey(tag, slot) {
      assert s in img.newBuckets;
      SlotKeysDiffer(NEW_TAG, s, tag, slot);
    }
    if all.triedRef.Some? {
      SlotKeysDiffer(TRIED_TAG, all.triedRef.value, tag, slot);
    }
  }

  lemma NewRefGrows(img: Image, seen: seq<Bytes>, id: int, part: Entry, slot: int)
    requires Owned(img) && id in img.entries && PartOfRefs(part, img.entries[id], seen)
    requires slot in img.entries[id].newRefs && SlotKey(NEW_TAG, slot) !in seen
    ensures slot !in part.newRefs
    ensures PartOfRefs(part.(newRefs := part.newRefs + {slot}), img.entries[id], seen + [SlotKey(NEW_TAG, slot)])
  {
    hide SlotKey;
    var all := img.entries[id];
    assert slot in img.newBuckets;
    forall s | s in all.newRefs ensures SlotKey(NEW_TAG, s) == SlotKey(NEW_TAG, slot) ==> s == slot {
      assert s in img.newBuckets;
      SlotKeysDiffer(NEW_TAG, s, NEW_TAG, slot);
    }
    if all.triedRef.Some? {
      SlotKeysDiffer(TRIED_TAG, all.triedRef.value, NEW_TAG, slot);
    }
  }

  lemma TriedRefGrows(img: Image, seen: seq<Bytes>, id: int, part: Entry, slot: int)
    requires Owned(img) && id in img.entries && PartOfRefs(part, img.entries[id], seen)
    requires img.entries[id].triedRef == Some(slot) && SlotKey(TRIED_TAG, slot) !in seen
    ensures part.triedRef.None?
    ensures PartOfRefs(part.(triedRef := Some(slot)), img.entries[id], seen + [SlotKey(TRIED_TAG, slot)])
  {
    hide SlotKey;
    var all := img.entries[id];
    forall s | s in all.newRefs ensures SlotKey(NEW_TAG, s) != SlotKey(TRIED_TAG, slot) {
      assert s in img.newBuckets;
      SlotKeysDiffer(NEW_TAG, s, TRIED_TAG, slot);
    }
  }

  lemma NewIdsGrow(entries: Entries, id: int, e: Entry)
    requires id in entries && e.newRefs != {} && e.triedRef == entries[id].triedRef
    ensures |NewIds(entries[id := e])| == |NewIds(entries)| + if entries[id].newRefs == {} then 1 else 0
    ensures |TriedIds(entries[id := e])| == |TriedIds(entries)|
  {
    var after := NewIds(entries[id := e]);
    assert TriedIds(entries[id := e]) == TriedIds(entries);
    if entries[id].newRefs == {} {
      assert id !in NewIds(entries);
      assert after == NewIds(entries) + {id};
    } else {
      assert after == NewIds(entries);
    }
  }

  lemma TriedIdsGrow(entries: Entries, id: int, e: Entry)
    requires id in entries && e.newRefs == entries[id].newRefs && e.triedRef.Some? && entries[id].triedRef.None?
    ensures |NewIds(entries[id := e])| == |NewIds(entries)|
    ensures |TriedIds(entries[id := e])| == |TriedIds(entries)| + 1
  {
    assert NewIds(entries[id := e]) == NewIds(entries);
    assert TriedIds(entries[id := e]) == TriedIds(entries) + {id};
  }

  /** Reading the record of one more new slot. */
  lemma RestoreNew(l: Image, img: Image, seen: seq<Bytes>, slot: int)
    requires Owned(img) && PartlyRestored(l, img, seen) && slot in img.newBuckets && SlotKey(NEW_TAG, slot) !in seen
    ensures var next := AddBucket(l, SlotKey(NEW_TAG, slot), Key(img.newBuckets[slot]));
      && next.Some? && PartlyRestored(next.value, img, seen + [SlotKey(NEW_TAG, slot)])
      && next.value == l.(entries := next.value.entries, newBuckets := next.value.newBuckets,
                          newCount := next.value.newCount)
  {
    hide SlotKey, SlotNumber, Key, Number, PartOf, PartOfRefs, NewIds, TriedIds;
    var id := img.newBuckets[slot];
    KeyNumber(id);
    SlotKeyNumber(NEW_TAG, slot);
    SlotKeyTag(NEW_TAG, slot);
    assert id in img.entries && slot in img.entries[id].newRefs;
    assert id in l.entries.Keys;
    var e := l.entries[id];
    NewRefGrows(img, seen, id, e, slot);
    PartGrows(l.newBuckets, img.newBuckets, NEW_TAG, seen, slot);
    PartStays(l.triedBuckets, img.triedBuckets, TRIED_TAG, seen, NEW_TAG, slot);
    var e' := e.(newRefs := e.newRefs + {slot});
    NewIdsGrow(l.entries, id, e');
    forall x | x in img.entries && x != id
      ensures PartOfRefs(l.entries[x], img.entries[x], seen + [SlotKey(NEW_TAG, slot)]) {
      assert slot !in img.entries[x].newRefs;
      RefsStay(img, seen, x, l.entries[x], NEW_TAG, slot);
    }
    assert l.entries[id := e'].Keys == img.entries.Keys;
  }

  /** Reading the record of one more tried slot. */
  lemma RestoreTried(l: Image, img: Image, seen: seq<Bytes>, slot: int)
    requires Owned(img) && PartlyRestored(l, img, seen) && slot in img.triedBuckets && SlotKey(TRIED_TAG, slot) !in seen
    ensures var next := AddBucket(l, SlotKey(TRIED_TAG, slot), Key(img.triedBuckets[slot]));
      && next.Some? && PartlyRestored(next.value, img, seen + [SlotKey(TRIED_TAG, slot)])
      && next.value == l.(entries := next.value.entries, triedBuckets := next.value.triedBuckets,
                          triedCount := next.value.triedCount)
  {
    hide SlotKey, SlotNumber, Key, Number, PartOf, PartOfRefs, NewIds, TriedIds;
    var id := img.triedBuckets[slot];
    KeyNumber(id);
    SlotKeyNumber(TRIED_TAG, slot);
    SlotKeyTag(TRIED_TAG, slot);
    assert id in img.entries && img.entries[id].triedRef == Some(slot);
    assert id in l.entries.Keys;
    var e := l.entries[id];
    TriedRefGrows(img, seen, id, e, slot);
    PartGrows(l.triedBuckets, img.triedBuckets, TRIED_TAG, seen, slot);
    PartStays(l.newBuckets, img.newBuckets, NEW_TAG, seen, TRIED_TAG, slot);
    var e' := e.(triedRef := Some(slot));
    TriedIdsGrow(l.entries, id, e');
    forall x | x in img.entries && x != id
      ensures PartOfRefs(l.entries[x], img.entries[x], seen + [SlotKey(TRIED_TAG, slot)]) {
      assert img.entries[x].triedRef != Some(slot);
      RefsStay(img, seen, x, l.entries[x], TRIED_TAG, slot);
    }
    assert l.entries[id := e'].Keys == img.entries.Keys;
  }

  /** What loading the buckets leaves alone. */
  predicate SameRest(l: Image, m: Image) {
    l == m.(entries := l.entries, newBuckets := l.newBuckets, triedBuckets := l.triedBuckets,
            newCount := l.newCount, triedCount := l.triedCount)
  }

  /** The buckets table gives back the slots, the references and the counters. */
  lemma {:induction false} BucketsLoaded(start: Image, img: Image, table: Table, keys: seq<Bytes>, i: int)
    requires Owned(img) && PartlyRestored(start, img, [])
    requires HoldsBuckets(table, img.newBuckets, img.triedBuckets) && InCursorOrder(keys, table) && 0 <= i <= |keys|
    ensures var l := AddBuckets(start, keys[..i], table);
      l.Some? && PartlyRestored(l.value, img, keys[..i]) && SameRest(l.value, start)
    decreases i
  {
    hide Owned, PartlyRestored, AddBucket, SlotKey, SlotNumber, Key, Number;
    if i == 0 {
      assert keys[..0] == [];
    } else {
      BucketsLoaded(start, img, table, keys, i - 1);
      NotSeen(keys, table, i - 1);
      var key := keys[i - 1];
      var before := AddBuckets(start, keys[..i - 1], table).value;
      assert key in table;
      var slot := SlotNumber(key);
      if IsSlotOf(key, NEW_TAG, img.newBuckets) {
        RestoreNew(before, img, keys[..i - 1], slot);
      } else {
        RestoreTried(before, img, keys[..i - 1], slot);
      }
      assert keys[..i][..i - 1] == keys[..i - 1];
      assert keys[..i] == keys[..i - 1] + [key];
    }
  }

  /** Entries without references are the start of restoring. */
  lemma BareIsStart(l: Image, img: Image)
    requires l.entries.Keys == img.entries.Keys
    requires forall id | id in img.entries :: l.entries[id] == Bare(img.entries[id])
    requires l.newBuckets == map[] && l.triedBuckets == map[] && l.newCount == 0 && l.triedCount == 0
    ensures PartlyRestored(l, img, [])
  {
    hide SlotKey;
    forall id ensures id !in NewIds(l.entries) && id !in TriedIds(l.entries) {
      if id in l.entries.Keys {
        assert id in img.entries.Keys;
        assert l.entries[id].newRefs == {} && l.entries[id].triedRef == None;
      }
    }
    SubsetSize(NewIds(l.entries), {});
    SubsetSize(TriedIds(l.entries), {});
  }

  /** Once every slot has been read nothing is missing. */
  lemma AllSeen(l: Image, img: Image, table: Table, keys: seq<Bytes>)
    requires Owned(img) && PartlyRestored(l, img, keys)
    requires HoldsBuckets(table, img.newBuckets, img.triedBuckets) && InCursorOrder(keys, table)
    ensures l.entries == img.entries && l.newBuckets == img.newBuckets && l.triedBuckets == img.triedBuckets
  {
    hide SlotKey, SlotNumber, Key;
    forall s | s in img.newBuckets ensures SlotKey(NEW_TAG, s) in keys {
      assert SlotKey(NEW_TAG, s) in table;
    }
    forall s | s in img.triedBuckets ensures SlotKey(TRIED_TAG, s) in keys {
      assert SlotKey(TRIED_TAG, s) in table;
    }
    WholePart(l.newBuckets, img.newBuckets, NEW_TAG, keys);
    WholePart(l.triedBuckets, img.triedBuckets, TRIED_TAG, keys);
    forall id | id in img.entries ensures l.entries[id] == img.entries[id] {
      WholeRefs(l.entries[id], img.entries[id], keys, img, id);
    }
    assert l.entries == img.entries;
  }

  lemma WholePart(part: map<int, int>, all: map<int, int>, tag: Byte, seen: seq<Bytes>)
    requires PartOf(part, all, tag, seen) && forall s | s in all :: SlotKey(tag, s) in seen
    ensures part == all
  {
    hide SlotKey;
    forall s | s in part.Keys ensures s in all.Keys {
      assert s in part;
    }
    forall s | s in all.Keys ensures s in part.Keys {
      assert s in all;
    }
    assert part.Keys == all.Keys;
    assert forall s | s in part.Keys :: part[s] == all[s];
  }

  lemma WholeRefs(part: Entry, all: Entry, seen: seq<Bytes>, img: Image, id: int)
    requires PartOfRefs(part, all, seen) && Owned(img) && id in img.entries && img.entries[id] == all
    requires forall s | s in img.newBuckets :: SlotKey(NEW_TAG, s) in seen
    requires forall s | s in img.triedBuckets :: SlotKey(TRIED_TAG, s) in seen
    ensures part == all
  {
    hide SlotKey;
    forall s | s in all.newRefs ensures s in part.newRefs {
      assert s in img.newBuckets;
    }
    forall s | s in part.newRefs ensures s in all.newRefs {
    }
    assert part.newRefs <= all.newRefs && all.newRefs <= part.newRefs;
    assert part.triedRef == all.triedRef;
    assert part == Bare(part).(newRefs := part.newRefs, triedRef := part.triedRef);
    assert all == Bare(all).(newRefs := all.newRefs, triedRef := all.triedRef);
  }

  /** The cursors over the three tables. */
  datatype Cursors = Cursors(services: seq<Bytes>, order: seq<Bytes>, buckets: seq<Bytes>)

  ghost predicate Visits(c: Cursors, db: Db) {
    InCursorOrder(c.services, db.services) && InCursorOrder(c.order, db.order) && InCursorOrder(c.buckets, db.buckets)
  }

  /** What `load` makes of a database; nothing where an ASSERT of the original fails. */
  function Loaded(db: Db, c: Cursors): Option<Image>
    requires forall i | 0 <= i < |c.services| :: c.services[i] in db.services
    requires forall i | 0 <= i < |c.order| :: c.order[i] in db.order
    requires forall i | 0 <= i < |c.buckets| :: c.buckets[i] in db.buckets
  {
    var l := AddServices(c.services, db.services);
    AddBuckets(l.(lastId := l.lastId + 1, order := OrderOf(c.order, db.order)), c.buckets, db.buckets)
  }

  /** A database that holds a saved book. */
  ghost predicate Holds(db: Db, img: Image) {
    HoldsServices(db.services, img) && HoldsOrder(db.order, img.order)
      && HoldsBuckets(db.buckets, img.newBuckets, img.triedBuckets)
  }

  /** The agreement of tables that saving relies on. */
  ghost predicate Sound(img: Image) {
    && Typed(img) && Owned(img) && Indexed(img.entries, img.ids) && img.positions.Keys == img.entries.Keys
    && img.newCount == |NewIds(img.entries)| && img.triedCount == |TriedIds(img.entries)|
  }

  /** `back` agrees with `img` on everything but what the records of the entries are read as, and is sound itself. */
  ghost predicate Resembles(img: Image, back: Image) {
    && ReadsBack(img, back)
    && Owned(back) && Indexed(back.entries, back.ids) && back.positions.Keys == back.entries.Keys
    && back.newCount == |NewIds(back.entries)| && back.triedCount == |TriedIds(back.entries)|
    && back.order == img.order && back.newBuckets == img.newBuckets && back.triedBuckets == img.triedBuckets
  }

  /** Loading a saved book gives what its records are read as; the next id is one past the largest id in use. */
  lemma LoadReads(db: Db, c: Cursors, img: Image, back: Image)
    requires Typed(img) && img.entries != map[] && Resembles(img, back) && Holds(db, img) && Visits(c, db)
    ensures c.services != []
    ensures var next := Number(c.services[|c.services| - 1]) + 1;
      && Loaded(db, c) == Some(back.(lastId := next))
      && (forall id | id in img.entries :: id < next)
      && next - 1 in img.entries
  {
    hide Owned, AddServices, AddBuckets, HoldsServices, HoldsOrder, HoldsBuckets, LexLess, Typed, ReadsBack,
         PartlyRestored, Indexed, NewIds, TriedIds, Number, OrderOf;
    AllServicesLoaded(img, back, db.services, c.services);
    forall id | id in img.entries ensures c.services != [] && id <= Number(c.services[|c.services| - 1]) {
      LastIsLargest(img, db.services, c.services, id);
    }
    SomeService(img, db.services, c.services);
    OrderTyped(img);
    OrderLoaded(img.order, db.order, c.order);
    var l := AddServices(c.services, db.services);
    var start := l.(lastId := l.lastId + 1, order := OrderOf(c.order, db.order));
    BareIsStart(start, back);
    BucketsLoaded(start, back, db.buckets, c.buckets, |c.buckets|);
    assert c.buckets[..|c.buckets|] == c.buckets;
    var r := AddBuckets(start, c.buckets, db.buckets).value;
    AllSeen(r, back, db.buckets, c.buckets);
    CountsSeen(r, back, c.buckets);
  }

  /** Loading a saved book of storable entries gives everything back. */
  lemma LoadSaved(db: Db, c: Cursors, img: Image)
    requires Sound(img) && img.entries != map[] && AllStorable(img) && Holds(db, img) && Visits(c, db)
    ensures c.services != []
    ensures var next := Number(c.services[|c.services| - 1]) + 1;
      && Loaded(db, c) == Some(img.(lastId := next))
      && (forall id | id in img.entries :: id < next)
      && next - 1 in img.entries
  {
    hide Owned, HoldsServices, HoldsOrder, HoldsBuckets, LexLess, Typed, ReadsBack, Indexed, NewIds, TriedIds, Number,
         Loaded, AllStorable;
    StorableReadsBack(img);
    LoadReads(db, c, img, img);
  }

  lemma OrderTyped(img: Image)
    requires Typed(img)
    ensures |img.order| <= 0x1_0000_0000 && (forall i | 0 <= i < |img.order| :: IsU32(img.order[i]))
  {
  }

  lemma CountsSeen(l: Image, img: Image, seen: seq<Bytes>)
    requires PartlyRestored(l, img, seen) && l.entries == img.entries
    ensures l.newCount == |NewIds(img.entries)| && l.triedCount == |TriedIds(img.entries)|
  {
  }

  lemma SomeService(img: Image, table: Table, keys: seq<Bytes>)
    requires img.entries != map[] && HoldsServices(table, img) && InCursorOrder(keys, table)
    ensures keys != [] && Number(keys[|keys| - 1]) in img.entries
  {
    hide Key, Number, EncodeOf;
    assert img.entries.Keys != {};
    NonEmpty(img.entries.Keys);
    var id :| id in img.entries.Keys;
    assert Key(id) in table;
    assert Key(id) in keys;
    assert keys[|keys| - 1] in table;
  }

  /** Whatever the services table holds, what is loaded from it can be stored. */
  lemma {:induction false} ServicesStorable(keys: seq<Bytes>, table: Table)
    requires forall i | 0 <= i < |keys| :: keys[i] in table
    ensures AllStorable(AddServices(keys, table))
    decreases |keys|
  {
    hide Number, ReadEntry, Storable;
    if keys != [] {
      var n := |keys| - 1;
      ServicesStorable(keys[..n], table);
      if ReadEntry(table[keys[n]]).Got? {
        EntryRange(table[keys[n]]);
      }
    }
  }

  lemma {:induction false} BucketsStorable(l: Image, keys: seq<Bytes>, table: Table)
    requires AllStorable(l) && forall i | 0 <= i < |keys| :: keys[i] in table
    ensures AddBuckets(l, keys, table).Some? ==> AllStorable(AddBuckets(l, keys, table).value)
    decreases |keys|
  {
    hide SlotNumber, Number, WireService, Representable;
    if keys != [] {
      BucketsStorable(l, keys[..|keys| - 1], table);
    }
  }

  /** Loading a saved book gives it back exactly when all of its entries have a stored form that holds them. */
  lemma LoadSavedExactly(db: Db, c: Cursors, img: Image)
    requires Sound(img) && img.entries != map[] && Holds(db, img) && Visits(c, db)
    ensures (exists next :: Loaded(db, c) == Some(img.(lastId := next))) <==> AllStorable(img)
  {
    hide Sound, Holds, AllStorable, LexLess;
    if AllStorable(img) {
      LoadSaved(db, c, img);
      assert Loaded(db, c) == Some(img.(lastId := Number(c.services[|c.services| - 1]) + 1));
    }
    LoadedStorable(db, c);
    if next :| Loaded(db, c) == Some(img.(lastId := next)) {
      StorableApart(img, next);
    }
  }

  lemma LoadedStorable(db: Db, c: Cursors)
    requires forall i | 0 <= i < |c.services| :: c.services[i] in db.services
    requires forall i | 0 <= i < |c.order| :: c.order[i] in db.order
    requires forall i | 0 <= i < |c.buckets| :: c.buckets[i] in db.buckets
    ensures Loaded(db, c).Some? ==> AllStorable(Loaded(db, c).value)
  {
    hide AddServices, AddBuckets, OrderOf, Storable;
    ServicesStorable(c.services, db.services);
    var l := AddServices(c.services, db.services);
    BucketsStorable(l.(lastId := l.lastId + 1, order := OrderOf(c.order, db.order)), c.buckets, db.buckets);
  }

  lemma StorableApart(img: Image, next: int)
    requires AllStorable(img.(lastId := next))
    ensures AllStorable(img)
  {
    hide Storable;
  }

  ghost function Snapshot(book: AddressBook.Book): Image
    reads book
  {
    Image(book.entries, book.positions, book.ids, book.lastId, book.order, book.newBuckets, book.triedBuckets,
          book.newCount, book.triedCount)
  }

  /** A consistent book whose ids fit 32 bits is fit for saving. */
  lemma BookIsSound(book: AddressBook.Book)
    requires book.Valid() && book.lastId <= 0x1_0000_0000
    requires forall id | id in book.entries :: |book.entries[id].userAgent| < 0x1_0000_0000_0000_0000
    ensures Sound(Snapshot(book))
  {
    var img := Snapshot(book);
    assert NewAgree(img.entries, img.newBuckets);
    OrderFits(book);
    forall id | id in img.entries ensures IsU32(id) && id in img.positions {
      assert id in img.positions.Keys;
    }
    forall i | 0 <= i < |img.order| ensures IsU32(img.order[i]) {
      assert img.order[i] in img.positions.Keys;
    }
    forall s | s in img.newBuckets ensures IsU32(s) && IsU32(img.newBuckets[s]) {
      assert InGrid(s, NEW_BUCKETS) && img.newBuckets[s] in img.entries;
    }
    forall s | s in img.triedBuckets ensures IsU32(s) && IsU32(img.triedBuckets[s]) {
      assert InGrid(s, TRIED_BUCKETS) && img.triedBuckets[s] in img.entries;
    }
  }

  lemma OrderFits(book: AddressBook.Book)
    requires book.Valid()
    ensures |book.order| <= 81_920
  {
    hide Placed, Bounded, Indexed, Ordered;
    CapacityBound(book.State(), book.place.triedSlot, book.lastId, book.place.routable);
    AddressBook.OrderedSize(book.positions, book.order);
    assert |book.positions.Keys| == |book.entries.Keys|;
  }

  /** The key that decides placement: a stored one of the right size replaces the random one of a new book. */
  function LoadedKey(db: Db, random: Bytes16): Bytes16 {
    if |db.seed| == 16 then db.seed else random
  }

  /** `load`, into a new book; `placement` is how a key decides where entries go. */
  method Load(placement: Bytes16 -> Placement, random: Bytes16, db: Db, c: Cursors)
    returns (ok: bool, book: AddressBook.Book)
    requires Visits(c, db)
    ensures fresh(book) && book.place == placement(LoadedKey(db, random))
    ensures ok <==> Loaded(db, c).Some?
    ensures ok ==> Snapshot(book) == Loaded(db, c).value && book.recent == []
  {
    hide AddServices, AddBuckets, OrderOf, LexLess, Placed, Bounded, Indexed, Ordered;
    book := new AddressBook.Book(placement(LoadedKey(db, random)));
    var l := LoadServices(db, c);
    var order := LoadOrder(db, c);
    ok, l := LoadBuckets(l.(lastId := l.lastId + 1, order := order), db, c);
    if !ok { return; }
    book.entries, book.positions, book.ids, book.lastId, book.order := l.entries, l.positions, l.ids, l.lastId, l.order;
    book.newBuckets, book.triedBuckets, book.newCount, book.triedCount := l.newBuckets, l.triedBuckets, l.newCount,
      l.triedCount;
    book.recent := [];
  }

  method LoadServices(db: Db, c: Cursors) returns (l: Image)
    requires Visits(c, db)
    ensures l == AddServices(c.services, db.services)
  {
    hide AddService, LexLess;
    l := EMPTY;
    var i := 0;
    while i < |c.services|
      invariant 0 <= i <= |c.services| && l == AddServices(c.services[..i], db.services)
    {
      var key := c.services[i];
      l := AddService(l, key, db.services[key]);
      assert c.services[..i + 1][..i] == c.services[..i];
      i := i + 1;
    }
    assert c.services[..i] == c.services;
  }

  method LoadOrder(db: Db, c: Cursors) returns (order: seq<int>)
    requires Visits(c, db)
    ensures order == OrderOf(c.order, db.order)
  {
    hide Number, LexLess;
    order := [];
    var i := 0;
    while i < |c.order|
      invariant 0 <= i <= |c.order| && order == OrderOf(c.order, db.order)[..i]
    {
      order := order + [Number(db.order[c.order[i]])];
      i := i + 1;
    }
  }

  method LoadBuckets(start: Image, db: Db, c: Cursors) returns (ok: bool, l: Image)
    requires Visits(c, db)
    ensures ok <==> AddBuckets(start, c.buckets, db.buckets).Some?
    ensures ok ==> l == AddBuckets(start, c.buckets, db.buckets).value
  {
    hide AddBucket, LexLess;
    l := start;
    var i := 0;
    assert c.buckets[..0] == [];
    while i < |c.buckets|
      invariant 0 <= i <= |c.buckets| && AddBuckets(start, c.buckets[..i], db.buckets) == Some(l)
    {
      var key := c.buckets[i];
      var next := AddBucket(l, key, db.buckets[key]);
      assert c.buckets[..i + 1][..i] == c.buckets[..i];
      if next.None? {
        StaysFailed(start, c.buckets, db.buckets, i + 1);
        return false, l;
      }
      l := next.value;
      i := i + 1;
    }
    assert c.buckets[..i] == c.buckets;
    return true, l;
  }

  lemma {:induction false} StaysFailed(start: Image, keys: seq<Bytes>, table: Table, i: int)
    requires (forall j | 0 <= j < |keys| :: keys[j] in table) && 0 <= i <= |keys|
    requires AddBuckets(start, keys[..i], table).None?
    ensures AddBuckets(start, keys, table).None?
    decreases |keys| - i
  {
    hide AddBucket;
    if i == |keys| {
      assert keys[..i] == keys;
    } else {
      assert keys[..i + 1][..i] == keys[..i];
      StaysFailed(start, keys, table, i + 1);
    }
  }

  /** A saved book comes back: every table as it was, in agreement, with ids beyond all that are in use. */
  method Reload(book: AddressBook.Book, placement: Bytes16 -> Placement, key: Bytes16, random: Bytes16, db: Db,
                c: Cursors)
    returns (again: AddressBook.Book)
    requires book.place == placement(key) && db.seed == key
    requires book.Valid() && book.lastId <= 0x1_0000_0000 && book.entries != map[]
    requires AllStorable(Snapshot(book)) && Holds(db, Snapshot(book)) && Visits(c, db)
    ensures fresh(again) && again.Valid() && again.place == book.place
    ensures Snapshot(again) == Snapshot(book).(lastId := again.lastId)
    ensures again.lastId - 1 in again.entries
  {
    hide Placed, Indexed, Ordered, Holds, Visits, AllStorable, Sound, Loaded, OnGrid, AllRoutable;
    ghost var img := Snapshot(book);
    AgentsFit(img);
    BookIsSound(book);
    LoadSaved(db, c, img);
    var ok;
    ok, again := Load(placement, random, db, c);
  }

  lemma AgentsFit(img: Image)
    requires AllStorable(img)
    ensures forall id | id in img.entries :: |img.entries[id].userAgent| <= MAX_COMPACT_SIZE
  {
    hide WireService, Representable;
  }
}
