/** How large the address book can grow: counting owned slots. */
module Capacity {
  import opened Common
  import opened Addresses
  import opened BookTables

  function Interval(lo: int, n: nat): set<int> {
    if n == 0 then {} else Interval(lo, n - 1) + {lo + n - 1}
  }

  lemma {:induction false} IntervalExactly(lo: int, n: nat)
    ensures forall x :: x in Interval(lo, n) <==> lo <= x < lo + n
    ensures |Interval(lo, n)| == n
    decreases n
  {
    if n > 0 { IntervalExactly(lo, n - 1); }
  }

  /** All slots of a grid of `buckets` buckets. */
  function Grid(buckets: nat): set<int> {
    if buckets == 0 then {} else Grid(buckets - 1) + Interval((buckets - 1) * 0x1_0000, BUCKET_SIZE)
  }

  lemma {:induction false} GridHolds(slot: int, buckets: nat)
    requires InGrid(slot, buckets)
    ensures slot in Grid(buckets)
    decreases buckets
  {
    if slot / 0x1_0000 < buckets - 1 {
      GridHolds(slot, buckets - 1);
    } else {
      IntervalExactly((buckets - 1) * 0x1_0000, BUCKET_SIZE);
    }
  }

  lemma {:induction false} GridSize(buckets: nat)
    ensures |Grid(buckets)| <= buckets * BUCKET_SIZE
    decreases buckets
  {
    if buckets > 0 {
      GridSize(buckets - 1);
      IntervalExactly((buckets - 1) * 0x1_0000, BUCKET_SIZE);
      UnionSize(Grid(buckets - 1), Interval((buckets - 1) * 0x1_0000, BUCKET_SIZE));
    }
  }

  lemma UnionSize(a: set<int>, b: set<int>)
    ensures |a + b| <= |a| + |b|
  {
    assert a + b == a + (b - a);
    SubsetSize(b - a, b);
  }

  lemma SlotsBound(slots: set<int>, buckets: nat)
    requires OnGrid(slots, buckets)
    ensures |slots| <= buckets * BUCKET_SIZE
  {
    forall s | s in slots
      ensures s in Grid(buckets)
    {
      GridHolds(s, buckets);
    }
    SubsetSize(slots, Grid(buckets));
    GridSize(buckets);
  }

  ghost function Pick(s: set<int>): (x: int)
    requires s != {}
    ensures x in s
  {
    NonEmpty(s);
    var x :| x in s; x
  }

  lemma {:induction false} InjectionSize(f: map<int, int>, target: set<int>)
    requires forall a | a in f :: f[a] in target
    requires forall a, b | a in f && b in f && a != b :: f[a] != f[b]
    ensures |f| <= |target|
    decreases |f|
  {
    if f != map[] {
      assert f.Keys != {};
      var k := Pick(f.Keys);
      var rest := f - {k};
      assert rest.Keys == f.Keys - {k};
      InjectionSize(rest, target - {f[k]});
    }
  }

  /** Entries in new and entries in tried together are all entries. */
  lemma CountsAddUp(entries: Entries)
    requires Separated(entries, {})
    ensures |NewIds(entries)| + |TriedIds(entries)| == |entries|
  {
    var untried, tried := NewIds(entries), TriedIds(entries);
    forall id | id in entries
      ensures id in untried + tried
    {
      assert id !in {};
    }
    assert entries.Keys == untried + tried;
    forall id | id in untried
      ensures id !in tried
    {
    }
    assert untried !! tried;
  }

  lemma SomeNewSlot(t: Tables, triedSlot: IPEndpoint -> TriedSlot, limbo: set<int>) returns (slot: int)
    requires Placed(t, triedSlot, limbo) && t.newCount > 0
    ensures slot in t.newBuckets
  {
    NonEmpty(NewIds(t.entries));
    var id :| id in NewIds(t.entries);
    NonEmpty(t.entries[id].newRefs);
    slot :| slot in t.entries[id].newRefs;
  }

  lemma SomeTriedSlot(t: Tables, triedSlot: IPEndpoint -> TriedSlot, limbo: set<int>) returns (slot: int)
    requires Placed(t, triedSlot, limbo) && t.triedCount > 0
    ensures slot in t.triedBuckets
  {
    NonEmpty(TriedIds(t.entries));
    var id :| id in TriedIds(t.entries);
    slot := t.entries[id].triedRef.value;
  }

  /** Every new entry owns a new slot, and no two own the same one. */
  lemma NewOwnersBound(entries: Entries, buckets: map<int, int>)
    requires NewAgree(entries, buckets)
    ensures |NewIds(entries)| <= |buckets.Keys|
  {
    var slotOf := map id | id in NewIds(entries) :: Pick(entries[id].newRefs);
    assert slotOf.Keys == NewIds(entries);
    forall id | id in slotOf
      ensures slotOf[id] in buckets && buckets[slotOf[id]] == id
    {
      assert slotOf[id] in entries[id].newRefs;
    }
    InjectionSize(slotOf, buckets.Keys);
  }

  /** Every tried entry owns a tried slot, and no two own the same one. */
  lemma TriedOwnersBound(entries: Entries, buckets: map<int, int>, triedSlot: IPEndpoint -> TriedSlot)
    requires TriedAgree(entries, buckets, triedSlot)
    ensures |TriedIds(entries)| <= |buckets.Keys|
  {
    var slotOf := map id | id in TriedIds(entries) :: entries[id].triedRef.value;
    assert slotOf.Keys == TriedIds(entries);
    forall id | id in slotOf
      ensures slotOf[id] in buckets && buckets[slotOf[id]] == id
    {
    }
    InjectionSize(slotOf, buckets.Keys);
  }

  /** The book never holds more than 1024 * 64 + 256 * 64 entries, and no entry more than 8 new references. */
  lemma CapacityBound(t: Tables, triedSlot: IPEndpoint -> TriedSlot, lastId: int, routable: IPAddress -> bool)
    requires Placed(t, triedSlot, {})
    requires Bounded(t.entries, t.newBuckets, t.triedBuckets, lastId, routable)
    ensures t.newCount <= 65_536 && t.triedCount <= 16_384
    ensures |t.entries| <= 81_920
    ensures forall id | id in t.entries :: |t.entries[id].newRefs| <= 8
  {
    CountsAddUp(t.entries);
    SlotsBound(t.newBuckets.Keys, NEW_BUCKETS);
    SlotsBound(t.triedBuckets.Keys, TRIED_BUCKETS);
    NewOwnersBound(t.entries, t.newBuckets);
    TriedOwnersBound(t.entries, t.triedBuckets, triedSlot);
  }
}
