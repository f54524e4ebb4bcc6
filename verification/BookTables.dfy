/**
  The tables of the address book as values, the invariant that ties them together, and the
  lemmas that carry the invariant across the elementary table updates.
 */
module BookTables {
  import opened Common
  import opened Addresses
  import opened Bits

  const BUCKET_SIZE := 64
  const NEW_BUCKETS := 1024
  const TRIED_BUCKETS := 256
  const MAX_NEW_REFERENCES := 8

  /** Slot coordinates packed as in `SlotAddress`: bucket in the high half, position in the low half. */
  predicate InGrid(slot: int, buckets: int) {
    0 <= slot && slot / 0x1_0000 < buckets && slot % 0x1_0000 < BUCKET_SIZE
  }

  type NewSlot = s: int | InGrid(s, NEW_BUCKETS)
  type TriedSlot = s: int | InGrid(s, TRIED_BUCKETS)

  /** Where entries go, and which addresses `compute_group` accepts. The tried slot depends on the endpoint only. */
  datatype Placement = Placement(
    newSlot: (IPEndpoint, IPAddress) -> NewSlot,
    triedSlot: IPEndpoint -> TriedSlot,
    routable: IPAddress -> bool
  )

  datatype Entry = Entry(
    service: NodeService,
    userAgent: Bytes,
    origin: IPAddress,
    lastAttempt: int,
    lastSuccess: int,
    attempts: int,
    triedRef: Option<int>,
    newRefs: set<int>
  )

  type Entries = map<int, Entry>

  /** An entry just heard of from `source`, referenced by one new slot. */
  function Fresh(service: NodeService, source: IPAddress, time: int, slot: int): Entry {
    Entry(service.(time := time), [], source, 0, 0, 0, None, {slot})
  }

  /** The four tables that say who sits where. */
  datatype Tables = Tables(
    entries: Entries,
    newBuckets: map<int, int>,
    triedBuckets: map<int, int>,
    newCount: int,
    triedCount: int
  )

  /** Ids and endpoints are unique keys of the same entries. */
  ghost predicate Indexed(entries: Entries, ids: map<IPEndpoint, int>) {
    && (forall id | id in entries ::
          entries[id].service.endpoint in ids && ids[entries[id].service.endpoint] == id)
    && (forall ep | ep in ids :: ids[ep] in entries && entries[ids[ep]].service.endpoint == ep)
  }

  /** The random-order vector is a permutation of the ids, and the back-pointers are its inverse. */
  ghost predicate Ordered(positions: map<int, int>, order: seq<int>) {
    && (forall i | 0 <= i < |order| :: order[i] in positions && positions[order[i]] == i)
    && (forall id | id in positions :: 0 <= positions[id] < |order| && order[positions[id]] == id)
  }

  /** A new slot maps to an id exactly when the slot is among that entry's references. */
  ghost predicate NewAgree(entries: Entries, buckets: map<int, int>) {
    && (forall s | s in buckets :: buckets[s] in entries && s in entries[buckets[s]].newRefs)
    && (forall id, s | id in entries && s in entries[id].newRefs :: s in buckets && buckets[s] == id)
  }

  /** A tried slot maps to an id exactly when it is that entry's own tried slot. */
  ghost predicate TriedAgree(entries: Entries, buckets: map<int, int>, triedSlot: IPEndpoint -> TriedSlot) {
    && (forall s | s in buckets :: buckets[s] in entries && entries[buckets[s]].triedRef == Some(s))
    && (forall id | id in entries && entries[id].triedRef.Some? ::
          && entries[id].triedRef.value == triedSlot(entries[id].service.endpoint)
          && entries[id].triedRef.value in buckets
          && buckets[entries[id].triedRef.value] == id)
  }

  /** Every entry is in new or in tried, never both; only the entries of `limbo` are in neither. */
  ghost predicate Separated(entries: Entries, limbo: set<int>) {
    && limbo <= entries.Keys
    && (forall id | id in entries ::
          && |entries[id].newRefs| <= MAX_NEW_REFERENCES
          && (entries[id].newRefs == {} || entries[id].triedRef.None?)
          && (id in limbo <==> entries[id].newRefs == {} && entries[id].triedRef.None?))
  }

  function NewIds(entries: Entries): set<int> {
    set id | id in entries && entries[id].newRefs != {}
  }

  function TriedIds(entries: Entries): set<int> {
    set id | id in entries && entries[id].triedRef.Some?
  }

  /** The tables agree with each other, and both counters are the true counts. */
  ghost predicate Placed(t: Tables, triedSlot: IPEndpoint -> TriedSlot, limbo: set<int>) {
    && NewAgree(t.entries, t.newBuckets)
    && TriedAgree(t.entries, t.triedBuckets, triedSlot)
    && Separated(t.entries, limbo)
    && t.newCount == |NewIds(t.entries)|
    && t.triedCount == |TriedIds(t.entries)|
  }

  ghost predicate OnGrid(slots: set<int>, buckets: int) {
    forall s | s in slots :: InGrid(s, buckets)
  }

  ghost predicate IdsBelow(entries: Entries, lastId: int) {
    lastId >= 1 && forall id | id in entries :: 1 <= id < lastId
  }

  ghost predicate AllRoutable(entries: Entries, routable: IPAddress -> bool) {
    forall id | id in entries ::
      routable(entries[id].service.endpoint.address) && routable(entries[id].origin)
  }

  /** Same keys, same new references. */
  ghost predicate SameNew(before: Entries, after: Entries) {
    && (forall id | id in after :: id in before)
    && (forall id | id in before :: id in after && after[id].newRefs == before[id].newRefs)
  }

  /** Same keys, same endpoints, same tried references. */
  ghost predicate SameTried(before: Entries, after: Entries) {
    && (forall id | id in after :: id in before)
    && (forall id | id in before ::
          && id in after
          && after[id].triedRef == before[id].triedRef
          && after[id].service.endpoint == before[id].service.endpoint)
  }

  lemma {:induction false} NewUntouched(before: Entries, after: Entries, buckets: map<int, int>)
    requires SameNew(before, after)
    ensures NewAgree(before, buckets) ==> NewAgree(after, buckets)
    ensures NewIds(after) == NewIds(before)
  {
    assert forall id :: id in before <==> id in after;
    assert forall id | id in before :: after[id].newRefs == before[id].newRefs;
  }

  lemma {:induction false} TriedUntouched(before: Entries, after: Entries, buckets: map<int, int>,
                                          triedSlot: IPEndpoint -> TriedSlot)
    requires SameTried(before, after)
    ensures TriedAgree(before, buckets, triedSlot) ==> TriedAgree(after, buckets, triedSlot)
    ensures TriedIds(after) == TriedIds(before)
  {
    assert forall id :: id in before <==> id in after;
    assert forall id | id in before :: after[id].triedRef == before[id].triedRef;
  }

  function WithoutReference(entries: Entries, id: int, slot: int): Entries
    requires id in entries
  {
    entries[id := entries[id].(newRefs := entries[id].newRefs - {slot})]
  }

  /** The entries once the owner of `slot`, if any, has lost it: an entry that loses its last slot is gone. */
  function Cleared(entries: Entries, newBuckets: map<int, int>, slot: int): Entries {
    if slot in newBuckets && newBuckets[slot] in entries then
      var id := newBuckets[slot];
      if entries[id].newRefs == {slot} then entries - {id} else WithoutReference(entries, id, slot)
    else entries
  }

  /** Clearing a slot touches references only, and only of the slot's owner. */
  lemma ClearedKeeps(entries: Entries, newBuckets: map<int, int>, slot: int)
    ensures forall id | id in Cleared(entries, newBuckets, slot) ::
      && id in entries
      && Cleared(entries, newBuckets, slot)[id].(newRefs := entries[id].newRefs) == entries[id]
    ensures forall id | id in entries && (slot !in newBuckets || newBuckets[slot] != id) ::
      id in Cleared(entries, newBuckets, slot) && Cleared(entries, newBuckets, slot)[id] == entries[id]
  {
  }

  lemma ClearedOther(entries: Entries, newBuckets: map<int, int>, slot: int, id: int)
    requires id in entries && (slot in newBuckets ==> newBuckets[slot] != id)
    ensures id in Cleared(entries, newBuckets, slot) && Cleared(entries, newBuckets, slot)[id] == entries[id]
    ensures slot !in newBuckets ==> Cleared(entries, newBuckets, slot) == entries
  {
  }

  /** Dropping one of several references of an entry. */
  lemma DropReference(t: Tables, triedSlot: IPEndpoint -> TriedSlot, limbo: set<int>, slot: int)
    requires Placed(t, triedSlot, limbo)
    requires slot in t.newBuckets && t.entries[t.newBuckets[slot]].newRefs != {slot}
    ensures Placed(t.(entries := WithoutReference(t.entries, t.newBuckets[slot], slot),
                      newBuckets := t.newBuckets - {slot}), triedSlot, limbo)
  {
    var id := t.newBuckets[slot];
    var refs := t.entries[id].newRefs;
    var after := WithoutReference(t.entries, id, slot);
    TriedUntouched(t.entries, after, t.triedBuckets, triedSlot);
    SubsetSize(refs - {slot}, refs);
    assert refs == {slot} + (refs - {slot});
    assert NewIds(after) == NewIds(t.entries);
  }

  /** Dropping the only reference of an entry together with the entry. */
  lemma DropEntry(t: Tables, triedSlot: IPEndpoint -> TriedSlot, limbo: set<int>, slot: int)
    requires Placed(t, triedSlot, limbo)
    requires slot in t.newBuckets && t.entries[t.newBuckets[slot]].newRefs == {slot}
    ensures t.newCount > 0
    ensures Placed(t.(entries := t.entries - {t.newBuckets[slot]}, newBuckets := t.newBuckets - {slot},
                      newCount := t.newCount - 1), triedSlot, limbo)
  {
    var id := t.newBuckets[slot];
    var after := t.entries - {id};
    assert id in NewIds(t.entries);
    assert NewIds(after) == NewIds(t.entries) - {id};
    assert TriedIds(after) == TriedIds(t.entries);
  }

  function WithReference(entries: Entries, id: int, slot: int): Entries
    requires id in entries
  {
    entries[id := entries[id].(newRefs := entries[id].newRefs + {slot})]
  }

  /** Giving a free new slot to an entry with room for one more; the entry leaves limbo if it was there. */
  lemma AddReference(t: Tables, triedSlot: IPEndpoint -> TriedSlot, limbo: set<int>, id: int, slot: int)
    requires Placed(t, triedSlot, limbo)
    requires id in t.entries && slot !in t.newBuckets
    requires t.entries[id].triedRef == None && |t.entries[id].newRefs| < MAX_NEW_REFERENCES
    ensures Placed(t.(entries := WithReference(t.entries, id, slot),
                      newBuckets := t.newBuckets[slot := id],
                      newCount := t.newCount + if t.entries[id].newRefs == {} then 1 else 0), triedSlot, limbo - {id})
  {
    var after := WithReference(t.entries, id, slot);
    TriedUntouched(t.entries, after, t.triedBuckets, triedSlot);
    NewTaken(t.entries, t.newBuckets, id, slot);
    SeparatedTaken(t.entries, limbo, id, slot);
  }

  lemma NewTaken(entries: Entries, buckets: map<int, int>, id: int, slot: int)
    requires NewAgree(entries, buckets) && id in entries && slot !in buckets
    ensures NewAgree(WithReference(entries, id, slot), buckets[slot := id])
    ensures |NewIds(WithReference(entries, id, slot))| == |NewIds(entries)| + if entries[id].newRefs == {} then 1 else 0
  {
    var after := WithReference(entries, id, slot);
    assert slot in after[id].newRefs;
    assert NewIds(after) == NewIds(entries) + {id};
    if entries[id].newRefs == {} {
      assert id !in NewIds(entries);
    } else {
      assert NewIds(after) == NewIds(entries);
    }
  }

  lemma SeparatedTaken(entries: Entries, limbo: set<int>, id: int, slot: int)
    requires Separated(entries, limbo) && id in entries
    requires entries[id].triedRef == None && |entries[id].newRefs| < MAX_NEW_REFERENCES
    ensures Separated(WithReference(entries, id, slot), limbo - {id})
  {
    assert slot in WithReference(entries, id, slot)[id].newRefs;
  }

  function WithTried(entries: Entries, id: int, tried: Option<int>): Entries
    requires id in entries
  {
    entries[id := entries[id].(triedRef := tried)]
  }

  /** Putting an entry that is in no bucket at its own, free, tried slot. */
  lemma EnterTried(t: Tables, triedSlot: IPEndpoint -> TriedSlot, limbo: set<int>, id: int, slot: int)
    requires Placed(t, triedSlot, limbo)
    requires id in limbo && slot == triedSlot(t.entries[id].service.endpoint) && slot !in t.triedBuckets
    ensures Placed(t.(entries := WithTried(t.entries, id, Some(slot)), triedBuckets := t.triedBuckets[slot := id],
                      triedCount := t.triedCount + 1), triedSlot, limbo - {id})
  {
    var after := WithTried(t.entries, id, Some(slot));
    NewUntouched(t.entries, after, t.newBuckets);
    assert TriedIds(after) == TriedIds(t.entries) + {id};
    TriedAdded(t.entries, t.triedBuckets, triedSlot, id, slot);
  }

  lemma TriedAdded(entries: Entries, buckets: map<int, int>, triedSlot: IPEndpoint -> TriedSlot, id: int, slot: int)
    requires TriedAgree(entries, buckets, triedSlot)
    requires id in entries && entries[id].triedRef == None
    requires slot == triedSlot(entries[id].service.endpoint) && slot !in buckets
    ensures TriedAgree(WithTried(entries, id, Some(slot)), buckets[slot := id], triedSlot)
  {
  }

  /** Taking an entry out of its tried slot leaves it in limbo. */
  lemma LeaveTried(t: Tables, triedSlot: IPEndpoint -> TriedSlot, limbo: set<int>, slot: int)
    requires Placed(t, triedSlot, limbo)
    requires slot in t.triedBuckets
    ensures t.triedCount > 0
    ensures Placed(t.(entries := WithTried(t.entries, t.triedBuckets[slot], None),
                      triedBuckets := t.triedBuckets - {slot}, triedCount := t.triedCount - 1), triedSlot, limbo
                        + {t.triedBuckets[slot]})
  {
    var id := t.triedBuckets[slot];
    var after := WithTried(t.entries, id, None);
    assert id in TriedIds(t.entries);
    NewUntouched(t.entries, after, t.newBuckets);
    assert TriedIds(after) == TriedIds(t.entries) - {id};
  }

  function WithoutReferences(entries: Entries, id: int): Entries
    requires id in entries
  {
    entries[id := entries[id].(newRefs := {})]
  }

  /** Releasing all new slots of an entry leaves it in limbo. */
  lemma LeaveNew(t: Tables, triedSlot: IPEndpoint -> TriedSlot, limbo: set<int>, id: int)
    requires Placed(t, triedSlot, limbo)
    requires id in t.entries && t.entries[id].newRefs != {}
    ensures t.newCount > 0
    ensures Placed(t.(entries := WithoutReferences(t.entries, id),
                      newBuckets := t.newBuckets - t.entries[id].newRefs,
                      newCount := t.newCount - 1), triedSlot, limbo + {id})
  {
    var after := WithoutReferences(t.entries, id);
    assert id in NewIds(t.entries);
    assert NewIds(after) == NewIds(t.entries) - {id};
    TriedUntouched(t.entries, after, t.triedBuckets, triedSlot);
    NewReleased(t.entries, t.newBuckets, id);
  }

  lemma NewReleased(entries: Entries, buckets: map<int, int>, id: int)
    requires NewAgree(entries, buckets) && id in entries
    ensures NewAgree(WithoutReferences(entries, id), buckets - entries[id].newRefs)
  {
    var after := WithoutReferences(entries, id);
    var left := buckets - entries[id].newRefs;
    forall k, s | k in after && s in after[k].newRefs
      ensures s in left && left[s] == k
    {
      assert k != id && s in entries[k].newRefs && buckets[s] == k;
      assert s !in entries[id].newRefs;
    }
  }

  /** Entering a fresh entry at a free new slot. */
  lemma AddEntry(t: Tables, triedSlot: IPEndpoint -> TriedSlot, limbo: set<int>, id: int, e: Entry, slot: int)
    requires Placed(t, triedSlot, limbo)
    requires id !in t.entries && slot !in t.newBuckets && e.newRefs == {slot} && e.triedRef == None
    ensures Placed(t.(entries := t.entries[id := e], newBuckets := t.newBuckets[slot := id],
                      newCount := t.newCount + 1), triedSlot, limbo)
  {
    var after := t.entries[id := e];
    assert slot in after[id].newRefs;
    assert NewIds(after) == NewIds(t.entries) + {id};
    assert TriedIds(after) == TriedIds(t.entries);
    NewEntered(t.entries, t.newBuckets, id, e, slot);
  }

  lemma NewEntered(entries: Entries, buckets: map<int, int>, id: int, e: Entry, slot: int)
    requires NewAgree(entries, buckets)
    requires id !in entries && slot !in buckets && e.newRefs == {slot}
    ensures NewAgree(entries[id := e], buckets[slot := id])
  {
  }

  /** The entries once `evicted` has left tried and taken the new slot `back`, whose owner loses it. */
  function Demoted(entries: Entries, newBuckets: map<int, int>, evicted: int, back: int): Entries
    requires evicted in entries
  {
    var cleared := Cleared(WithTried(entries, evicted, None), newBuckets, back);
    if evicted in cleared then WithReference(cleared, evicted, back) else cleared
  }

  /**
    The tables after entry `id` has been promoted to tried: it gives up its new slots and takes its
    tried slot; the occupant of that slot, if any, goes back to a new slot, whose owner loses it.
   */
  function Promoted(t: Tables, place: Placement, id: int): (Entries, map<int, int>, map<int, int>)
    requires id in t.entries
  {
    var slot := place.triedSlot(t.entries[id].service.endpoint);
    var entries := WithoutReferences(t.entries, id);
    var buckets := t.newBuckets - t.entries[id].newRefs;
    if slot in t.triedBuckets && t.triedBuckets[slot] in entries then
      var evicted := t.triedBuckets[slot];
      var back := place.newSlot(entries[evicted].service.endpoint, entries[evicted].origin);
      var demoted := Demoted(entries, buckets, evicted, back);
      (if id in demoted then WithTried(demoted, id, Some(slot)) else demoted,
       buckets[back := evicted], t.triedBuckets[slot := id])
    else
      (WithTried(entries, id, Some(slot)), buckets, t.triedBuckets[slot := id])
  }

  /** The promoted entry itself: in its tried slot, in no new slot, and otherwise as it was. */
  lemma PromotedSelf(t: Tables, place: Placement, id: int)
    requires Placed(t, place.triedSlot, {}) && id in t.entries && t.entries[id].triedRef == None
    ensures var after := Promoted(t, place, id).0;
      && id in after
      && after[id] == t.entries[id].(newRefs := {}, triedRef := Some(place.triedSlot(t.entries[id].service.endpoint)))
  {
    var slot := place.triedSlot(t.entries[id].service.endpoint);
    if slot in t.triedBuckets { TriedOccupant(t, place.triedSlot, {}, slot); }
  }

  /** What does not depend on who sits where: slots on the grid, ids below the next one, routable addresses. */
  ghost predicate Bounded(entries: Entries, newBuckets: map<int, int>, triedBuckets: map<int, int>,
                          lastId: int, routable: IPAddress -> bool)
  {
    && OnGrid(newBuckets.Keys, NEW_BUCKETS)
    && OnGrid(triedBuckets.Keys, TRIED_BUCKETS)
    && IdsBelow(entries, lastId)
    && AllRoutable(entries, routable)
  }

  /** `after` has only entries of `before`, with the same endpoint and origin. */
  ghost predicate SameIdentities(before: Entries, after: Entries) {
    forall id | id in after ::
      && id in before
      && after[id].service.endpoint == before[id].service.endpoint
      && after[id].origin == before[id].origin
  }

  lemma BoundedEntries(entries: Entries, after: Entries, newBuckets: map<int, int>, triedBuckets: map<int, int>,
                       lastId: int, routable: IPAddress -> bool)
    requires Bounded(entries, newBuckets, triedBuckets, lastId, routable)
    requires SameIdentities(entries, after)
    ensures Bounded(after, newBuckets, triedBuckets, lastId, routable)
  {
  }

  lemma BoundedRelease(entries: Entries, newBuckets: map<int, int>, triedBuckets: map<int, int>,
                       lastId: int, routable: IPAddress -> bool, slots: set<int>)
    requires Bounded(entries, newBuckets, triedBuckets, lastId, routable)
    ensures Bounded(entries, newBuckets - slots, triedBuckets, lastId, routable)
    ensures Bounded(entries, newBuckets, triedBuckets - slots, lastId, routable)
  {
  }

  lemma BoundedCleared(entries: Entries, newBuckets: map<int, int>, triedBuckets: map<int, int>,
                       lastId: int, routable: IPAddress -> bool, slot: int)
    requires Bounded(entries, newBuckets, triedBuckets, lastId, routable)
    ensures Bounded(Cleared(entries, newBuckets, slot), newBuckets - {slot}, triedBuckets, lastId, routable)
  {
    ClearedKeeps(entries, newBuckets, slot);
    BoundedEntries(entries, Cleared(entries, newBuckets, slot), newBuckets, triedBuckets, lastId, routable);
  }

  lemma ClearedCases(entries: Entries, newBuckets: map<int, int>, slot: int)
    requires slot in newBuckets && newBuckets[slot] in entries
    ensures var id := newBuckets[slot];
      Cleared(entries, newBuckets, slot) == if entries[id].newRefs == {slot} then entries - {id}
        else WithoutReference(entries, id, slot)
  {
  }

  lemma BoundedTake(entries: Entries, newBuckets: map<int, int>, triedBuckets: map<int, int>,
                    lastId: int, routable: IPAddress -> bool, id: int, slot: int)
    requires Bounded(entries, newBuckets, triedBuckets, lastId, routable)
    ensures InGrid(slot, NEW_BUCKETS) ==> Bounded(entries, newBuckets[slot := id], triedBuckets, lastId, routable)
    ensures InGrid(slot, TRIED_BUCKETS) ==> Bounded(entries, newBuckets, triedBuckets[slot := id], lastId, routable)
  {
  }

  lemma BoundedNewEntry(entries: Entries, newBuckets: map<int, int>, triedBuckets: map<int, int>,
                        lastId: int, routable: IPAddress -> bool, e: Entry)
    requires Bounded(entries, newBuckets, triedBuckets, lastId, routable)
    requires routable(e.service.endpoint.address) && routable(e.origin)
    ensures lastId !in entries && lastId >= 1
    ensures Bounded(entries[lastId := e], newBuckets, triedBuckets, lastId + 1, routable)
  {
  }

  lemma IdPositive(entries: Entries, newBuckets: map<int, int>, triedBuckets: map<int, int>,
                   lastId: int, routable: IPAddress -> bool, id: int)
    requires Bounded(entries, newBuckets, triedBuckets, lastId, routable) && id in entries
    ensures 1 <= id < lastId
    ensures routable(entries[id].service.endpoint.address) && routable(entries[id].origin)
  {
  }

  lemma IndexedSame(before: Entries, after: Entries, ids: map<IPEndpoint, int>)
    requires Indexed(before, ids)
    requires after.Keys == before.Keys
    requires forall id | id in after :: after[id].service.endpoint == before[id].service.endpoint
    ensures Indexed(after, ids)
  {
    assert forall id :: id in before <==> id in after;
  }

  lemma IndexedAdd(entries: Entries, ids: map<IPEndpoint, int>, id: int, e: Entry)
    requires Indexed(entries, ids) && id !in entries && e.service.endpoint !in ids
    ensures Indexed(entries[id := e], ids[e.service.endpoint := id])
  {
  }

  /** A table with fewer entries knows fewer endpoints. */
  lemma IndexShrinks(before: Entries, idsBefore: map<IPEndpoint, int>, after: Entries, idsAfter: map<IPEndpoint, int>)
    requires Indexed(before, idsBefore) && Indexed(after, idsAfter)
    requires forall id | id in after :: id in before && after[id].service.endpoint == before[id].service.endpoint
    ensures idsAfter.Keys <= idsBefore.Keys
  {
    forall ep | ep in idsAfter
      ensures ep in idsBefore
    {
      var id := idsAfter[ep];
      assert id in after && after[id].service.endpoint == ep;
      assert id in before && before[id].service.endpoint == ep;
    }
  }

  lemma OrderedAppend(positions: map<int, int>, order: seq<int>, id: int)
    requires Ordered(positions, order) && id !in positions
    ensures Ordered(positions[id := |order|], order + [id])
  {
  }

  lemma OrderedAt(positions: map<int, int>, order: seq<int>, i: int)
    requires Ordered(positions, order) && 0 <= i < |order|
    ensures order[i] in positions && order[i] !in order[..i]
  {
  }

  /** Who sits in a tried slot. */
  lemma TriedOccupant(t: Tables, triedSlot: IPEndpoint -> TriedSlot, limbo: set<int>, slot: int)
    requires Placed(t, triedSlot, limbo) && slot in t.triedBuckets
    ensures var id := t.triedBuckets[slot];
      id in t.entries && t.entries[id].triedRef == Some(slot) && t.entries[id].newRefs == {} && id !in limbo
  {
  }

  /** Who sits in a new slot. */
  lemma NewOccupant(t: Tables, triedSlot: IPEndpoint -> TriedSlot, limbo: set<int>, slot: int)
    requires Placed(t, triedSlot, limbo) && slot in t.newBuckets
    ensures var id := t.newBuckets[slot];
      id in t.entries && t.entries[id].triedRef == None && slot in t.entries[id].newRefs && id !in limbo
  {
  }

  lemma LimboEntry(t: Tables, triedSlot: IPEndpoint -> TriedSlot, limbo: set<int>, id: int)
    requires Placed(t, triedSlot, limbo) && id in limbo
    ensures id in t.entries && t.entries[id].newRefs == {} && t.entries[id].triedRef == None
  {
  }

  /** Where an entry sits. */
  lemma EntryPlace(t: Tables, triedSlot: IPEndpoint -> TriedSlot, limbo: set<int>, id: int)
    requires Placed(t, triedSlot, limbo) && id in t.entries
    ensures |t.entries[id].newRefs| <= MAX_NEW_REFERENCES
    ensures id !in limbo ==> (t.entries[id].newRefs != {}) != t.entries[id].triedRef.Some?
    ensures forall s | s in t.entries[id].newRefs :: s in t.newBuckets && t.newBuckets[s] == id
    ensures t.entries[id].triedRef.Some? ==>
      var s := t.entries[id].triedRef.value;
      s == triedSlot(t.entries[id].service.endpoint) && s in t.triedBuckets && t.triedBuckets[s] == id
  {
  }

  /** Two versions of an entry that sit in the same places under the same endpoint. */
  predicate SamePlace(a: Entry, b: Entry) {
    && a.service.endpoint == b.service.endpoint
    && a.origin == b.origin
    && a.triedRef == b.triedRef
    && a.newRefs == b.newRefs
  }

  /** Changing the times, services, agent or attempts of an entry moves nothing. */
  lemma AmendEntry(t: Tables, triedSlot: IPEndpoint -> TriedSlot, limbo: set<int>, id: int, e: Entry)
    requires Placed(t, triedSlot, limbo)
    requires id in t.entries && SamePlace(t.entries[id], e)
    ensures Placed(t.(entries := t.entries[id := e]), triedSlot, limbo)
  {
    NewUntouched(t.entries, t.entries[id := e], t.newBuckets);
    TriedUntouched(t.entries, t.entries[id := e], t.triedBuckets, triedSlot);
  }

  const HOUR := 3600
  const DAY := 86400

  /** The time and services an entry takes from a fresh advertisement. */
  function Refreshed(e: Entry, service: NodeService, penalty: int, now: int): Entry {
    var time := if e.service.time < service.time - RenewalInterval(service, now) - penalty
                then Max(TIME_INIT, service.time - penalty)
                else e.service.time;
    OrServices(e.service.services, service.services);
    e.(service := e.service.(time := time, services := BitOr(e.service.services, service.services)))
  }

  /**
    What an advertisement makes of the service of a known entry: a bit of the services is set if the entry or the
    advertisement had it, and the time is renewed if it is more than an hour, or a day for an advertisement older than a
    day, and the penalty behind.
   */
  ghost predicate Merged(before: NodeService, ad: NodeService, penalty: int, now: int, after: NodeService) {
    && after.endpoint == before.endpoint
    && (forall i | 0 <= i < 64 :: HasBit(after.services, i) <==> HasBit(before.services, i) || HasBit(ad.services, i))
    && after.time ==
       if before.time + penalty + (if now - 86_400 < ad.time then 3_600 else 86_400) < ad.time
       then Max(100_000_000, ad.time - penalty) else before.time
  }

  lemma RefreshedMerges(e: Entry, service: NodeService, penalty: int, now: int)
    ensures Merged(e.service, service, penalty, now, Refreshed(e, service, penalty, now).service)
    ensures Refreshed(e, service, penalty, now) == e.(service := Refreshed(e, service, penalty, now).service)
  {
    hide BitOr, HasBit;
    forall i | 0 <= i < 64
      ensures HasBit(BitOr(e.service.services, service.services), i) <==>
              HasBit(e.service.services, i) || HasBit(service.services, i)
    {
      OrBits(e.service.services, service.services, i);
    }
  }

  lemma RefreshedStays(e: Entry, service: NodeService, penalty: int, now: int)
    ensures SamePlace(e, Refreshed(e, service, penalty, now))
  {
  }

  lemma OrServices(a: U64, b: U64)
    ensures BitOr(a, b) < 0x1_0000_0000_0000_0000
  {
    Pow2Values();
    OrBound(a, b, 64);
  }

  /** Whether a refreshed entry takes one more new slot for an advertisement. */
  predicate TakesReference(e: Entry, service: NodeService, slot: int, lucky: bool) {
    && e.service.time >= service.time
    && e.triedRef.None?
    && |e.newRefs| != MAX_NEW_REFERENCES
    && lucky
    && slot !in e.newRefs
  }

  /** What an advertisement makes of a known entry: one more slot at most, and nothing else but its service. */
  ghost predicate Absorbed(before: Entry, ad: NodeService, penalty: int, now: int, lucky: bool, slot: int,
                           after: Entry)
  {
    && Merged(before.service, ad, penalty, now, after.service)
    && var more := ad.time <= after.service.time && before.triedRef.None? && |before.newRefs| < 8 && lucky;
       after == before.(service := after.service, newRefs := before.newRefs + if more then {slot} else {})
  }

  lemma AbsorbedEndpoint(before: Entry, ad: NodeService, penalty: int, now: int, lucky: bool, slot: int, after: Entry)
    requires Absorbed(before, ad, penalty, now, lucky, slot, after)
    ensures after.service.endpoint == before.service.endpoint
  {
  }

  lemma RefreshedAbsorbs(e: Entry, service: NodeService, penalty: int, now: int, lucky: bool, slot: int)
    requires |e.newRefs| <= MAX_NEW_REFERENCES
    ensures var r := Refreshed(e, service, penalty, now);
      Absorbed(e, service, penalty, now, lucky, slot,
               if TakesReference(r, service, slot, lucky) then r.(newRefs := r.newRefs + {slot}) else r)
  {
    hide Refreshed, Merged;
    RefreshedMerges(e, service, penalty, now);
    var r := Refreshed(e, service, penalty, now);
    assert slot in e.newRefs ==> e.newRefs + {slot} == e.newRefs;
    assert e.newRefs + {} == e.newRefs;
  }

  /** How far an advertisement has to be ahead before the time of an entry is renewed. */
  function RenewalInterval(service: NodeService, now: int): int {
    if now - service.time < DAY then HOUR else DAY
  }

  /**
    When the time of an entry, once refreshed, is not behind the advertisement: it was not behind before, or it was
    renewed without being set back by the penalty.
   */
  predicate NotBehind(e: Entry, service: NodeService, penalty: int, now: int) {
    || e.service.time >= service.time
    || (&& e.service.time < service.time - RenewalInterval(service, now) - penalty
        && (penalty <= 0 || service.time <= TIME_INIT))
  }

  /**
    Exactly when an advertisement adds a slot. An older one passes the time test, and a newer one passes it only if
    it renews the time of the entry and is not penalised: the opposite of skipping older advertisements.
   */
  lemma AddsReference(e: Entry, service: NodeService, penalty: int, now: int, slot: int, lucky: bool)
    ensures var r := Refreshed(e, service, penalty, now);
      && (r.service.time >= service.time <==> NotBehind(e, service, penalty, now))
      && (TakesReference(r, service, slot, lucky) <==>
            && NotBehind(e, service, penalty, now)
            && e.triedRef.None? && |e.newRefs| != MAX_NEW_REFERENCES && lucky && slot !in e.newRefs)
  {
    hide BitOr;
  }

  /** The rule as it is described: an advertisement older than the entry is skipped. */
  predicate Described(e: Entry, service: NodeService, slot: int, lucky: bool) {
    && e.service.time <= service.time
    && e.triedRef.None?
    && |e.newRefs| != MAX_NEW_REFERENCES
    && lucky
    && slot !in e.newRefs
  }

  /**
    The code follows the described rule exactly if the times are equal, if the advertisement is newer and renews the
    time of the entry without a penalty that sets it back, or if no advertisement could add a slot anyway.
   */
  lemma TimeDirection(e: Entry, service: NodeService, penalty: int, now: int, slot: int, lucky: bool)
    ensures (TakesReference(Refreshed(e, service, penalty, now), service, slot, lucky) <==>
               Described(e, service, slot, lucky))
            <==>
            || e.service.time == service.time
            || (&& e.service.time < service.time
                && e.service.time < service.time - RenewalInterval(service, now) - penalty
                && (penalty <= 0 || service.time <= TIME_INIT))
            || e.triedRef.Some? || |e.newRefs| == MAX_NEW_REFERENCES || !lucky || slot in e.newRefs
  {
    hide Refreshed, RenewalInterval, TakesReference;
    AddsReference(e, service, penalty, now, slot, lucky);
  }

  /** An advertisement a day older than the entry adds a slot, and one ten seconds newer does not. */
  lemma TimeDirectionWitness(e: Entry, older: NodeService, newer: NodeService, now: int, slot: int)
    requires older.time == e.service.time - DAY && newer.time == e.service.time + 10 && now == newer.time
    requires e.triedRef.None? && |e.newRefs| < MAX_NEW_REFERENCES && slot !in e.newRefs
    ensures TakesReference(Refreshed(e, older, 0, now), older, slot, true)
    ensures !TakesReference(Refreshed(e, newer, 0, now), newer, slot, true)
  {
    hide BitOr;
    AddsReference(e, older, 0, now, slot, true);
    AddsReference(e, newer, 0, now, slot, true);
  }

  const MAX_DAYS_SINCE_LAST_SEEN := 30
  const NEW_PEER_MAX_RETRIES := 3
  const RECENT_CONNECTION_DAYS := 7
  const MAX_RECONNECTION_FAILURES := 10

  /** `is_bad` */
  predicate IsBad(e: Entry, now: int) {
    if e.lastAttempt > now - 60 then false
    else
      || e.service.time > now + 600
      || e.service.time < now - MAX_DAYS_SINCE_LAST_SEEN * DAY
      || (e.lastSuccess == 0 && e.attempts > NEW_PEER_MAX_RETRIES)
      || (e.lastSuccess < now - RECENT_CONNECTION_DAYS * DAY && e.attempts > MAX_RECONNECTION_FAILURES)
  }

  predicate Eligible(e: Entry, kind: Option<AddressType>, now: int) {
    (kind.Some? ==> e.service.endpoint.address.Type() == kind.value) && !IsBad(e, now)
  }

  /**
    When an entry may be handed out: it is of the type asked for, and it was tried within the last minute or its times
    and failures are acceptable. Times are in seconds: 30 days, 10 minutes ahead, a week.
   */
  predicate Presentable(e: Entry, kind: Option<AddressType>, now: int) {
    && (kind == None || kind == Some(e.service.endpoint.address.Type()))
    && (|| now - e.lastAttempt < 60
        || (&& now - 2_592_000 <= e.service.time <= now + 600
            && (e.lastSuccess != 0 || e.attempts <= 3)
            && (now - e.lastSuccess <= 604_800 || e.attempts <= 10)))
  }

  lemma EligibleIs(e: Entry, kind: Option<AddressType>, now: int)
    ensures Eligible(e, kind, now) <==> Presentable(e, kind, now)
  {
  }

  /** What is listable, entry by entry. */
  lemma ListableIs(entries: Entries, index: map<IPEndpoint, int>, order: seq<int>, kind: Option<AddressType>, now: int)
    requires Indexed(entries, index) && (forall id | id in entries :: id in order)
    ensures forall s :: Listable(entries, index, order, kind, now, s) ==>
      && s.endpoint in index && index[s.endpoint] in entries
      && Presentable(entries[index[s.endpoint]], kind, now) && entries[index[s.endpoint]].service == s
    ensures forall id | id in entries && Presentable(entries[id], kind, now) ::
      Listable(entries, index, order, kind, now, entries[id].service)
  {
    hide Eligible, Presentable;
    forall id | id in entries ensures Eligible(entries[id], kind, now) <==> Presentable(entries[id], kind, now) {
      EligibleIs(entries[id], kind, now);
    }
  }

  /** The services of the eligible entries among `ids`, in that order. */
  function EligibleServices(entries: Entries, ids: seq<int>, kind: Option<AddressType>, now: int): seq<NodeService> {
    if ids == [] then []
    else
      var n := |ids| - 1;
      var before := EligibleServices(entries, ids[..n], kind, now);
      if ids[n] in entries && Eligible(entries[ids[n]], kind, now) then before + [entries[ids[n]].service] else before
  }

  lemma EligibleAppend(entries: Entries, ids: seq<int>, id: int, kind: Option<AddressType>, now: int)
    ensures EligibleServices(entries, ids + [id], kind, now) ==
            EligibleServices(entries, ids, kind, now)
            + if id in entries && Eligible(entries[id], kind, now) then [entries[id].service] else []
  {
    assert (ids + [id])[..|ids|] == ids;
  }

  lemma EligibleNone(entries: Entries, kind: Option<AddressType>, now: int)
    ensures EligibleServices(entries, [], kind, now) == []
  {
  }

  /** Whether `s` is the service of an eligible entry among `ids`. */
  ghost predicate Listable(entries: Entries, index: map<IPEndpoint, int>, ids: seq<int>, kind: Option<AddressType>,
                           now: int, s: NodeService)
  {
    && s.endpoint in index
    && index[s.endpoint] in ids
    && index[s.endpoint] in entries
    && entries[index[s.endpoint]].service == s
    && Eligible(entries[index[s.endpoint]], kind, now)
  }

  /** The listed services are exactly those of the eligible entries. */
  lemma {:induction false} EligibleExactly(entries: Entries, index: map<IPEndpoint, int>, ids: seq<int>,
                                           kind: Option<AddressType>, now: int)
    requires Indexed(entries, index)
    ensures forall s :: s in EligibleServices(entries, ids, kind, now) <==> Listable(entries, index, ids, kind, now, s)
    decreases |ids|
  {
    hide Eligible;
    if ids != [] {
      var n := |ids| - 1;
      EligibleExactly(entries, index, ids[..n], kind, now);
      assert ids == ids[..n] + [ids[n]];
      var before := EligibleServices(entries, ids[..n], kind, now);
      EligibleAppend(entries, ids[..n], ids[n], kind, now);
      forall s
        ensures s in EligibleServices(entries, ids, kind, now) <==> Listable(entries, index, ids, kind, now, s)
      {
        assert s in before <==> Listable(entries, index, ids[..n], kind, now, s);
        assert s.endpoint in index ==>
               (index[s.endpoint] in ids <==> index[s.endpoint] in ids[..n] || index[s.endpoint] == ids[n]);
      }
    }
  }

  /** The next eligible entry does not repeat an endpoint already listed. */
  lemma EligibleIsNew(entries: Entries, index: map<IPEndpoint, int>, ids: seq<int>, id: int,
                      kind: Option<AddressType>, now: int)
    requires Indexed(entries, index) && id in entries && id !in ids
    ensures forall s | s in EligibleServices(entries, ids, kind, now) :: s.endpoint != entries[id].service.endpoint
  {
    EligibleExactly(entries, index, ids, kind, now);
  }

  /** Distinct entries have distinct endpoints, so the list repeats none. */
  lemma {:induction false} EligibleDistinct(entries: Entries, index: map<IPEndpoint, int>, ids: seq<int>,
                                            kind: Option<AddressType>, now: int)
    requires Indexed(entries, index)
    requires forall i, j | 0 <= i < j < |ids| :: ids[i] != ids[j]
    ensures var r := EligibleServices(entries, ids, kind, now);
      forall i, j | 0 <= i < j < |r| :: r[i].endpoint != r[j].endpoint
    decreases |ids|
  {
    hide Eligible;
    if ids != [] {
      var n := |ids| - 1;
      EligibleDistinct(entries, index, ids[..n], kind, now);
      if ids[n] in entries {
        EligibleIsNew(entries, index, ids[..n], ids[n], kind, now);
      }
      var before := EligibleServices(entries, ids[..n], kind, now);
      var r := EligibleServices(entries, ids, kind, now);
      EligibleAppend(entries, ids[..n], ids[n], kind, now);
      assert ids[..n] + [ids[n]] == ids;
      forall i, j | 0 <= i < j < |r|
        ensures r[i].endpoint != r[j].endpoint
      {
        assert r[i] == before[i] && before[i] in before;
        if j < |before| {
          assert r[j] == before[j];
        }
      }
    }
  }

  /** What a prefix of the random order lists is listable from the whole, and the whole order lists all of it. */
  lemma EligibleWithin(entries: Entries, index: map<IPEndpoint, int>, order: seq<int>, n: int,
                       kind: Option<AddressType>, now: int)
    requires Indexed(entries, index) && 0 <= n <= |order|
    ensures forall s | s in EligibleServices(entries, order[..n], kind, now) ::
            Listable(entries, index, order, kind, now, s)
    ensures forall s | Listable(entries, index, order, kind, now, s) :: s in EligibleServices(entries, order, kind, now)
  {
    EligibleExactly(entries, index, order[..n], kind, now);
    EligibleExactly(entries, index, order, kind, now);
  }

  lemma OrderedAll(positions: map<int, int>, order: seq<int>)
    requires Ordered(positions, order)
    ensures forall id | id in positions :: id in order
  {
  }

  lemma OrderedDistinct(positions: map<int, int>, order: seq<int>)
    requires Ordered(positions, order)
    ensures forall i, j | 0 <= i < j < |order| :: order[i] != order[j]
  {
  }

  /** How `set_good`, `set_failed` and `set_tried` amend an entry; the attempts counter is 32 bits wide. */
  function GoodEntry(e: Entry, agent: Bytes, services: U64, time: int): Entry {
    e.(userAgent := agent, service := e.service.(services := services, time := time),
       lastAttempt := time, lastSuccess := time, attempts := 0)
  }

  function FailedEntry(e: Entry, time: int): Entry {
    e.(lastAttempt := time, attempts := (e.attempts + 1) % 0x1_0000_0000)
  }

  function TriedEntry(e: Entry, time: int): Entry {
    e.(lastAttempt := time)
  }
}
