/**
  The address book (src/infra/network/addressbook.cpp) as a class over its five redundant
  tables. Every ASSERT of the original is an `assert` of the method that models it; every
  random draw and every clock reading is a parameter.
 */
module AddressBook {
  import opened Common
  import opened Addresses
  import opened BookTables
  import opened Capacity
  import opened Selection

  class Book {
    const place: Placement

    var lastId: int
    var newCount: int
    var triedCount: int
    var order: seq<int>
    var positions: map<int, int>  // `random_pos_` of every entry
    var newBuckets: map<int, int>
    var triedBuckets: map<int, int>
    var entries: Entries
    var ids: map<IPEndpoint, int>
    var recent: seq<IPEndpoint>  // `recently_selected_`, most recent first

    ghost function State(): Tables
      reads this
    {
      Tables(entries, newBuckets, triedBuckets, newCount, triedCount)
    }

    /** All tables agree, except that the entries of `limbo` are in no bucket. */
    ghost predicate Consistent(limbo: set<int>)
      reads this
    {
      && Indexed(entries, ids)
      && positions.Keys == entries.Keys
      && Ordered(positions, order)
      && Placed(State(), place.triedSlot, limbo)
      && Bounded(entries, newBuckets, triedBuckets, lastId, place.routable)
    }

    ghost predicate Valid()
      reads this
    {
      Consistent({})
    }

    constructor (place: Placement)
      ensures Valid()
      ensures this.place == place && lastId == 1 && order == [] && recent == []
      ensures entries == map[] && ids == map[] && newBuckets == map[] && triedBuckets == map[]
    {
      this.place := place;
      lastId, newCount, triedCount := 1, 0, 0;
      order, positions, newBuckets, triedBuckets, entries, ids := [], map[], map[], map[], map[], map[];
      recent := [];
    }

    /** `swap_randomly_ordered_ids` */
    method SwapOrder(i: int, j: int)
      requires Ordered(positions, order)
      requires 0 <= i < |order| && 0 <= j < |order|
      modifies this`order, this`positions
      ensures Ordered(positions, order) && positions.Keys == old(positions).Keys
      ensures |order| == |old(order)|
      ensures order == old(order)[i := old(order)[j]][j := old(order)[i]]
    {
      if i == j { return; }
      var idAtI, idAtJ := order[i], order[j];
      assert idAtI in positions && idAtJ in positions;
      positions := positions[idAtI := j][idAtJ := i];
      order := order[i := idAtJ][j := idAtI];
    }

    /** `erase_new_entry`: the entry moves to the end of the random order and is dropped. */
    method EraseNewEntry(id: int)
      requires id in entries && Indexed(entries, ids)
      requires positions.Keys == entries.Keys && Ordered(positions, order)
      requires entries[id].newRefs == {} && entries[id].triedRef == None && id != 0
      modifies this`order, this`positions, this`entries, this`ids, this`newCount
      ensures Indexed(entries, ids)
      ensures positions.Keys == entries.Keys && Ordered(positions, order)
      ensures entries == old(entries) - {id}
      ensures newCount == old(newCount) - 1
    {
      assert id in positions;
      SwapOrder(positions[id], |order| - 1);
      assert order[|order| - 1] == id;
      var ep := entries[id].service.endpoint;
      order := order[..|order| - 1];
      positions := positions - {id};
      newCount := newCount - 1;
      entries := entries - {id};
      ids := ids - {ep};
    }

    /** `clear_new_slot` with `erase_unreferenced_entry` set, as every caller sets it. */
    method ClearNewSlot(slot: int, ghost limbo: set<int>)
      requires Consistent(limbo) && InGrid(slot, NEW_BUCKETS)
      modifies this`order, this`positions, this`entries, this`ids, this`newCount, this`newBuckets
      ensures Consistent(limbo)
      ensures newBuckets == old(newBuckets) - {slot}
      ensures entries == Cleared(old(entries), old(newBuckets), slot)
    {
      hide Placed, Bounded, Indexed, Ordered, Cleared;
      if slot !in newBuckets {
        NothingCleared(entries, newBuckets, slot);
        return;
      }
      ghost var before := State();
      var id := newBuckets[slot];
      NewOccupant(before, place.triedSlot, limbo, slot);
      IdPositive(entries, newBuckets, triedBuckets, lastId, place.routable, id);
      BoundedCleared(entries, newBuckets, triedBuckets, lastId, place.routable, slot);
      ClearedCases(entries, newBuckets, slot);
      IndexedSame(entries, WithoutReference(entries, id, slot), ids);
      entries := WithoutReference(entries, id, slot);
      if entries[id].newRefs == {} && entries[id].triedRef.None? {
        assert before.entries[id].newRefs == {slot};
        DropEntry(before, place.triedSlot, limbo, slot);
        EraseNewEntry(id);
        assert entries == before.entries - {id};
      } else {
        DropReference(before, place.triedSlot, limbo, slot);
      }
      newBuckets := newBuckets - {slot};
    }

    /** The common tail of every new placement: an entry takes a free new slot. */
    method TakeNewSlot(id: int, slot: int, ghost limbo: set<int>)
      requires Consistent(limbo) && InGrid(slot, NEW_BUCKETS)
      requires id in entries && slot !in newBuckets
      requires entries[id].triedRef == None && |entries[id].newRefs| < MAX_NEW_REFERENCES
      modifies this`entries, this`newCount, this`newBuckets
      ensures Consistent(limbo - {id})
      ensures entries == WithReference(old(entries), id, slot)
      ensures newBuckets == old(newBuckets)[slot := id]
    {
      hide Placed, Bounded, Indexed, Ordered;
      EntryPlace(State(), place.triedSlot, limbo, id);
      AddReference(State(), place.triedSlot, limbo, id, slot);
      var after := WithReference(entries, id, slot);
      IndexedSame(entries, after, ids);
      BoundedEntries(entries, after, newBuckets, triedBuckets, lastId, place.routable);
      BoundedTake(after, newBuckets, triedBuckets, lastId, place.routable, id, slot);
      assert slot !in entries[id].newRefs && slot !in newBuckets;
      newCount := newCount + if entries[id].newRefs == {} then 1 else 0;
      entries := after;
      newBuckets := newBuckets[slot := id];
    }

    /** `insert_entry`: the caller has checked that the endpoint is unknown. */
    method InsertEntry(service: NodeService, source: IPAddress, penalty: int) returns (id: int)
      requires Valid()
      requires service.endpoint !in ids
      requires place.routable(service.endpoint.address) && place.routable(source)
      modifies this`lastId, this`order, this`positions, this`entries, this`ids, this`newCount, this`newBuckets
      ensures Valid()
      ensures id == old(lastId) && lastId == old(lastId) + 1
      ensures var slot := place.newSlot(service.endpoint, source);
              && newBuckets == old(newBuckets)[slot := id]
              && entries ==
                 Cleared(old(entries), old(newBuckets), slot)[
                   id := Fresh(service, source, service.time - penalty, slot)]
    {
      hide Placed, Bounded, Indexed, Ordered;
      var slot := place.newSlot(service.endpoint, source);
      ClearedKeeps(entries, newBuckets, slot);
      ClearNewSlot(slot, {});
      IndexShrinks(old(entries), old(ids), entries, ids);
      id := Enter(Fresh(service, source, service.time - penalty, slot), slot);
    }

    /** The tail of `insert_entry`: a fresh entry takes the next id and a free new slot. */
    method Enter(info: Entry, slot: int) returns (id: int)
      requires Valid() && InGrid(slot, NEW_BUCKETS)
      requires info.service.endpoint !in ids && slot !in newBuckets
      requires info.newRefs == {slot} && info.triedRef == None
      requires place.routable(info.service.endpoint.address) && place.routable(info.origin)
      modifies this`lastId, this`order, this`positions, this`entries, this`ids, this`newCount, this`newBuckets
      ensures Valid()
      ensures id == old(lastId) && lastId == old(lastId) + 1
      ensures entries == old(entries)[id := info]
      ensures newBuckets == old(newBuckets)[slot := id]
    {
      hide Placed, Bounded, Indexed, Ordered;
      id := lastId;
      BoundedNewEntry(entries, newBuckets, triedBuckets, lastId, place.routable, info);
      BoundedTake(entries[id := info], newBuckets, triedBuckets, lastId + 1, place.routable, id, slot);
      AddEntry(State(), place.triedSlot, {}, id, info, slot);
      IndexedAdd(entries, ids, id, info);
      OrderedAppend(positions, order, id);
      lastId := lastId + 1;
      newBuckets := newBuckets[slot := id];
      positions := positions[id := |order|];
      order := order + [id];
      entries := entries[id := info];
      ids := ids[info.service.endpoint := id];
      newCount := newCount + 1;
    }

    /** The first loop of `make_entry_tried`: an entry gives up all its new slots. */
    method ReleaseReferences(id: int)
      requires id in entries
      modifies this`entries, this`newCount, this`newBuckets
      ensures entries == WithoutReferences(old(entries), id)
      ensures newBuckets == old(newBuckets) - old(entries)[id].newRefs
      ensures newCount == old(newCount) - if old(entries)[id].newRefs == {} then 0 else 1
    {
      var refs := entries[id].newRefs;
      newCount := newCount - if refs == {} then 0 else 1;
      ghost var all := refs;
      while refs != {}
        invariant refs <= all
        invariant newCount == old(newCount) - if all == {} then 0 else 1
        invariant newBuckets == old(newBuckets) - (all - refs)
        invariant entries == old(entries)[id := old(entries)[id].(newRefs := refs)]
        decreases |refs|
      {
        NonEmpty(refs);
        var s :| s in refs;
        newBuckets := newBuckets - {s};
        refs := refs - {s};
        entries := entries[id := entries[id].(newRefs := refs)];
      }
    }

    /** An entry that is not tried leaves the new buckets and is in none. */
    method LeaveNewBuckets(id: int)
      requires Valid() && id in entries && entries[id].triedRef == None
      modifies this`entries, this`newCount, this`newBuckets
      ensures Consistent({id})
      ensures entries == WithoutReferences(old(entries), id)
      ensures newBuckets == old(newBuckets) - old(entries)[id].newRefs
    {
      hide Placed, Bounded, Indexed, Ordered;
      EntryPlace(State(), place.triedSlot, {}, id);
      assert {} + {id} == {id};
      LeaveNew(State(), place.triedSlot, {}, id);
      IndexedSame(entries, WithoutReferences(entries, id), ids);
      BoundedEntries(entries, WithoutReferences(entries, id), newBuckets, triedBuckets, lastId, place.routable);
      BoundedRelease(WithoutReferences(entries, id), newBuckets, triedBuckets, lastId, place.routable,
                     entries[id].newRefs);
      ReleaseReferences(id);
    }

    /** The occupant of a tried slot leaves it, while `promoted` is in no bucket. */
    method LeaveTriedSlot(slot: int, promoted: int) returns (evicted: int)
      requires Consistent({promoted}) && slot in triedBuckets
      modifies this`entries, this`triedCount, this`triedBuckets
      ensures evicted == old(triedBuckets)[slot] && evicted in old(entries) && promoted in entries
              && evicted != promoted
      ensures Consistent({promoted, evicted})
      ensures old(entries)[evicted].newRefs == {}
      ensures entries == WithTried(old(entries), evicted, None)
      ensures triedBuckets == old(triedBuckets) - {slot}
    {
      hide Placed, Bounded, Indexed, Ordered;
      evicted := triedBuckets[slot];
      TriedOccupant(State(), place.triedSlot, {promoted}, slot);
      LimboEntry(State(), place.triedSlot, {promoted}, promoted);
      assert evicted in entries;
      assert entries[evicted].triedRef == Some(slot);
      assert entries[evicted].newRefs == {};
      assert {promoted} + {evicted} == {promoted, evicted};
      LeaveTried(State(), place.triedSlot, {promoted}, slot);
      var after := WithTried(entries, evicted, None);
      IndexedSame(entries, after, ids);
      BoundedEntries(entries, after, newBuckets, triedBuckets, lastId, place.routable);
      BoundedRelease(after, newBuckets, triedBuckets, lastId, place.routable, {slot});
      entries := after;
      triedBuckets := triedBuckets - {slot};
      triedCount := triedCount - 1;
    }

    /** The eviction branch of `make_entry_tried`: the occupant goes back to a new slot. */
    method EvictToNew(slot: int, promoted: int)
      requires Consistent({promoted}) && slot in triedBuckets
      modifies this`order, this`positions, this`entries, this`ids, this`newCount, this`triedCount, this`newBuckets,
               this`triedBuckets
      ensures Consistent({promoted})
      ensures triedBuckets == old(triedBuckets) - {slot}
      ensures var evicted := old(triedBuckets)[slot];
              evicted in old(entries) &&
              var back := place.newSlot(old(entries)[evicted].service.endpoint, old(entries)[evicted].origin);
              && newBuckets == old(newBuckets)[back := evicted]
              && entries == Demoted(old(entries), old(newBuckets), evicted, back)
    {
      hide Placed, Bounded, Indexed, Ordered;
      var evicted := LeaveTriedSlot(slot, promoted);
      IdPositive(entries, newBuckets, triedBuckets, lastId, place.routable, evicted);
      assert place.routable(entries[evicted].service.endpoint.address) && place.routable(entries[evicted].origin);
      var back := place.newSlot(entries[evicted].service.endpoint, entries[evicted].origin);
      ghost var limbo := {promoted, evicted};
      ClearNewSlot(back, limbo);
      LimboEntry(State(), place.triedSlot, limbo, evicted);
      TakeNewSlot(evicted, back, limbo);
      assert limbo - {evicted} == {promoted};
    }

    /** An entry that is in no bucket takes its own tried slot. */
    method TakeTriedSlot(id: int, slot: int)
      requires Consistent({id}) && id in entries
      requires slot == place.triedSlot(entries[id].service.endpoint) && slot !in triedBuckets
      modifies this`entries, this`triedCount, this`triedBuckets
      ensures Valid()
      ensures entries == WithTried(old(entries), id, Some(slot))
      ensures triedBuckets == old(triedBuckets)[slot := id]
    {
      hide Placed, Bounded, Indexed, Ordered;
      assert {id} - {id} == {};
      EnterTried(State(), place.triedSlot, {id}, id, slot);
      var after := WithTried(entries, id, Some(slot));
      IndexedSame(entries, after, ids);
      BoundedEntries(entries, after, newBuckets, triedBuckets, lastId, place.routable);
      BoundedTake(after, newBuckets, triedBuckets, lastId, place.routable, id, slot);
      triedBuckets := triedBuckets[slot := id];
      entries := after;
      triedCount := triedCount + 1;
    }

    /** `make_entry_tried` */
    method MakeEntryTried(id: int)
      requires Valid() && id in entries
      modifies this`order, this`positions, this`entries, this`ids, this`newCount, this`triedCount, this`newBuckets,
               this`triedBuckets
      ensures Valid()
      ensures old(entries)[id].triedRef.Some? ==> State() == old(State())
      ensures old(entries)[id].triedRef.None? ==>
                (entries, newBuckets, triedBuckets) == Promoted(old(State()), place, id)
    {
      hide Placed, Bounded, Indexed, Ordered;
      if entries[id].triedRef.Some? { return; }
      LeaveNewBuckets(id);
      IdPositive(entries, newBuckets, triedBuckets, lastId, place.routable, id);
      assert place.routable(entries[id].service.endpoint.address);
      var slot := place.triedSlot(entries[id].service.endpoint);
      if slot in triedBuckets {
        TriedOccupant(State(), place.triedSlot, {id}, slot);
        EvictToNew(slot, id);
        LimboEntry(State(), place.triedSlot, {id}, id);
      }
      assert slot !in triedBuckets;
      TakeTriedSlot(id, slot);
      assert triedBuckets == old(triedBuckets)[slot := id];
    }

    /** Updating the times, services, agent or attempts of an entry in place. */
    method Amend(id: int, e: Entry)
      requires Valid() && id in entries && SamePlace(entries[id], e)
      modifies this`entries
      ensures Valid()
      ensures entries == old(entries)[id := e]
    {
      hide Placed, Bounded, Indexed, Ordered;
      AmendEntry(State(), place.triedSlot, {}, id, e);
      IndexedSame(entries, entries[id := e], ids);
      BoundedEntries(entries, entries[id := e], newBuckets, triedBuckets, lastId, place.routable);
      entries := entries[id := e];
    }

    /** The present tables are `before` with entry `id` refreshed and, if it may take one, given one more new slot. */
    ghost predicate Updates(before: Tables, id: int, service: NodeService, source: IPAddress, penalty: int, now: int,
                            lucky: bool)
      requires id in before.entries
      reads this
    {
      var e := Refreshed(before.entries[id], service, penalty, now);
      var refreshed := before.entries[id := e];
      var slot := place.newSlot(e.service.endpoint, source);
      if TakesReference(e, service, slot, lucky) then
        && newBuckets == before.newBuckets[slot := id]
        && id in Cleared(refreshed, before.newBuckets, slot)
        && entries == WithReference(Cleared(refreshed, before.newBuckets, slot), id, slot)
      else
        newBuckets == before.newBuckets && entries == refreshed
    }

    /** Where an entry goes for a source. */
    ghost function SlotFor(id: int, source: IPAddress): int
      requires id in entries
      reads this
    {
      place.newSlot(entries[id].service.endpoint, source)
    }

    /** `update_entry`: `lucky` says whether the stochastic test drew zero. */
    method UpdateEntry(id: int, service: NodeService, source: IPAddress, penalty: int, now: int, lucky: bool)
      requires Valid() && id in entries && place.routable(source)
      modifies this`order, this`positions, this`entries, this`ids, this`newCount, this`newBuckets
      ensures Valid()
      ensures id in entries
      ensures Absorbed(old(entries)[id], service, penalty, now, lucky, SlotFor(id, source), entries[id])
      ensures Updates(old(State()), id, service, source, penalty, now, lucky)
    {
      hide Placed, Bounded, Indexed, Ordered, Refreshed, Cleared, Absorbed;
      RefreshedStays(entries[id], service, penalty, now);
      EntryPlace(State(), place.triedSlot, {}, id);
      RefreshedAbsorbs(entries[id], service, penalty, now, lucky, SlotFor(id, source));
      var e := Refreshed(entries[id], service, penalty, now);
      Amend(id, e);
      EntryPlace(State(), place.triedSlot, {}, id);
      assert (e.newRefs != {}) != e.triedRef.Some?;
      if e.service.time < service.time || e.triedRef.Some? || |e.newRefs| == MAX_NEW_REFERENCES { return; }
      if !lucky { return; }
      IdPositive(entries, newBuckets, triedBuckets, lastId, place.routable, id);
      assert place.routable(e.service.endpoint.address) && place.routable(source);
      var slot := place.newSlot(e.service.endpoint, source);
      if slot in e.newRefs {
        assert slot in newBuckets;
        return;
      }
      if slot in newBuckets {
        NewOccupant(State(), place.triedSlot, {}, slot);
        assert newBuckets[slot] != id;
        ClearedOther(entries, newBuckets, slot, id);
        ClearNewSlot(slot, {});
      } else {
        ClearedOther(entries, newBuckets, slot, id);
      }
      assert {} - {id} == {};
      TakeNewSlot(id, slot, {});
    }

    /** What advertisements change: entries, new slots and the next id. */
    ghost function Stock(): Shelf
      reads this
    {
      Shelf(entries, newBuckets, lastId)
    }

    /** `insert_or_update_impl` for one service, under the public lock. */
    method InsertOrUpdate(service: NodeService, source: IPAddress, penalty: int, now: int, lucky: bool)
      returns (inserted: bool)
      requires Valid()
      requires place.routable(service.endpoint.address) && place.routable(source)
      modifies this`lastId, this`order, this`positions, this`entries, this`ids, this`newCount, this`newBuckets
      ensures Valid()
      ensures inserted <==> service.endpoint !in old(ids)
      ensures service.endpoint in ids
      ensures inserted ==>
                var slot := place.newSlot(service.endpoint, source);
                var dated := Max(100_000_000, service.time - if source == service.endpoint.address then 0 else penalty);
                && lastId == old(lastId) + 1
                && newBuckets == old(newBuckets)[slot := old(lastId)]
                && entries ==
                   Cleared(old(entries), old(newBuckets), slot)[old(lastId) := Fresh(service, source, dated, slot)]
                && entries[old(lastId)] ==
                   Entry(NodeService(dated, service.services, service.endpoint), [], source, 0, 0, 0, None, {slot})
      ensures !inserted ==> lastId == old(lastId) && ids[service.endpoint] == old(ids)[service.endpoint]
      ensures !inserted ==>
                && old(ids)[service.endpoint] in old(State()).entries
                && Updates(old(State()), old(ids)[service.endpoint], service, source,
                           if source == service.endpoint.address then 0 else penalty, now, lucky)
      ensures !inserted ==>
                var id := old(ids)[service.endpoint];
                && id in old(entries) && id in entries
                && Absorbed(old(entries)[id], service, if source == service.endpoint.address then 0 else penalty,
                            now, lucky, place.newSlot(service.endpoint, source), entries[id])
      ensures Stock() == Offered(old(Stock()), place, service, source, penalty, now, lucky)
    {
      hide Placed, Bounded, Ordered, Cleared, Refreshed, TakesReference, Absorbed;
      var charged := if source == service.endpoint.address then 0 else penalty;
      KnownIs(entries, ids, service.endpoint);
      if service.endpoint in ids {
        ghost var id := ids[service.endpoint];
        RefreshedStays(entries[id], service, charged, now);
        UpdateEntry(ids[service.endpoint], service, source, charged, now, lucky);
        AbsorbedEndpoint(old(entries)[id], service, charged, now, lucky, SlotFor(id, source), entries[id]);
        inserted := false;
      } else {
        var id := InsertEntry(service, source, charged);
        Amend(id, entries[id].(service := entries[id].service.(time := Max(TIME_INIT, service.time - charged))));
        assert entries[id].service.endpoint == service.endpoint;
        inserted := true;
      }
    }

    /**
      `insert_or_update` for a vector: every service with the network bit and an endpoint not seen earlier in the vector
      is redated and offered in turn; the others, and those that add no entry, are removed from the vector. `picks`
      are the indices of those that stay.
     */
    method InsertMany(batch: Batch) returns (kept: seq<NodeService>, any: bool, ghost picks: seq<int>)
      requires Valid() && place.routable(batch.source)
      requires forall s | s in batch.services && HasNetwork(s) :: place.routable(s.endpoint.address)
      modifies this`lastId, this`order, this`positions, this`entries, this`ids, this`newCount, this`newBuckets
      ensures Valid()
      ensures Stock() == Offers(old(Stock()), place, batch, |batch.services|)
      ensures Chosen(old(Stock()), place, batch, picks, |batch.services|)
      ensures |kept| == |picks| && forall k | 0 <= k < |picks| :: kept[k] == Dated(batch.services[picks[k]], batch.now)
      ensures any <==> kept != []
      ensures lastId == old(lastId) + |kept|
      ensures forall k | 0 <= k < |picks| ::
        var s := batch.services[picks[k]];
        && s.services % 2 == 1 && kept[k].services == s.services && kept[k].endpoint == s.endpoint
        && kept[k].time == if 100_000_000 <= s.time <= batch.now + 600 then s.time else batch.now - 432_000
      ensures forall j, k | 0 <= j < k < |picks| :: picks[j] < picks[k] && kept[j].endpoint != kept[k].endpoint
    {
      hide Placed, Bounded, Indexed, Ordered, Cleared, Offered, Offers, Known, Chosen, Uniques, IsOffered;
      var services := batch.services;
      kept, picks := [], [];
      var unique := {};
      var i := 0;
      ghost var start := Stock();
      NothingOffered(start, place, batch);
      while i < |services|
        invariant 0 <= i <= |services|
        invariant Valid()
        invariant Stock() == Offers(start, place, batch, i)
        invariant Uniques(unique, services, i)
        invariant Chosen(start, place, batch, picks, i)
        invariant |kept| == |picks| && forall k | 0 <= k < |picks| ::
                  0 <= picks[k] < i && kept[k] == Dated(services[picks[k]], batch.now)
        invariant lastId == old(lastId) + |kept|
      {
        var service := services[i];
        KnownHere(entries, ids, service.endpoint);
        UniquesOffered(unique, services, i);
        NextOffered(start, place, batch, i);
        NextChosen(start, place, batch, picks, i);
        if HasNetwork(service) && service.endpoint !in unique {
          unique := unique + {service.endpoint};
          var dated := Dated(service, batch.now);
          var inserted := InsertOrUpdate(dated, batch.source, batch.penalty, batch.clock(i), batch.lucky(i));
          if inserted {
            kept, picks := kept + [dated], picks + [i];
          }
        }
        i := i + 1;
      }
      any := kept != [];
      PicksDiffer(start, place, batch, picks);
      forall k | 0 <= k < |picks| ensures batch.services[picks[k]].services % 2 == 1 {
        assert HasNetwork(batch.services[picks[k]]);
      }
    }

    /** `set_good`: a successful connection to a known endpoint. */
    method SetGood(remote: IPEndpoint, agent: Bytes, services: U64, time: int) returns (known: bool)
      requires Valid()
      modifies this`order, this`positions, this`entries, this`ids, this`newCount, this`triedCount, this`newBuckets,
               this`triedBuckets
      ensures Valid()
      ensures known <==> remote in old(ids)
      ensures !known ==> State() == old(State())
      ensures known ==> Promotes(old(State()), old(ids)[remote],
                                 GoodEntry(old(entries)[old(ids)[remote]], agent, services, time))
      ensures known ==>
        && old(ids)[remote] in old(entries) && old(ids)[remote] in entries
        && var e, home := old(entries)[old(ids)[remote]], Some(place.triedSlot(remote));
        && entries[old(ids)[remote]] ==
           Entry(NodeService(time, services, remote), agent, e.origin, time, time, 0, home, {})
    {
      hide Placed, Bounded, Ordered, Promoted;
      known := remote in ids;
      if !known { return; }
      var id := ids[remote];
      EntryPlace(State(), place.triedSlot, {}, id);
      Amend(id, GoodEntry(entries[id], agent, services, time));
      if entries[id].triedRef.None? {
        PromotedSelf(State(), place, id);
        MakeEntryTried(id);
      }
    }

    /** `set_failed`: a failed attempt on a known endpoint. */
    method SetFailed(remote: IPEndpoint, time: int) returns (known: bool)
      requires Valid()
      modifies this`order, this`positions, this`entries, this`ids, this`newCount, this`triedCount, this`newBuckets,
               this`triedBuckets
      ensures Valid()
      ensures known <==> remote in old(ids)
      ensures !known ==> State() == old(State())
      ensures known ==> Promotes(old(State()), old(ids)[remote], FailedEntry(old(entries)[old(ids)[remote]], time))
      ensures known ==>
        && old(ids)[remote] in old(entries) && old(ids)[remote] in entries
        && var e, home := old(entries)[old(ids)[remote]], Some(place.triedSlot(remote));
        && entries[old(ids)[remote]] ==
           Entry(e.service, e.userAgent, e.origin, time, e.lastSuccess, (e.attempts + 1) % 0x1_0000_0000, home, {})
    {
      hide Placed, Bounded, Ordered, Promoted;
      known := remote in ids;
      if !known { return; }
      var id := ids[remote];
      EntryPlace(State(), place.triedSlot, {}, id);
      Amend(id, FailedEntry(entries[id], time));
      if entries[id].triedRef.None? {
        PromotedSelf(State(), place, id);
        MakeEntryTried(id);
      }
    }

    /** `set_tried`: an attempt on a known endpoint. */
    method SetTried(remote: IPEndpoint, time: int) returns (known: bool)
      requires Valid()
      modifies this`order, this`positions, this`entries, this`ids, this`newCount, this`triedCount, this`newBuckets,
               this`triedBuckets
      ensures Valid()
      ensures known <==> remote in old(ids)
      ensures !known ==> State() == old(State())
      ensures known ==> Promotes(old(State()), old(ids)[remote], TriedEntry(old(entries)[old(ids)[remote]], time))
      ensures known ==>
        && old(ids)[remote] in old(entries) && old(ids)[remote] in entries
        && var e, home := old(entries)[old(ids)[remote]], Some(place.triedSlot(remote));
        && entries[old(ids)[remote]] ==
           Entry(e.service, e.userAgent, e.origin, time, e.lastSuccess, e.attempts, home, {})
    {
      hide Placed, Bounded, Ordered, Promoted;
      known := remote in ids;
      if !known { return; }
      var id := ids[remote];
      EntryPlace(State(), place.triedSlot, {}, id);
      Amend(id, TriedEntry(entries[id], time));
      if entries[id].triedRef.None? {
        PromotedSelf(State(), place, id);
        MakeEntryTried(id);
      }
    }

    /** The present tables are `before` with entry `id` amended and, unless it was tried already, promoted. */
    ghost predicate Promotes(before: Tables, id: int, amended: Entry)
      requires id in before.entries
      reads this
    {
      if amended.triedRef.Some? then
        (entries, newBuckets, triedBuckets) == (before.entries[id := amended], before.newBuckets, before.triedBuckets)
      else
        (entries, newBuckets, triedBuckets) == Promoted(before.(entries := before.entries[id := amended]), place, id)
    }

    /** `get_random_services`: the eligible entries of a shuffled prefix of the random order, up to the cap. */
    method GetRandomServices(maxCount: nat, maxPercentage: nat, kind: Option<AddressType>, now: int)
      returns (ret: seq<NodeService>)
      requires Valid()
      modifies this`order, this`positions
      ensures Valid()
      ensures Within(|ret|, maxCount, maxPercentage, |entries|)
      ensures forall s | s in ret ::
        && s.endpoint in ids && ids[s.endpoint] in entries
        && entries[ids[s.endpoint]].service == s && Presentable(entries[ids[s.endpoint]], kind, now)
      ensures forall i, j | 0 <= i < j < |ret| :: ret[i].endpoint != ret[j].endpoint
      ensures Within(|ret| + 1, maxCount, maxPercentage, |entries|) ==>
                forall id | id in entries && Presentable(entries[id], kind, now) :: entries[id].service in ret
    {
      hide Placed, Bounded, Indexed, Ordered, Eligible, EligibleServices, Listable, Presentable;
      ret := [];
      OrderedSize(positions, order);
      if order == [] { return; }
      var count := |order|;
      if maxPercentage > 0 { count := count * maxPercentage / 100; }
      if maxCount > 0 { count := Min(count, maxCount); }
      WithinIs(maxCount, maxPercentage, |order|, count);
      ghost var used;
      ret, used := DrawServices(count, kind, now);
      Drafted(entries, ids, positions, order, used, kind, now);
    }

    /** The loop of `get_random_services`: the draws are the choices of `j`; `used` positions were visited. */
    method DrawServices(count: nat, kind: Option<AddressType>, now: int)
      returns (ret: seq<NodeService>, ghost used: nat)
      requires Valid()
      modifies this`order, this`positions
      ensures Valid()
      ensures |order| == |old(order)|
      ensures used <= |order| && ret == EligibleServices(entries, order[..used], kind, now)
      ensures |ret| <= count && (|ret| == count || used == |order|)
    {
      hide Placed, Bounded, Indexed, Ordered, Eligible, EligibleServices;
      EligibleNone(entries, kind, now);
      ret := [];
      var selected := {};
      var i := 0;
      while |ret| < count && i < |order|
        invariant 0 <= i <= |order| == |old(order)|
        invariant Valid()
        invariant |ret| <= count
        invariant ret == EligibleServices(entries, order[..i], kind, now)
        invariant selected == set s | s in ret :: s.endpoint
      {
        var j :| i <= j < |order|;
        ghost var prefix := order[..i];
        SwapOrder(i, j);
        assert order[..i] == prefix;
        var id := order[i];
        OrderedAt(positions, order, i);
        assert id in entries;
        assert order[..i + 1] == prefix + [id];
        EligibleAppend(entries, prefix, id, kind, now);
        i := i + 1;
        if Eligible(entries[id], kind, now) {
          EligibleIsNew(entries, ids, prefix, id, kind, now);
          assert entries[id].service.endpoint !in selected;
          selected := selected + {entries[id].service.endpoint};
          ret := ret + [entries[id].service];
        }
      }
      used := i;
    }

    /** What `select_random` draws from: new or tried, whichever has entries, and if both have, as the coin says. */
    ghost function Pool(newOnly: bool, kind: Option<AddressType>, coin: bool, accept: int -> bool, draw: int -> nat)
      : Lottery
      reads this
    {
      var tried := !newOnly && triedBuckets != map[] && (newBuckets == map[] || coin);
      Lottery(entries, if tried then triedBuckets else newBuckets, kind, accept, draw, recent)
    }

    /**
      `select_random`: `coin` chooses between new and tried, `draw` gives the random number of each attempt and `accept`
      the outcome of its chance test. The first of 50,000 attempts that wins is selected; what is remembered afterwards
      is the latest of the endpoints that suited.
     */
    method SelectRandom(newOnly: bool, kind: Option<AddressType>, coin: bool, accept: int -> bool, draw: int -> nat)
      returns (found: Option<IPEndpoint>, time: int, ghost winner: nat)
      requires Valid()
      modifies this`recent
      ensures var l := old(Pool(newOnly, kind, coin, accept, draw));
        && winner <= 50_000 && (forall a | 0 <= a < winner :: !l.Wins(a))
        && (winner < 50_000 ==>
              l.Wins(winner) && found == Some(l.Candidate(winner).value.endpoint)
                && time == l.Candidate(winner).value.time)
        && (winner == 50_000 ==> found == None && time == 0)
        && (NoRepeats(old(recent)) && |old(recent)| <= 64 ==>
              recent == Latest(l.Seen(Min(winner + 1, 50_000)) + old(recent)))
      ensures found.Some? ==>
        && found.value in ids && ids[found.value] in entries
        && time == entries[ids[found.value]].service.time
        && (kind.Some? ==> found.value.address.Type() == kind.value)
        && (newOnly ==> entries[ids[found.value]].newRefs != {})
      ensures entries != map[] && (newOnly ==> newCount > 0) && kind.None? && accept(0) && old(recent) == [] ==>
        winner == 0 && found.Some?
    {
      hide Placed, Bounded, Ordered, Ascending, Latest, Lottery.Candidate, Lottery.Suits;
      ghost var l := Pool(newOnly, kind, coin, accept, draw);
      found, time, winner := None, 0, 50_000;
      OwnersCounted(State(), place.triedSlot);
      EmptyBook(State(), positions, order, place.triedSlot);
      if order == [] || (newOnly && newCount == 0) {
        NoCandidates(l, 50_000);
        RemembersNothing(l);
        NothingWins(l);
        return;
      }
      var fromTried := if newOnly || triedCount == 0 then false else if newCount == 0 then true else coin;
      SomeoneCounted(State(), positions, order, place.triedSlot);
      var bucket := if fromTried then triedBuckets else newBuckets;
      var itemsInSet := if fromTried then triedCount else newCount;
      BucketInUse(State(), place.triedSlot, fromTried, bucket);
      found, time, winner := DrawFrom(fromTried, bucket, itemsInSet, kind, accept, draw, l);
      if found.Some? { WinnerKnown(State(), ids, place.triedSlot, l, winner); }
      if kind.None? && accept(0) && l.recent == [] { FirstWins(State(), place.triedSlot, l); }
    }

    /** The attempts, on one kind of slots. */
    method DrawFrom(ghost fromTried: bool, bucket: map<int, int>, itemsInSet: int, kind: Option<AddressType>,
                    accept: int -> bool, draw: int -> nat, ghost l: Lottery)
      returns (found: Option<IPEndpoint>, time: int, ghost winner: nat)
      requires Valid() && bucket != map[] && bucket == (if fromTried then triedBuckets else newBuckets)
      requires itemsInSet == |Owners(bucket)| && l == Lottery(entries, bucket, kind, accept, draw, recent)
      modifies this`recent
      ensures winner <= 50_000 && (forall a | 0 <= a < winner :: !l.Wins(a))
      ensures winner < 50_000 ==>
        l.Wins(winner) && found == Some(l.Candidate(winner).value.endpoint) && time == l.Candidate(winner).value.time
      ensures winner == 50_000 ==> found == None && time == 0
      ensures RemembersLatest(l, Min(winner + 1, 50_000), recent)
    {
      hide Placed, Bounded, Ordered, Indexed, Ascending, RemembersLatest, Touched;
      found, time, winner := None, 0, 50_000;
      Positive(bucket);
      var slots := Ascending(bucket.Keys);
      var attempt := 0;
      RemembersNothing(l);
      while attempt < 50_000
        invariant 0 <= attempt <= 50_000 && found == None && time == 0
        invariant forall a | 0 <= a < attempt :: !l.Wins(a)
        invariant Remembers(l, attempt, recent)
      {
        var slot := slots[draw(attempt) % |slots|];
        assert slot in bucket.Keys;
        var id := bucket[slot];
        BucketMember(State(), place.triedSlot, fromTried, slot);
        assert id in entries;
        var service := entries[id].service;
        assert l.Candidate(attempt) == Some(service);
        if (kind.Some? ==> service.endpoint.address.Type() == kind.value) && accept(attempt) {
          var unseen := service.endpoint !in recent;
          RemembersMore(l, attempt, recent);
          recent := Touched(recent, service.endpoint);
          if unseen || itemsInSet <= |recent| {
            return Some(service.endpoint), service.time, attempt;
          }
        } else {
          RemembersSame(l, attempt, recent);
        }
        attempt := attempt + 1;
      }
    }
  }

  /** What a part of the random order lists, and that the whole order lists all there is. */
  lemma Drafted(entries: Entries, ids: map<IPEndpoint, int>, positions: map<int, int>, order: seq<int>, used: nat,
                kind: Option<AddressType>, now: int)
    requires Indexed(entries, ids) && positions.Keys == entries.Keys && Ordered(positions, order) && used <= |order|
    ensures var ret := EligibleServices(entries, order[..used], kind, now);
      && (forall s | s in ret ::
            && s.endpoint in ids && ids[s.endpoint] in entries
            && entries[ids[s.endpoint]].service == s && Presentable(entries[ids[s.endpoint]], kind, now))
      && (forall i, j | 0 <= i < j < |ret| :: ret[i].endpoint != ret[j].endpoint)
      && (used == |order| ==>
            forall id | id in entries && Presentable(entries[id], kind, now) :: entries[id].service in ret)
  {
    hide Indexed, Ordered, Eligible, EligibleServices, Listable, Presentable;
    OrderedDistinct(positions, order);
    EligibleDistinct(entries, ids, order[..used], kind, now);
    EligibleWithin(entries, ids, order, used, kind, now);
    OrderedAll(positions, order);
    forall id | id in entries ensures id in order {
      assert id in positions.Keys;
    }
    ListableIs(entries, ids, order, kind, now);
    assert used == |order| ==> order[..used] == order;
  }

  lemma NothingCleared(entries: Entries, newBuckets: map<int, int>, slot: int)
    requires slot !in newBuckets
    ensures Cleared(entries, newBuckets, slot) == entries && newBuckets - {slot} == newBuckets
  {
    assert newBuckets - {slot} == newBuckets;
  }

  /** The random order has one position per entry. */
  lemma OrderedSize(positions: map<int, int>, order: seq<int>)
    requires Ordered(positions, order)
    ensures |order| == |positions|
  {
    var inverse := map i | i in Interval(0, |order|) && 0 <= i < |order| :: order[i];
    IntervalExactly(0, |order|);
    assert inverse.Keys == Interval(0, |order|);
    InjectionSize(inverse, positions.Keys);
    InjectionSize(positions, Interval(0, |order|));
  }

  /** A book with entries has some in new or some in tried. */
  lemma SomeoneCounted(t: Tables, positions: map<int, int>, order: seq<int>, triedSlot: IPEndpoint -> TriedSlot)
    requires Placed(t, triedSlot, {}) && positions.Keys == t.entries.Keys && Ordered(positions, order) && order != []
    ensures t.newCount >= 0 && t.triedCount >= 0 && (t.newCount > 0 || t.triedCount > 0)
  {
    CountsAddUp(t.entries);
    assert order[0] in t.entries.Keys;
  }

  /** A book without entries has no slots in use. */
  lemma EmptyBook(t: Tables, positions: map<int, int>, order: seq<int>, triedSlot: IPEndpoint -> TriedSlot)
    requires Placed(t, triedSlot, {}) && positions.Keys == t.entries.Keys && Ordered(positions, order)
    ensures order == [] <==> t.entries == map[]
    ensures order == [] ==> t.newBuckets == map[] && t.triedBuckets == map[]
  {
    if order != [] {
      assert order[0] in t.entries.Keys;
    } else {
      forall id ensures id !in t.entries {
        assert id !in positions.Keys;
      }
      forall s ensures s !in t.newBuckets && s !in t.triedBuckets {
      }
    }
  }

  /** The winner is an entry of the book, of the type asked for, and in new if only new was asked for. */
  lemma WinnerKnown(t: Tables, ids: map<IPEndpoint, int>, triedSlot: IPEndpoint -> TriedSlot, l: Lottery, a: int)
    requires Placed(t, triedSlot, {}) && Indexed(t.entries, ids)
    requires l.entries == t.entries && (l.bucket == t.newBuckets || l.bucket == t.triedBuckets) && l.Wins(a)
    ensures var s := l.Candidate(a).value;
      && s.endpoint in ids && ids[s.endpoint] in t.entries && s == t.entries[ids[s.endpoint]].service
      && (l.kind.Some? ==> s.endpoint.address.Type() == l.kind.value)
      && (l.bucket == t.newBuckets ==> t.entries[ids[s.endpoint]].newRefs != {})
  {
    hide Lottery.Candidate;
    BucketKnown(t, triedSlot, l.bucket);
    assert l.bucket != map[] by { NothingDrawn(l, a); }
    var id := Drawn(l, a);
    if l.bucket == t.newBuckets { NewOwners(t.entries, t.newBuckets); }
  }

  lemma NothingDrawn(l: Lottery, a: int)
    requires l.Candidate(a).Some?
    ensures l.bucket != map[]
  {
  }

  lemma BucketKnown(t: Tables, triedSlot: IPEndpoint -> TriedSlot, bucket: map<int, int>)
    requires Placed(t, triedSlot, {}) && (bucket == t.newBuckets || bucket == t.triedBuckets)
    ensures forall s | s in bucket :: bucket[s] in t.entries
  {
  }

  /** With nothing remembered and no type asked for, the first attempt wins if it passes the chance test. */
  lemma FirstWins(t: Tables, triedSlot: IPEndpoint -> TriedSlot, l: Lottery)
    requires Placed(t, triedSlot, {}) && l.entries == t.entries
             && (l.bucket == t.newBuckets || l.bucket == t.triedBuckets)
    requires l.bucket != map[] && l.kind.None? && l.accept(0) && l.recent == []
    ensures l.Wins(0)
  {
    hide Lottery.Candidate;
    BucketKnown(t, triedSlot, l.bucket);
    var id := Drawn(l, 0);
  }

  lemma NothingWins(l: Lottery)
    requires l.bucket == map[]
    ensures forall a :: !l.Wins(a)
  {
  }

  /** A kind of bucket with entries counted has a slot in use. */
  lemma BucketInUse(t: Tables, triedSlot: IPEndpoint -> TriedSlot, tried: bool, bucket: map<int, int>)
    requires Placed(t, triedSlot, {}) && bucket == (if tried then t.triedBuckets else t.newBuckets)
    requires if tried then t.triedCount > 0 else t.newCount > 0
    ensures exists slot :: slot in bucket
  {
    if tried {
      var s := SomeTriedSlot(t, triedSlot, {});
      assert s in bucket;
    } else {
      var s := SomeNewSlot(t, triedSlot, {});
      assert s in bucket;
    }
  }

  /** A slot in use leads to an entry of that kind. */
  lemma BucketMember(t: Tables, triedSlot: IPEndpoint -> TriedSlot, tried: bool, slot: int)
    requires Placed(t, triedSlot, {}) && slot in if tried then t.triedBuckets else t.newBuckets
    ensures var id := (if tried then t.triedBuckets else t.newBuckets)[slot];
      id in t.entries && (!tried ==> t.entries[id].newRefs != {})
  {
    if tried { TriedOccupant(t, triedSlot, {}, slot); } else { NewOccupant(t, triedSlot, {}, slot); }
  }

  /** The id of the entry with an endpoint. */
  ghost function Known(entries: Entries, ep: IPEndpoint): Option<int> {
    var owners := set id | id in entries && entries[id].service.endpoint == ep;
    if owners == {} then None else Some(Pick(owners))
  }

  lemma KnownIs(entries: Entries, ids: map<IPEndpoint, int>, ep: IPEndpoint)
    requires Indexed(entries, ids)
    ensures Known(entries, ep) == if ep in ids then Some(ids[ep]) else None
  {
    var owners := set id | id in entries && entries[id].service.endpoint == ep;
    if ep in ids {
      assert ids[ep] in owners;
      assert Pick(owners) in owners;
    } else {
      forall id ensures id !in owners {
      }
      SubsetSize(owners, {});
    }
  }

  lemma KnownHere(entries: Entries, ids: map<IPEndpoint, int>, ep: IPEndpoint)
    requires Indexed(entries, ids)
    ensures Known(entries, ep).None? <==> ep !in ids
  {
    hide Known;
    KnownIs(entries, ids, ep);
  }

  /** What advertisements change. */
  datatype Shelf = Shelf(entries: Entries, newBuckets: map<int, int>, lastId: int)

  /** The shelf after one advertisement. */
  ghost function Offered(shelf: Shelf, place: Placement, service: NodeService, source: IPAddress, penalty: int,
                         now: int, lucky: bool): Shelf
  {
    var charged := if source == service.endpoint.address then 0 else penalty;
    match Known(shelf.entries, service.endpoint)
    case None =>
      var slot := place.newSlot(service.endpoint, source);
      var entry := Fresh(service, source, Max(TIME_INIT, service.time - charged), slot);
      Shelf(Cleared(shelf.entries, shelf.newBuckets, slot)[shelf.lastId := entry],
            shelf.newBuckets[slot := shelf.lastId], shelf.lastId + 1)
    case Some(id) =>
      if id !in shelf.entries then shelf
      else
        var e := Refreshed(shelf.entries[id], service, charged, now);
        var refreshed := shelf.entries[id := e];
        var slot := place.newSlot(e.service.endpoint, source);
        var cleared := Cleared(refreshed, shelf.newBuckets, slot);
        if TakesReference(e, service, slot, lucky) && id in cleared
        then Shelf(WithReference(cleared, id, slot), shelf.newBuckets[slot := id], shelf.lastId)
        else shelf.(entries := refreshed)
  }

  /** A vector of services from one source, with the clock readings and draws of each turn. */
  datatype Batch = Batch(services: seq<NodeService>, source: IPAddress, penalty: int, now: int, clock: int -> int,
                         lucky: int -> bool)

  /** Whether an endpoint is among the first `i` services with the network bit. */
  ghost predicate Seen(services: seq<NodeService>, i: int, ep: IPEndpoint)
    requires 0 <= i <= |services|
  {
    exists j | 0 <= j < i :: HasNetwork(services[j]) && services[j].endpoint == ep
  }

  /** Whether the `i`-th service is offered to the book. */
  ghost predicate IsOffered(services: seq<NodeService>, i: int) {
    0 <= i < |services| && HasNetwork(services[i]) && !Seen(services, i, services[i].endpoint)
  }

  /** The shelf after the first `i` services. */
  ghost function Offers(shelf: Shelf, place: Placement, b: Batch, i: nat): Shelf
    requires i <= |b.services|
  {
    if i == 0 then shelf
    else
      var before := Offers(shelf, place, b, i - 1);
      if IsOffered(b.services, i - 1)
      then Offered(before, place, Dated(b.services[i - 1], b.now), b.source, b.penalty, b.clock(i - 1), b.lucky(i - 1))
      else before
  }

  /** `picks` are, in order, those of the first `i` services that are offered and unknown when their turn comes. */
  ghost predicate Chosen(shelf: Shelf, place: Placement, b: Batch, picks: seq<int>, i: nat)
    requires i <= |b.services|
  {
    && (forall k | 0 <= k < |picks| :: 0 <= picks[k] < i)
    && (forall j, k | 0 <= j < k < |picks| :: picks[j] < picks[k])
    && (forall j | 0 <= j < i :: j in picks <==>
          IsOffered(b.services, j) && Known(Offers(shelf, place, b, j).entries, b.services[j].endpoint).None?)
  }

  /** Services that stay have the network bit, and no two have the same endpoint. */
  lemma PicksDiffer(shelf: Shelf, place: Placement, b: Batch, picks: seq<int>)
    requires Chosen(shelf, place, b, picks, |b.services|)
    ensures forall k | 0 <= k < |picks| :: 0 <= picks[k] < |b.services| && HasNetwork(b.services[picks[k]])
    ensures forall j, k | 0 <= j < k < |picks| ::
      picks[j] < picks[k] && b.services[picks[j]].endpoint != b.services[picks[k]].endpoint
  {
    hide Offers, Known;
    forall k | 0 <= k < |picks| ensures IsOffered(b.services, picks[k]) {
      assert picks[k] in picks;
    }
    forall j, k | 0 <= j < k < |picks| ensures b.services[picks[j]].endpoint != b.services[picks[k]].endpoint {
      EarlierIsSeen(b.services, picks[j], picks[k]);
    }
  }

  lemma EarlierIsSeen(services: seq<NodeService>, j: int, k: int)
    requires 0 <= j < k <= |services| && HasNetwork(services[j])
    ensures Seen(services, k, services[j].endpoint)
  {
  }

  ghost predicate Uniques(unique: set<IPEndpoint>, services: seq<NodeService>, i: int)
    requires 0 <= i <= |services|
  {
    forall ep :: ep in unique <==> Seen(services, i, ep)
  }

  lemma NothingOffered(shelf: Shelf, place: Placement, b: Batch)
    ensures Offers(shelf, place, b, 0) == shelf && Uniques({}, b.services, 0) && Chosen(shelf, place, b, [], 0)
  {
  }

  lemma UniquesOffered(unique: set<IPEndpoint>, services: seq<NodeService>, i: int)
    requires 0 <= i < |services| && Uniques(unique, services, i)
    ensures IsOffered(services, i) <==> HasNetwork(services[i]) && services[i].endpoint !in unique
    ensures Uniques(if IsOffered(services, i) then unique + {services[i].endpoint} else unique, services, i + 1)
  {
    var after := if IsOffered(services, i) then unique + {services[i].endpoint} else unique;
    forall ep ensures ep in after <==> Seen(services, i + 1, ep) {
      SeenNext(services, i, ep);
    }
  }

  lemma SeenNext(services: seq<NodeService>, i: int, ep: IPEndpoint)
    requires 0 <= i < |services|
    ensures Seen(services, i + 1, ep) <==>
            Seen(services, i, ep) || (HasNetwork(services[i]) && services[i].endpoint == ep)
  {
    if Seen(services, i, ep) {
      var j :| 0 <= j < i && HasNetwork(services[j]) && services[j].endpoint == ep;
      assert 0 <= j < i + 1;
    }
    if HasNetwork(services[i]) && services[i].endpoint == ep {
      assert 0 <= i < i + 1;
    }
  }

  lemma NextOffered(shelf: Shelf, place: Placement, b: Batch, i: nat)
    requires i < |b.services|
    ensures var before := Offers(shelf, place, b, i);
      Offers(shelf, place, b, i + 1) ==
        if IsOffered(b.services, i)
        then Offered(before, place, Dated(b.services[i], b.now), b.source, b.penalty, b.clock(i), b.lucky(i))
        else before
  {
    hide Offered, IsOffered;
  }

  lemma NextChosen(shelf: Shelf, place: Placement, b: Batch, picks: seq<int>, i: nat)
    requires i < |b.services| && Chosen(shelf, place, b, picks, i)
    ensures Chosen(shelf, place, b,
      if IsOffered(b.services, i) && Known(Offers(shelf, place, b, i).entries, b.services[i].endpoint).None?
        then picks + [i] else picks, i + 1)
  {
    hide Offers, IsOffered, Known;
    assert forall j | 0 <= j < i :: j in picks + [i] <==> j in picks;
  }

  predicate HasNetwork(s: NodeService) {
    s.services % 2 == 1
  }

  /** Dates before the epoch of the network or too far in the future become five days ago. */
  function Dated(s: NodeService, now: int): NodeService {
    if s.time < TIME_INIT || s.time > now + 600 then s.(time := now - 5 * DAY) else s
  }

  /** Whether `get_random_services` may return `n` services of `size`; a limit of zero is none. */
  predicate Within(n: nat, maxCount: nat, maxPercentage: nat, size: nat) {
    && (maxCount > 0 ==> n <= maxCount)
    && (if maxPercentage > 0 then n * 100 <= size * maxPercentage else n <= size)
  }

  lemma WithinIs(maxCount: nat, maxPercentage: nat, size: nat, count: nat)
    requires var share := if maxPercentage > 0 then size * maxPercentage / 100 else size;
      count == if maxCount > 0 then Min(share, maxCount) else share
    ensures forall n: nat :: Within(n, maxCount, maxPercentage, size) <==> n <= count
  {
    var product := size * maxPercentage;
    assert forall n: nat :: n * 100 <= product <==> n <= product / 100;
  }
}
