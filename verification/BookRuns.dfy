/** Whole runs of the address book, and what a promotion does to bystanders. */
module BookRuns {
  import opened Common
  import opened Addresses
  import opened BookTables
  import opened Capacity
  import opened Placing
  import opened Selection
  import AddressBook

  /** A call to a public operation, with its clock readings and draws. */
  datatype Call =
    | InsertOne(service: NodeService, source: IPAddress, penalty: int, now: int, lucky: bool)
    | InsertMany(batch: AddressBook.Batch)
    | Good(remote: IPEndpoint, agent: Bytes, services64: U64, time: int)
    | Failed(remote: IPEndpoint, time: int)
    | Tried(remote: IPEndpoint, time: int)
    | Select(newOnly: bool, kind: Option<AddressType>, coin: bool, accept: int -> bool, draw: int -> nat)
    | Draw(maxCount: nat, maxPercentage: nat, kind: Option<AddressType>, now: int)

  /** What `compute_group` demands of a caller: routable addresses. */
  ghost predicate Allowed(call: Call, routable: IPAddress -> bool) {
    match call
    case InsertOne(s, source, _, _, _) => routable(s.endpoint.address) && routable(source)
    case InsertMany(batch) =>
      routable(batch.source) && forall s | s in batch.services && AddressBook.HasNetwork(s) ::
        routable(s.endpoint.address)
    case _ => true
  }

  /** Every run of operations, for every placement and every draw, keeps the tables in agreement and within capacity. */
  method Run(place: Placement, calls: seq<Call>) returns (book: AddressBook.Book)
    requires forall c | c in calls :: Allowed(c, place.routable)
    ensures fresh(book) && book.place == place && book.Valid()
    ensures |book.entries| <= 81_920
    ensures book.newCount + book.triedCount == |book.entries|
    ensures |book.recent| <= 64 && NoRepeats(book.recent)
  {
    hide Placed, Bounded, Indexed, Ordered;
    book := new AddressBook.Book(place);
    var i := 0;
    while i < |calls|
      invariant 0 <= i <= |calls|
      invariant fresh(book) && book.place == place && book.Valid()
      invariant |book.recent| <= 64 && NoRepeats(book.recent)
    {
      assert Allowed(calls[i], place.routable);
      Perform(book, calls[i]);
      i := i + 1;
    }
    CapacityBound(book.State(), place.triedSlot, book.lastId, place.routable);
    PlacedCounts(book.State(), place.triedSlot);
  }

  method Perform(book: AddressBook.Book, call: Call)
    requires book.Valid() && Allowed(call, book.place.routable)
    requires |book.recent| <= 64 && NoRepeats(book.recent)
    modifies book
    ensures book.Valid()
    ensures |book.recent| <= 64 && NoRepeats(book.recent)
  {
    hide Placed, Bounded, Indexed, Ordered;
    match call
    case InsertOne(s, source, penalty, now, lucky) =>
      var _ := book.InsertOrUpdate(s, source, penalty, now, lucky);
    case InsertMany(batch) =>
      var _, _, _ := book.InsertMany(batch);
    case Good(remote, agent, services, time) =>
      var _ := book.SetGood(remote, agent, services, time);
    case Failed(remote, time) =>
      var _ := book.SetFailed(remote, time);
    case Tried(remote, time) =>
      var _ := book.SetTried(remote, time);
    case Select(newOnly, kind, coin, accept, draw) =>
      ghost var pool := book.Pool(newOnly, kind, coin, accept, draw);
      var _, _, winner := book.SelectRandom(newOnly, kind, coin, accept, draw);
      LatestFits(pool.Seen(Min(winner + 1, 50_000)) + pool.recent);
    case Draw(maxCount, maxPercentage, kind, now) =>
      var _ := book.GetRandomServices(maxCount, maxPercentage, kind, now);
  }

  /** However a book came about, the addresses of one group never make up more than 512 of its tried entries. */
  lemma TriedShareOfGroup(book: AddressBook.Book, sip: Hash, key: Bytes, group: Bytes)
    requires book.Valid() && book.place == PlacementOf(sip, key)
    ensures |set id | id in book.entries && book.entries[id].triedRef.Some?
                      && Group(book.entries[id].service.endpoint.address) == group| <= 512
  {
    hide Group, Bounded, Indexed, Ordered, NewAgree, Separated;
    var ids := set id | id in book.entries && book.entries[id].triedRef.Some?
                        && Group(book.entries[id].service.endpoint.address) == group;
    TriedPerGroup(book.State(), sip, key, group, ids);
  }

  lemma PlacedCounts(t: Tables, triedSlot: IPEndpoint -> TriedSlot)
    requires Placed(t, triedSlot, {})
    ensures t.newCount + t.triedCount == |t.entries|
  {
    CountsAddUp(t.entries);
  }

  /**
    A promotion loses at most one entry, and only a third party: the owner of the new slot that the evicted
    entry falls back to, when that was its only slot. The promoted entry ends in tried, the evicted one in new.
   */
  lemma PromotionLosesAtMostOne(t: Tables, place: Placement, id: int)
    requires Placed(t, place.triedSlot, {}) && id in t.entries && t.entries[id].triedRef == None
    ensures var after := Promoted(t, place, id).0;
      var slot := place.triedSlot(t.entries[id].service.endpoint);
      && id in after && after[id] == t.entries[id].(newRefs := {}, triedRef := Some(slot))
      && (slot !in t.triedBuckets ==> after.Keys == t.entries.Keys)
      && (slot in t.triedBuckets ==>
            var evicted := t.triedBuckets[slot];
            var back := place.newSlot(t.entries[evicted].service.endpoint, t.entries[evicted].origin);
            && evicted in after && after[evicted] == t.entries[evicted].(newRefs := {back}, triedRef := None)
            && (forall k | k in t.entries && k != id && k != evicted ::
                  && (k in after <==> t.entries[k].newRefs != {back})
                  && (k in after ==> after[k] == t.entries[k].(newRefs := t.entries[k].newRefs - {back}))))
  {
    var slot := place.triedSlot(t.entries[id].service.endpoint);
    if slot in t.triedBuckets {
      TriedOccupant(t, place.triedSlot, {}, slot);
      var evicted := t.triedBuckets[slot];
      var back := place.newSlot(t.entries[evicted].service.endpoint, t.entries[evicted].origin);
      var after := Promoted(t, place, id).0;
      forall k | k in t.entries && k != id && k != evicted
        ensures k in after <==> t.entries[k].newRefs != {back}
        ensures k in after ==> after[k] == t.entries[k].(newRefs := t.entries[k].newRefs - {back})
      {
        BystanderOfPromotion(t, place, id, k);
      }
    }
  }

  /** Another entry is touched exactly when it owns the slot that the evicted entry falls back to. */
  lemma BystanderOfPromotion(t: Tables, place: Placement, id: int, k: int)
    requires Placed(t, place.triedSlot, {}) && id in t.entries && t.entries[id].triedRef == None
    requires var slot := place.triedSlot(t.entries[id].service.endpoint);
      slot in t.triedBuckets && t.triedBuckets[slot] in t.entries && k in t.entries && k != id
        && k != t.triedBuckets[slot]
    ensures var evicted := t.triedBuckets[place.triedSlot(t.entries[id].service.endpoint)];
      var back := place.newSlot(t.entries[evicted].service.endpoint, t.entries[evicted].origin);
      var after := Promoted(t, place, id).0;
      && (k in after <==> t.entries[k].newRefs != {back})
      && (k in after ==> after[k] == t.entries[k].(newRefs := t.entries[k].newRefs - {back}))
  {
    var evicted := t.triedBuckets[place.triedSlot(t.entries[id].service.endpoint)];
    var back := place.newSlot(t.entries[evicted].service.endpoint, t.entries[evicted].origin);
    var refs := t.entries[k].newRefs;
    if back in refs {
      assert t.newBuckets[back] == k && back !in t.entries[id].newRefs;
    } else {
      assert refs - {back} == refs;
    }
  }
}
