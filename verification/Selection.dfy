/**
  Random selection (src/infra/network/addressbook.cpp, `select_random`, and src/core/common/lru_set.hpp): which attempt
  wins, and what is remembered of the attempts.
 */
module Selection {
  import opened Common
  import opened Addresses
  import opened BookTables

  lemma LeastExists(s: set<int>)
    requires s != {}
    ensures exists m :: m in s && forall x | x in s :: m <= x
    decreases |s|
  {
    NonEmpty(s);
    var x :| x in s;
    var rest := s - {x};
    if rest == {} {
      assert s == {x};
      assert x in s && forall y | y in s :: x <= y;
    } else {
      LeastExists(rest);
      var m :| m in rest && forall y | y in rest :: m <= y;
      var least := if m < x then m else x;
      forall y | y in s ensures least <= y {
        assert y == x || y in rest;
      }
      assert least in s;
    }
  }

  function Least(s: set<int>): (m: int)
    requires s != {}
    ensures m in s && forall x | x in s :: m <= x
  {
    LeastExists(s);
    var m :| m in s && forall x | x in s :: m <= x;
    m
  }

  /** The elements of a set in ascending order, as an ordered map iterates over its keys. */
  function Ascending(s: set<int>): (r: seq<int>)
    ensures |r| == |s| && (forall x :: x in r <==> x in s)
  {
    if s == {} then [] else var m := Least(s); [m] + Ascending(s - {m})
  }

  lemma {:induction false} AscendingOrder(s: set<int>)
    ensures forall i, j | 0 <= i < j < |Ascending(s)| :: Ascending(s)[i] < Ascending(s)[j]
    decreases |s|
  {
    if s != {} {
      var m := Least(s);
      var rest := Ascending(s - {m});
      AscendingOrder(s - {m});
      forall i | 0 <= i < |rest| ensures m < rest[i] {
        assert rest[i] in rest;
      }
    }
  }

  /** The ids that own a slot. */
  function Owners(bucket: map<int, int>): set<int> {
    set s | s in bucket :: bucket[s]
  }

  /**
    What `select_random` works on: the slots it draws from, the type asked for, the outcome of the chance test and the
    random number of each attempt, and the endpoints selected recently, the latest first.
   */
  datatype Lottery = Lottery(
    entries: Entries,
    bucket: map<int, int>,
    kind: Option<AddressType>,
    accept: int -> bool,
    draw: int -> nat,
    recent: seq<IPEndpoint>
  ) {
    /** The service drawn in an attempt: that of the owner of the slot at a random index. */
    function Candidate(attempt: int): Option<NodeService> {
      if bucket == map[] then None
      else
        var slots := Ascending(bucket.Keys);
        Positive(bucket);
        var slot := slots[draw(attempt) % |slots|];
        if bucket[slot] in entries then Some(entries[bucket[slot]].service) else None
    }

    /** It is of the type asked for and passes the chance test. */
    predicate Suits(attempt: int) {
      && Candidate(attempt).Some?
      && (kind == None || kind == Some(Candidate(attempt).value.endpoint.address.Type()))
      && accept(attempt)
    }

    /** It was not selected recently, or there are no more entries to choose from than are remembered. */
    predicate Wins(attempt: int) {
      && Suits(attempt)
      && (Candidate(attempt).value.endpoint !in recent || |Owners(bucket)| <= |recent|)
    }

    /** The endpoints of the first `n` attempts that suit, the latest first. */
    function Seen(n: nat): seq<IPEndpoint> {
      if n == 0 then []
      else (if Suits(n - 1) then [Candidate(n - 1).value.endpoint] else []) + Seen(n - 1)
    }
  }

  /** Whom an attempt draws, when every slot has an owner. */
  lemma Drawn(l: Lottery, attempt: int) returns (id: int)
    requires l.bucket != map[] && forall s | s in l.bucket :: l.bucket[s] in l.entries
    ensures id in Owners(l.bucket) && id in l.entries && l.Candidate(attempt) == Some(l.entries[id].service)
  {
    hide Ascending;
    Positive(l.bucket);
    var slots := Ascending(l.bucket.Keys);
    var slot := slots[l.draw(attempt) % |slots|];
    assert slot in l.bucket.Keys;
    id := l.bucket[slot];
  }

  lemma Positive(bucket: map<int, int>)
    requires bucket != map[]
    ensures |bucket.Keys| > 0
  {
    assert bucket.Keys != {};
  }

  /** `LruSet::insert` with room for 64: the item moves to the front, and the oldest is dropped. */
  function Touched(recent: seq<IPEndpoint>, item: IPEndpoint): seq<IPEndpoint> {
    if item in recent then [item] + Without(recent, item)
    else if |recent| >= 64 then [item] + recent[..63]
    else [item] + recent
  }

  function Without(items: seq<IPEndpoint>, item: IPEndpoint): seq<IPEndpoint> {
    if items == [] then []
    else if items[0] == item then items[1..]
    else [items[0]] + Without(items[1..], item)
  }

  /** Touching what is remembered changes the order only. */
  lemma {:induction false} TouchedAgain(recent: seq<IPEndpoint>, item: IPEndpoint)
    requires item in recent
    ensures multiset(Touched(recent, item)) == multiset(recent)
    ensures |Touched(recent, item)| == |recent| && forall x :: x in Touched(recent, item) <==> x in recent
  {
    WithoutOne(recent, item);
    var after := Touched(recent, item);
    assert multiset(after) == multiset{item} + multiset(Without(recent, item));
    assert |multiset(after)| == |after| && |multiset(recent)| == |recent|;
    forall x ensures x in after <==> x in recent {
      assert x in multiset(after) <==> x in multiset(recent);
    }
  }

  lemma {:induction false} WithoutOne(items: seq<IPEndpoint>, item: IPEndpoint)
    requires item in items
    ensures multiset(Without(items, item)) + multiset{item} == multiset(items)
    decreases |items|
  {
    assert items == [items[0]] + items[1..];
    if items[0] != item { WithoutOne(items[1..], item); }
  }

  predicate NoRepeats(items: seq<IPEndpoint>) {
    forall i, j | 0 <= i < j < |items| :: items[i] != items[j]
  }

  /** The different items of a history, the latest first. */
  function Distinct(history: seq<IPEndpoint>): seq<IPEndpoint> {
    if history == [] then [] else [history[0]] + Dropped(Distinct(history[1..]), history[0])
  }

  function Dropped(items: seq<IPEndpoint>, item: IPEndpoint): seq<IPEndpoint> {
    if items == [] then [] else (if items[0] == item then [] else [items[0]]) + Dropped(items[1..], item)
  }

  function FirstOf(items: seq<IPEndpoint>): seq<IPEndpoint> {
    if |items| <= 64 then items else items[..64]
  }

  /** The last 64 different items of a history, the latest first. */
  function Latest(history: seq<IPEndpoint>): seq<IPEndpoint> {
    FirstOf(Distinct(history))
  }

  lemma {:induction false} DroppedNothing(items: seq<IPEndpoint>, item: IPEndpoint)
    requires item !in items
    ensures Dropped(items, item) == items
    decreases |items|
  {
    if items != [] {
      assert items == [items[0]] + items[1..];
      DroppedNothing(items[1..], item);
    }
  }

  lemma {:induction false} DroppedAt(items: seq<IPEndpoint>, i: int)
    requires 0 <= i < |items| && NoRepeats(items)
    ensures Dropped(items, items[i]) == items[..i] + items[i + 1..]
    ensures Without(items, items[i]) == items[..i] + items[i + 1..]
    decreases |items|
  {
    var rest := items[1..];
    if i == 0 {
      assert forall j | 0 <= j < |rest| :: rest[j] == items[j + 1];
      DroppedNothing(rest, items[0]);
    } else {
      DroppedAt(rest, i - 1);
      assert rest[i - 1] == items[i];
      assert [items[0]] + (rest[..i - 1] + rest[i..]) == items[..i] + items[i + 1..];
    }
  }

  lemma {:induction false} DistinctNoRepeats(history: seq<IPEndpoint>)
    ensures NoRepeats(Distinct(history))
    decreases |history|
  {
    if history != [] {
      DistinctNoRepeats(history[1..]);
      DroppedNoRepeats(Distinct(history[1..]), history[0]);
    }
  }

  lemma DroppedNoRepeats(items: seq<IPEndpoint>, item: IPEndpoint)
    requires NoRepeats(items)
    ensures NoRepeats([item] + Dropped(items, item))
  {
    if item in items {
      var i :| 0 <= i < |items| && items[i] == item;
      DroppedAt(items, i);
    } else {
      DroppedNothing(items, item);
    }
  }

  /** An item that is among the first 64 moves to the front of them. */
  lemma FrontMoves(all: seq<IPEndpoint>, i: int)
    requires 0 <= i < |all| && i < 64
    ensures var recent := FirstOf(all);
      FirstOf([all[i]] + (all[..i] + all[i + 1..])) == [all[i]] + (recent[..i] + recent[i + 1..])
  {
    var recent := FirstOf(all);
    var moved := [all[i]] + (all[..i] + all[i + 1..]);
    assert |moved| == |all|;
    if |all| > 64 {
      assert moved[..64] == [all[i]] + (recent[..i] + recent[i + 1..]);
    }
  }

  /** Any other item displaces the last of them, if there are as many. */
  lemma FrontGrows(all: seq<IPEndpoint>, rest: seq<IPEndpoint>, item: IPEndpoint)
    requires if |all| <= 64 then rest == all else |rest| >= 63 && rest[..63] == all[..63]
    ensures var recent := FirstOf(all);
      FirstOf([item] + rest) == if |recent| >= 64 then [item] + recent[..63] else [item] + recent
  {
    if |rest| >= 64 { assert ([item] + rest)[..64] == [item] + rest[..63]; }
    if |rest| == 63 { assert rest == rest[..63]; }
  }

  /** Inserting into the set is adding to the history. */
  lemma TouchedLatest(history: seq<IPEndpoint>, item: IPEndpoint)
    ensures Touched(Latest(history), item) == Latest([item] + history)
  {
    hide Dropped, Without, FirstOf;
    var all, recent := Distinct(history), Latest(history);
    DistinctNoRepeats(history);
    assert ([item] + history)[1..] == history;
    assert Distinct([item] + history) == [item] + Dropped(all, item);
    if item in all {
      var i :| 0 <= i < |all| && all[i] == item;
      DroppedAt(all, i);
      InFront(all, i);
      if i < 64 {
        DroppedAt(recent, i);
        FrontMoves(all, i);
      } else {
        assert (all[..i] + all[i + 1..])[..63] == all[..63];
        FrontGrows(all, all[..i] + all[i + 1..], item);
      }
    } else {
      DroppedNothing(all, item);
      NotInFront(all, item);
      FrontGrows(all, all, item);
    }
  }

  lemma InFront(all: seq<IPEndpoint>, i: int)
    requires 0 <= i < |all| && NoRepeats(all)
    ensures NoRepeats(FirstOf(all)) && (all[i] in FirstOf(all) <==> i < 64)
    ensures i < 64 ==> i < |FirstOf(all)| && FirstOf(all)[i] == all[i]
  {
  }

  lemma NotInFront(all: seq<IPEndpoint>, item: IPEndpoint)
    requires item !in all
    ensures item !in FirstOf(all)
  {
  }

  /** What a set of recent items is: no repeats, and at most 64. */
  lemma {:induction false} LatestOfRecent(recent: seq<IPEndpoint>)
    requires NoRepeats(recent) && |recent| <= 64
    ensures Latest(recent) == recent
  {
    DistinctOfDistinct(recent);
  }

  lemma {:induction false} DistinctOfDistinct(items: seq<IPEndpoint>)
    requires NoRepeats(items)
    ensures Distinct(items) == items
    decreases |items|
  {
    if items != [] {
      var rest := items[1..];
      DistinctOfDistinct(rest);
      assert forall j | 0 <= j < |rest| :: rest[j] == items[j + 1];
      DroppedNothing(rest, items[0]);
      assert items == [items[0]] + rest;
    }
  }

  lemma LatestFits(history: seq<IPEndpoint>)
    ensures NoRepeats(Latest(history)) && |Latest(history)| <= 64
  {
    DistinctNoRepeats(history);
  }

  /** What is remembered after the first `n` attempts of a lottery, none of which won. */
  ghost predicate Remembers(l: Lottery, n: nat, recent: seq<IPEndpoint>) {
    && |recent| == |l.recent| && (forall x :: x in recent <==> x in l.recent)
    && RemembersLatest(l, n, recent)
  }

  ghost predicate RemembersLatest(l: Lottery, n: nat, recent: seq<IPEndpoint>) {
    NoRepeats(l.recent) && |l.recent| <= 64 ==> recent == Latest(l.Seen(n) + l.recent)
  }

  lemma RemembersNothing(l: Lottery)
    ensures Remembers(l, 0, l.recent)
  {
    hide Latest;
    assert l.Seen(0) + l.recent == l.recent;
    if NoRepeats(l.recent) && |l.recent| <= 64 { LatestOfRecent(l.recent); }
  }

  /** An attempt that does not suit. */
  lemma RemembersSame(l: Lottery, n: nat, recent: seq<IPEndpoint>)
    requires Remembers(l, n, recent) && !l.Suits(n)
    ensures Remembers(l, n + 1, recent)
  {
    hide Latest, Lottery.Suits;
    assert l.Seen(n + 1) == l.Seen(n);
  }

  /** An attempt that suits: if it does not win, only the order of what is remembered changes. */
  lemma RemembersMore(l: Lottery, n: nat, recent: seq<IPEndpoint>)
    requires Remembers(l, n, recent) && l.Suits(n)
    ensures var after := Touched(recent, l.Candidate(n).value.endpoint);
      && RemembersLatest(l, n + 1, after)
      && (l.Candidate(n).value.endpoint in recent ==> Remembers(l, n + 1, after) && |after| == |recent|)
  {
    hide Latest, Touched, Lottery.Candidate;
    var item := l.Candidate(n).value.endpoint;
    TouchedLatest(l.Seen(n) + l.recent, item);
    assert l.Seen(n + 1) + l.recent == [item] + (l.Seen(n) + l.recent);
    if item in recent { TouchedAgain(recent, item); }
  }

  /** An empty lottery has no candidates. */
  lemma {:induction false} NoCandidates(l: Lottery, n: nat)
    requires l.bucket == map[]
    ensures l.Seen(n) == []
    decreases n
  {
    if n > 0 { NoCandidates(l, n - 1); }
  }

  /** The counters say how many different owners the slots have. */
  lemma OwnersCounted(t: Tables, triedSlot: IPEndpoint -> TriedSlot)
    requires Placed(t, triedSlot, {})
    ensures |Owners(t.newBuckets)| == t.newCount && |Owners(t.triedBuckets)| == t.triedCount
    ensures (t.newCount == 0 <==> t.newBuckets == map[]) && (t.triedCount == 0 <==> t.triedBuckets == map[])
  {
    NewOwners(t.entries, t.newBuckets);
    TriedOwners(t.entries, t.triedBuckets, triedSlot);
    NoValues(t.newBuckets);
    NoValues(t.triedBuckets);
  }

  lemma NewOwners(entries: Entries, buckets: map<int, int>)
    requires NewAgree(entries, buckets)
    ensures Owners(buckets) == NewIds(entries)
  {
    forall id | id in Owners(buckets) ensures id in NewIds(entries) {
      var s :| s in buckets && buckets[s] == id;
      assert s in entries[id].newRefs;
    }
    forall id | id in NewIds(entries) ensures id in Owners(buckets) {
      NonEmpty(entries[id].newRefs);
      var s :| s in entries[id].newRefs;
      assert s in buckets && buckets[s] == id;
    }
  }

  lemma TriedOwners(entries: Entries, buckets: map<int, int>, triedSlot: IPEndpoint -> TriedSlot)
    requires TriedAgree(entries, buckets, triedSlot)
    ensures Owners(buckets) == TriedIds(entries)
  {
    forall id | id in Owners(buckets) ensures id in TriedIds(entries) {
      var s :| s in buckets && buckets[s] == id;
    }
    forall id | id in TriedIds(entries) ensures id in Owners(buckets) {
      assert entries[id].triedRef.value in buckets;
    }
  }

  lemma NoValues(buckets: map<int, int>)
    ensures |Owners(buckets)| == 0 <==> buckets == map[]
  {
    if buckets != map[] {
      assert buckets.Keys != {};
      NonEmpty(buckets.Keys);
      var s :| s in buckets.Keys;
      assert buckets[s] in Owners(buckets);
    }
  }
}
