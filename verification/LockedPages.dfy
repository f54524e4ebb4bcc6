/**
  Reference-counted page locks (src/core/common/memory.hpp, `LockedPagesManagerBase`). What the operating system
  answers is a parameter of each call.
 */
module LockedPages {
  import opened Common
  import opened Bits

  const MAX_ADDRESS := 0x1_0000_0000_0000_0000

  /** The exponent of a number that has a single bit set. */
  function Log2(n: nat): (k: nat)
    requires n > 0 && BitAnd(n, n - 1) == 0
    ensures Pow2(k) == n
    decreases n
  {
    if n == 1 then 0
    else
      SingleBitHalves(n);
      Log2(n / 2) + 1
  }

  lemma SingleBitHalves(n: nat)
    requires n > 1 && BitAnd(n, n - 1) == 0
    ensures n % 2 == 0 && BitAnd(n / 2, n / 2 - 1) == 0
  {
    if n % 2 == 1 {
      OddHasTwo(n);
    } else {
      EvenHalves(n);
    }
  }

  lemma OddHasTwo(n: nat)
    requires n > 1 && n % 2 == 1
    ensures BitAnd(n, n - 1) > 0
  {
    AndSelf(n / 2);
    AndEven(n, n / 2);
  }

  lemma {:induction false} AndSelf(n: nat)
    ensures BitAnd(n, n) == n
    decreases n
  {
    if n > 0 { AndSelf(n / 2); }
  }

  lemma EvenHalves(n: nat)
    requires n > 0 && n % 2 == 0
    ensures BitAnd(n, n - 1) == 2 * BitAnd(n / 2, n / 2 - 1)
  {
    assert (n - 1) / 2 == n / 2 - 1;
  }

  /** The address of the page that holds an address: clearing the offset bits rounds down. */
  lemma PageOf(address: nat, pageSize: nat)
    requires 0 < pageSize <= 0x4000_0000 && BitAnd(pageSize, pageSize - 1) == 0
    requires address < MAX_ADDRESS
    ensures BitAnd(address, MAX_ADDRESS - pageSize) == address / pageSize * pageSize
  {
    hide Pow2, BitAnd, Log2;
    var k := Log2(pageSize);
    Pow2Values();
    if k > 64 { Pow2Monotone(64, k); }
    AndHighMask(address, 64, 64 - k);
  }

  /** The `i`-th page from `start` on. */
  function PageAt(start: int, i: int, pageSize: int): int {
    start + i * pageSize
  }

  lemma NextPage(start: int, i: int, pageSize: int)
    ensures PageAt(start, i + 1, pageSize) == PageAt(start, i, pageSize) + pageSize
    ensures PageAt(start, 0, pageSize) == start
  {
    assert (i + 1) * pageSize == i * pageSize + pageSize;
  }

  /** How many pages a loop from the page of `first` to the page of `last` visits. */
  function Touched(first: nat, last: nat, pageSize: int): nat
    requires pageSize > 0
  {
    Max(0, last / pageSize - first / pageSize + 1)
  }

  /** The last address of a range, as the machine computes it. */
  function LastAddress(address: int, size: int): nat {
    (address + size - 1) % MAX_ADDRESS
  }

  /** A range that does not end in the last page of the address space; there, and only there, the loops below end. */
  predicate Ends(address: int, size: int, pageSize: int)
    requires pageSize > 0
  {
    address == 0 || size == 0 || LastAddress(address, size) / pageSize * pageSize + pageSize < MAX_ADDRESS
  }

  type Counts = map<int, int>

  function CountOf(counts: Counts, page: int): int {
    if page in counts then counts[page] else 0
  }

  /** One more lock on each of `n` pages from `start` on. */
  function Raised(counts: Counts, start: int, n: nat, pageSize: int): Counts {
    if n == 0 then counts
    else
      OneMore(Raised(counts, start, n - 1, pageSize), PageAt(start, n - 1, pageSize))
  }

  function OneMore(counts: Counts, page: int): Counts {
    counts[page := CountOf(counts, page) + 1]
  }

  /** One lock less on each of `n` pages from `start` on; a page without locks is left alone. */
  function Lowered(counts: Counts, start: int, n: nat, pageSize: int): Counts {
    if n == 0 then counts
    else
      OneLess(Lowered(counts, start, n - 1, pageSize), PageAt(start, n - 1, pageSize))
  }

  function OneLess(counts: Counts, page: int): Counts {
    if page !in counts then counts
    else if counts[page] == 1 then counts - {page}
    else counts[page := counts[page] - 1]
  }

  /** A page can be locked without asking the operating system if it is counted. */
  predicate MayLock(counts: Counts, page: int, grants: int -> bool) {
    page in counts || grants(page)
  }

  /** A page can be unlocked without asking the operating system unless its last lock goes. */
  predicate MayUnlock(counts: Counts, page: int, grants: int -> bool) {
    CountOf(counts, page) != 1 || grants(page)
  }

  /** None of the first `n` pages is refused. */
  predicate LockPasses(counts: Counts, start: int, n: nat, pageSize: int, grants: int -> bool) {
    forall i | 0 <= i < n :: MayLock(counts, PageAt(start, i, pageSize), grants)
  }

  predicate UnlockPasses(counts: Counts, start: int, n: nat, pageSize: int, grants: int -> bool) {
    forall i | 0 <= i < n :: MayUnlock(counts, PageAt(start, i, pageSize), grants)
  }

  lemma NothingPasses(counts: Counts, start: int, pageSize: int, grants: int -> bool)
    ensures LockPasses(counts, start, 0, pageSize, grants) && UnlockPasses(counts, start, 0, pageSize, grants)
  {
  }

  lemma OneMorePasses(counts: Counts, start: int, n: nat, pageSize: int, grants: int -> bool)
    ensures LockPasses(counts, start, n + 1, pageSize, grants) <==>
            LockPasses(counts, start, n, pageSize, grants) && MayLock(counts, PageAt(start, n, pageSize), grants)
    ensures UnlockPasses(counts, start, n + 1, pageSize, grants) <==>
            UnlockPasses(counts, start, n, pageSize, grants) && MayUnlock(counts, PageAt(start, n, pageSize), grants)
  {
    hide PageAt, MayLock, MayUnlock;
  }

  lemma PagesDiffer(start: int, i: int, j: int, pageSize: int)
    requires pageSize > 0 && i < j
    ensures PageAt(start, i, pageSize) < PageAt(start, j, pageSize)
  {
    MulLe(i + 1, j, pageSize);
    assert (i + 1) * pageSize == i * pageSize + pageSize;
  }

  /** A page is not touched before its turn. */
  lemma {:induction false} NotYetRaised(counts: Counts, start: int, n: nat, pageSize: int, j: int)
    requires pageSize > 0 && n <= j
    ensures var page := PageAt(start, j, pageSize);
      && (page in Raised(counts, start, n, pageSize) <==> page in counts)
      && CountOf(Raised(counts, start, n, pageSize), page) == CountOf(counts, page)
    decreases n
  {
    hide PageAt;
    if n > 0 {
      NotYetRaised(counts, start, n - 1, pageSize, j);
      PagesDiffer(start, n - 1, j, pageSize);
    }
  }

  lemma {:induction false} NotYetLowered(counts: Counts, start: int, n: nat, pageSize: int, j: int)
    requires pageSize > 0 && n <= j
    ensures var page := PageAt(start, j, pageSize);
      && (page in Lowered(counts, start, n, pageSize) <==> page in counts)
      && CountOf(Lowered(counts, start, n, pageSize), page) == CountOf(counts, page)
    decreases n
  {
    hide PageAt;
    if n > 0 {
      NotYetLowered(counts, start, n - 1, pageSize, j);
      PagesDiffer(start, n - 1, j, pageSize);
    }
  }

  /** A call that the operating system granted. */
  datatype Grant = Locks(page: int) | Unlocks(page: int)

  /** No page is ever locked twice or unlocked when it is not; `locked` are the pages locked after `log`. */
  ghost predicate Alternates(log: seq<Grant>, locked: set<int>) {
    if log == [] then locked == {}
    else match log[|log| - 1]
      case Locks(p) => p in locked && Alternates(log[..|log| - 1], locked - {p})
      case Unlocks(p) => p !in locked && Alternates(log[..|log| - 1], locked + {p})
  }

  lemma AlternatesLock(log: seq<Grant>, locked: set<int>, page: int)
    requires Alternates(log, locked) && page !in locked
    ensures Alternates(log + [Locks(page)], locked + {page})
  {
    assert (log + [Locks(page)])[..|log|] == log;
    assert (locked + {page}) - {page} == locked;
  }

  lemma AlternatesUnlock(log: seq<Grant>, locked: set<int>, page: int)
    requires Alternates(log, locked) && page in locked
    ensures Alternates(log + [Unlocks(page)], locked - {page})
  {
    assert (log + [Unlocks(page)])[..|log|] == log;
    assert (locked - {page}) + {page} == locked;
  }

  class Manager {
    const pageSize: int
    const pageMask: int
    var counts: Counts
    /** Every granted call, in order. */
    ghost var log: seq<Grant>

    /** Counted pages have at least one lock each, and are exactly the pages locked in the operating system. */
    ghost predicate Valid()
      reads this
    {
      && 512 <= pageSize <= 0x4000_0000
      && BitAnd(pageSize, pageSize - 1) == 0
      && pageMask == MAX_ADDRESS - pageSize
      && (forall p | p in counts :: counts[p] >= 1)
      && Alternates(log, counts.Keys)
    }

    constructor (pageSize: int)
      requires 512 <= pageSize <= 0x4000_0000 && BitAnd(pageSize, pageSize - 1) == 0
      ensures Valid() && this.pageSize == pageSize && counts == map[] && log == []
    {
      this.pageSize := pageSize;
      pageMask := MAX_ADDRESS - 1 - (pageSize - 1);
      counts := map[];
      log := [];
    }

    /** The operating system is asked only for a page without locks. */
    method LockPage(page: int, granted: bool) returns (ok: bool)
      requires Valid()
      modifies this`counts, this`log
      ensures Valid()
      ensures ok <==> page in old(counts) || granted
      ensures counts == if ok then OneMore(old(counts), page) else old(counts)
      ensures log == old(log) + if ok && page !in old(counts) then [Locks(page)] else []
    {
      hide BitAnd, Alternates;
      if page in counts {
        assert counts[page := counts[page] + 1].Keys == counts.Keys;
        counts := counts[page := counts[page] + 1];
        return true;
      }
      if !granted { return false; }
      AlternatesLock(log, counts.Keys, page);
      assert counts[page := 1].Keys == counts.Keys + {page};
      counts := counts[page := 1];
      log := log + [Locks(page)];
      return true;
    }

    /** The operating system is asked only when the last lock on a page goes. */
    method UnlockPage(page: int, granted: bool) returns (ok: bool)
      requires Valid()
      modifies this`counts, this`log
      ensures Valid()
      ensures ok <==> CountOf(old(counts), page) != 1 || granted
      ensures counts == if ok then OneLess(old(counts), page) else old(counts)
      ensures log == old(log) + if ok && CountOf(old(counts), page) == 1 then [Unlocks(page)] else []
    {
      hide BitAnd, Alternates;
      if page !in counts { return true; }
      if counts[page] > 1 {
        assert counts[page := counts[page] - 1].Keys == counts.Keys;
        counts := counts[page := counts[page] - 1];
        return true;
      }
      if !granted { return false; }
      AlternatesUnlock(log, counts.Keys, page);
      assert (counts - {page}).Keys == counts.Keys - {page};
      counts := counts - {page};
      log := log + [Unlocks(page)];
      return true;
    }

    /**
      `lock_range`. Exactly the pages of the range before the first refusal get one more lock; all of them if and
      only if the answer is true. A range that ends in the last page of the address space is excluded, because the
      page counter wraps around there and the loop has no end (`LoopEnds`).
     */
    method LockRange(address: int, size: int, grants: int -> bool) returns (r: bool, ghost done: nat)
      requires Valid() && 0 <= address < MAX_ADDRESS && 0 <= size < MAX_ADDRESS && Ends(address, size, pageSize)
      modifies this`counts, this`log
      ensures Valid()
      ensures address == 0 || size == 0 ==> !r && counts == old(counts) && log == old(log)
      ensures address != 0 && size != 0 ==>
        && var start, n := address / pageSize * pageSize, Touched(address, LastAddress(address, size), pageSize);
        && done <= n && (r <==> done == n)
        && counts == Raised(old(counts), start, done, pageSize)
        && LockPasses(old(counts), start, done, pageSize, grants)
        && (!r ==> !MayLock(old(counts), PageAt(start, done, pageSize), grants))
    {
      hide BitAnd, Alternates, PageAt, Touched, LastAddress, LockPasses, UnlockPasses;
      var last := (address + size - 1) % MAX_ADDRESS;
      done := 0;
      if address == 0 || size == 0 { return false, 0; }
      assert last == LastAddress(address, size) by { LastIs(address, size); }
      ghost var n := Touched(address, last, pageSize);
      PageOf(address, pageSize);
      PageOf(last, pageSize);
      var start := BitAnd(address, pageMask);
      var end := BitAnd(last, pageMask);
      var page := start;
      NextPage(start, 0, pageSize);
      NothingPasses(counts, start, pageSize, grants);
      while page <= end
        invariant Valid()
        invariant page == PageAt(start, done, pageSize) && done <= n
        invariant counts == Raised(old(counts), start, done, pageSize)
        invariant LockPasses(old(counts), start, done, pageSize, grants)
        decreases n - done
      {
        LastPage(address, last, pageSize, done);
        NotYetRaised(old(counts), start, done, pageSize, done);
        var locked := LockPage(page, grants(page));
        if !locked { return false, done; }
        OneMorePasses(old(counts), start, done, pageSize, grants);
        NextPage(start, done, pageSize);
        done := done + 1;
        page := page + pageSize;
      }
      LastPage(address, last, pageSize, done);
      return true, done;
    }

    /**
      `unlock_range`. Exactly the pages of the range before the first refusal lose one lock, the pages without
      locks being passed over; all of them if and only if the answer is true.
     */
    method UnlockRange(address: int, size: int, grants: int -> bool) returns (r: bool, ghost done: nat)
      requires Valid() && 0 <= address < MAX_ADDRESS && 0 <= size < MAX_ADDRESS && Ends(address, size, pageSize)
      modifies this`counts, this`log
      ensures Valid()
      ensures address == 0 || size == 0 ==> !r && counts == old(counts) && log == old(log)
      ensures address != 0 && size != 0 ==>
        && var start, n := address / pageSize * pageSize, Touched(address, LastAddress(address, size), pageSize);
        && done <= n && (r <==> done == n)
        && counts == Lowered(old(counts), start, done, pageSize)
        && UnlockPasses(old(counts), start, done, pageSize, grants)
        && (!r ==> !MayUnlock(old(counts), PageAt(start, done, pageSize), grants))
    {
      hide BitAnd, Alternates, PageAt, Touched, LastAddress, LockPasses, UnlockPasses;
      var last := (address + size - 1) % MAX_ADDRESS;
      done := 0;
      if address == 0 || size == 0 { return false, 0; }
      assert last == LastAddress(address, size) by { LastIs(address, size); }
      ghost var n := Touched(address, last, pageSize);
      PageOf(address, pageSize);
      PageOf(last, pageSize);
      var start := BitAnd(address, pageMask);
      var end := BitAnd(last, pageMask);
      var page := start;
      NextPage(start, 0, pageSize);
      NothingPasses(counts, start, pageSize, grants);
      while page <= end
        invariant Valid()
        invariant page == PageAt(start, done, pageSize) && done <= n
        invariant counts == Lowered(old(counts), start, done, pageSize)
        invariant UnlockPasses(old(counts), start, done, pageSize, grants)
        decreases n - done
      {
        LastPage(address, last, pageSize, done);
        NotYetLowered(old(counts), start, done, pageSize, done);
        var unlocked := UnlockPage(page, grants(page));
        if !unlocked { return false, done; }
        OneMorePasses(old(counts), start, done, pageSize, grants);
        NextPage(start, done, pageSize);
        done := done + 1;
        page := page + pageSize;
      }
      LastPage(address, last, pageSize, done);
      return true, done;
    }

    /** `contains` */
    method Contains(address: int) returns (r: bool)
      requires Valid() && 0 <= address < MAX_ADDRESS
      ensures r <==> address / pageSize * pageSize in counts
    {
      hide BitAnd, Alternates;
      PageOf(address, pageSize);
      return BitAnd(address, pageMask) in counts;
    }

    /** `clear`, visiting the pages in the order `pages`: only the pages whose unlock is refused stay. */
    method Clear(pages: seq<int>, grants: int -> bool)
      requires Valid()
      requires forall p :: p in pages <==> p in counts
      requires forall i, j | 0 <= i < j < |pages| :: pages[i] != pages[j]
      modifies this`counts, this`log
      ensures Valid()
      ensures counts == map p | p in old(counts) && !grants(p) :: old(counts)[p]
    {
      hide BitAnd, Alternates;
      var i := 0;
      while i < |pages|
        invariant 0 <= i <= |pages| && Valid()
        invariant forall p :: p in counts <==> p in old(counts) && (p in pages[..i] ==> !grants(p))
        invariant forall p | p in counts :: counts[p] == old(counts)[p]
      {
        var page := pages[i];
        assert pages[..i + 1] == pages[..i] + [page];
        if grants(page) {
          AlternatesUnlock(log, counts.Keys, page);
          assert (counts - {page}).Keys == counts.Keys - {page};
          counts := counts - {page};
          log := log + [Unlocks(page)];
        }
        i := i + 1;
      }
      assert pages[..i] == pages;
      ghost var stay := map p | p in old(counts) && !grants(p) :: old(counts)[p];
      forall p ensures p in counts <==> p in stay {
        assert p in pages <==> p in old(counts);
      }
      SameCounts(counts, stay);
    }
  }

  lemma SameCounts(a: Counts, b: Counts)
    requires forall p :: p in a <==> p in b
    requires forall p | p in a :: p in b && a[p] == b[p]
    ensures a == b
  {
    forall p | p in a.Keys ensures p in b.Keys {
      assert p in a;
    }
    forall p | p in b.Keys ensures p in a.Keys {
      assert p in b;
    }
    assert a.Keys == b.Keys;
    assert forall p | p in a.Keys :: a[p] == b[p];
  }

  lemma LastIs(address: int, size: int)
    ensures LastAddress(address, size) == (address + size - 1) % MAX_ADDRESS
  {
  }

  /** The loop is at its `done`-th page exactly as long as it is not past the last one. */
  lemma LastPage(first: nat, last: nat, pageSize: int, done: nat)
    requires pageSize > 0
    ensures PageAt(first / pageSize * pageSize, done, pageSize) <= last / pageSize * pageSize <==>
            done < Touched(first, last, pageSize)
  {
    var a, b := first / pageSize, last / pageSize;
    assert a * pageSize + done * pageSize == (a + done) * pageSize;
    if a + done <= b {
      MulLe(a + done, b, pageSize);
    } else {
      MulLe(b + 1, a + done, pageSize);
    }
  }

  /** A whole number of pages fits the address space. */
  lemma PagesFill(pageSize: nat)
    requires 0 < pageSize <= 0x4000_0000 && BitAnd(pageSize, pageSize - 1) == 0
    ensures MAX_ADDRESS % pageSize == 0
  {
    hide Pow2, BitAnd, Log2;
    var k := Log2(pageSize);
    Pow2Values();
    if k > 64 { Pow2Monotone(64, k); }
    Pow2Add(64 - k, k);
    DivUnique(MAX_ADDRESS, pageSize, Pow2(64 - k), 0);
  }

  /** The page counter after `i` steps of the loop, as the machine computes it. */
  function Counter(start: nat, i: nat, pageSize: nat): nat {
    (start + i * pageSize) % MAX_ADDRESS
  }

  /** The counter is always the start of a page. */
  lemma CounterIsPage(start: nat, i: nat, pageSize: nat)
    requires 0 < pageSize <= 0x4000_0000 && BitAnd(pageSize, pageSize - 1) == 0 && start % pageSize == 0
    ensures Counter(start, i, pageSize) <= MAX_ADDRESS - pageSize
  {
    hide BitAnd;
    PagesFill(pageSize);
    var pages := MAX_ADDRESS / pageSize;
    var x := start / pageSize + i;
    assert start + i * pageSize == x * pageSize;
    var q, r := x / pages, x % pages;
    assert x * pageSize == q * MAX_ADDRESS + r * pageSize by { Pieces(x, q, pages, r, pageSize); }
    MulLe(r, pages - 1, pageSize);
    MulNonNegative(r, pageSize);
    assert (pages - 1) * pageSize == MAX_ADDRESS - pageSize;
    DivUnique(start + i * pageSize, MAX_ADDRESS, q, r * pageSize);
  }

  lemma Pieces(x: int, q: int, pages: int, r: int, pageSize: int)
    requires x == q * pages + r
    ensures x * pageSize == q * (pages * pageSize) + r * pageSize
  {
    assert (q * pages) * pageSize == q * (pages * pageSize);
    assert (q * pages + r) * pageSize == (q * pages) * pageSize + r * pageSize;
  }

  /** Unless a lock is refused, the loop reaches a page past the end exactly if the end is not in the last page. */
  lemma LoopEnds(start: nat, end: nat, pageSize: nat)
    requires 0 < pageSize <= 0x4000_0000 && BitAnd(pageSize, pageSize - 1) == 0
    requires start < MAX_ADDRESS && end < MAX_ADDRESS && start % pageSize == 0 && end % pageSize == 0
    ensures (exists i: nat :: Counter(start, i, pageSize) > end) <==> end + pageSize < MAX_ADDRESS
  {
    hide BitAnd, Counter;
    forall i: nat ensures Counter(start, i, pageSize) <= MAX_ADDRESS - pageSize {
      CounterIsPage(start, i, pageSize);
    }
    if end + pageSize < MAX_ADDRESS {
      var i := CounterPasses(start, end, pageSize);
      assert Counter(start, i, pageSize) > end;
    }
    assert end <= MAX_ADDRESS - pageSize by {
      CounterIsPage(end, 0, pageSize);
      StandsStill(end, pageSize);
    }
  }

  lemma StandsStill(start: nat, pageSize: nat)
    requires start < MAX_ADDRESS
    ensures Counter(start, 0, pageSize) == start
  {
    assert 0 * pageSize == 0;
  }

  lemma CounterPasses(start: nat, end: nat, pageSize: nat) returns (i: nat)
    requires 0 < pageSize && start % pageSize == 0 && end % pageSize == 0 && start < MAX_ADDRESS
             && end + pageSize < MAX_ADDRESS
    ensures Counter(start, i, pageSize) > end
  {
    if start > end {
      i := 0;
      StandsStill(start, pageSize);
    } else {
      var a, b := start / pageSize, end / pageSize;
      assert start == a * pageSize && end == b * pageSize;
      i := b + 1 - a by { Spanned(start, end, pageSize); }
      assert i * pageSize == b * pageSize + pageSize - a * pageSize;
    }
  }

  lemma Spanned(first: nat, last: nat, pageSize: int)
    requires pageSize > 0 && first <= last
    ensures first / pageSize <= last / pageSize
  {
    var a, b := first / pageSize, last / pageSize;
    assert first == a * pageSize + first % pageSize && last == b * pageSize + last % pageSize;
    if a > b { MulLe(b + 1, a, pageSize); }
  }

  /** The page that holds an address. */
  function PageStart(address: nat, pageSize: nat): (page: nat)
    requires pageSize > 0
    ensures page == address / pageSize * pageSize && page <= address && page % pageSize == 0
  {
    StartOfPage(address, pageSize);
    address / pageSize * pageSize
  }

  lemma StartOfPage(address: nat, pageSize: nat)
    requires 0 < pageSize
    ensures address / pageSize * pageSize % pageSize == 0 && 0 <= address / pageSize * pageSize <= address
  {
    var q := address / pageSize;
    MulNonNegative(q, pageSize);
    DivUnique(q * pageSize, pageSize, q, 0);
    assert address == q * pageSize + address % pageSize;
  }

  /** The same for a range: its loop passes its last page if and only if that is not the last page of all. */
  lemma RangeEnds(address: nat, size: nat, pageSize: nat)
    requires 0 < pageSize <= 0x4000_0000 && BitAnd(pageSize, pageSize - 1) == 0
    requires 0 < address < MAX_ADDRESS && 0 < size < MAX_ADDRESS
    ensures (exists i: nat ::
             Counter(PageStart(address, pageSize), i, pageSize) > PageStart(LastAddress(address, size), pageSize))
            <==> Ends(address, size, pageSize)
  {
    hide BitAnd, Counter, LastAddress, PageStart;
    LastInside(address, size);
    LoopEnds(PageStart(address, pageSize), PageStart(LastAddress(address, size), pageSize), pageSize);
  }

  lemma LastInside(address: int, size: int)
    ensures LastAddress(address, size) < MAX_ADDRESS
  {
  }

  /** One byte in the last page of the address space: the page counter never passes it. */
  lemma EndlessRange(i: nat)
    ensures !Ends(MAX_ADDRESS - 4096, 1, 4096)
    ensures Counter(PageStart(MAX_ADDRESS - 4096, 4096), i, 4096) <= PageStart(LastAddress(MAX_ADDRESS - 4096, 1), 4096)
  {
    hide Counter, BitAnd;
    PageOfFourKilobytes();
    RangeEnds(MAX_ADDRESS - 4096, 1, 4096);
  }

  lemma PageOfFourKilobytes()
    ensures BitAnd(4096, 4095) == 0
  {
    hide BitAnd;
    assert Pow2(12) == 4096 by {
      Pow2Add(4, 8);
      Pow2Values();
    }
    AndLowMask(4096, 12);
  }
}
