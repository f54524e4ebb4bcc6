/**
  Histories of page locks (src/core/common/memory.hpp and its caller src/core/common/secure_bytes.hpp): what is
  outstanding after any calls and any answers of the operating system, and exactly when the counts are right.
 */
module PageHistory {
  import opened Common
  import opened Bits
  import opened LockedPages

  /** A range of pages: its first page and how many there are. */
  datatype PageRange = PageRange(start: int, n: nat)

  predicate Covers(r: PageRange, page: int, pageSize: int) {
    exists i | 0 <= i < r.n :: PageAt(r.start, i, pageSize) == page
  }

  /** How many of the ranges cover a page. */
  function Covering(ranges: seq<PageRange>, page: int, pageSize: int): nat {
    if ranges == [] then 0
    else
      Covering(ranges[..|ranges| - 1], page, pageSize)
      + if Covers(ranges[|ranges| - 1], page, pageSize) then 1 else 0
  }

  /** A page is counted as often as outstanding ranges cover it, and not at all if none does. */
  ghost predicate Balanced(counts: Counts, ranges: seq<PageRange>, pageSize: int) {
    forall page :: BalancedAt(counts, ranges, pageSize, page)
  }

  ghost predicate BalancedAt(counts: Counts, ranges: seq<PageRange>, pageSize: int, page: int) {
    && (page in counts <==> Covering(ranges, page, pageSize) > 0)
    && CountOf(counts, page) == Covering(ranges, page, pageSize)
  }

  /** A longer range covers one page more, which the shorter one did not. */
  lemma CoversStep(start: int, n: nat, pageSize: int, page: int)
    requires pageSize > 0 && n > 0
    ensures Covers(PageRange(start, n), page, pageSize) <==>
            Covers(PageRange(start, n - 1), page, pageSize) || page == PageAt(start, n - 1, pageSize)
    ensures !Covers(PageRange(start, n - 1), PageAt(start, n - 1, pageSize), pageSize)
  {
    hide PageAt;
    forall i | 0 <= i < n - 1 ensures PageAt(start, i, pageSize) != PageAt(start, n - 1, pageSize) {
      PagesDiffer(start, i, n - 1, pageSize);
    }
    if page == PageAt(start, n - 1, pageSize) {
      assert PageAt(start, n - 1, pageSize) == page;
    }
  }

  lemma CoversNothing(start: int, pageSize: int, page: int)
    ensures !Covers(PageRange(start, 0), page, pageSize)
  {
  }

  lemma {:induction false} RaisedAt(counts: Counts, start: int, n: nat, pageSize: int, page: int)
    requires pageSize > 0
    ensures CountOf(Raised(counts, start, n, pageSize), page)
            == CountOf(counts, page) + if Covers(PageRange(start, n), page, pageSize) then 1 else 0
    ensures page in Raised(counts, start, n, pageSize) <==>
            page in counts || Covers(PageRange(start, n), page, pageSize)
    decreases n
  {
    hide PageAt, Covers;
    if n > 0 {
      RaisedAt(counts, start, n - 1, pageSize, page);
      CoversStep(start, n, pageSize, page);
    } else {
      CoversNothing(start, pageSize, page);
    }
  }

  lemma {:induction false} LoweredAt(counts: Counts, start: int, n: nat, pageSize: int, page: int)
    requires pageSize > 0 && (page in counts ==> counts[page] >= 1)
    ensures var c := CountOf(counts, page) - if Covers(PageRange(start, n), page, pageSize) then 1 else 0;
      && CountOf(Lowered(counts, start, n, pageSize), page) == Max(c, 0)
      && (page in Lowered(counts, start, n, pageSize) <==> c > 0)
    decreases n
  {
    hide PageAt, Covers;
    if n > 0 {
      LoweredAt(counts, start, n - 1, pageSize, page);
      CoversStep(start, n, pageSize, page);
    } else {
      CoversNothing(start, pageSize, page);
    }
  }

  lemma CoveringMore(ranges: seq<PageRange>, r: PageRange, page: int, pageSize: int)
    ensures Covering(ranges + [r], page, pageSize)
            == Covering(ranges, page, pageSize) + if Covers(r, page, pageSize) then 1 else 0
  {
    hide Covers;
    assert (ranges + [r])[..|ranges|] == ranges;
  }

  /** Exchanging one range for another. */
  lemma {:induction false} CoveringUpdate(ranges: seq<PageRange>, i: int, r: PageRange, page: int, pageSize: int)
    requires 0 <= i < |ranges|
    ensures Covering(ranges[i := r], page, pageSize) + (if Covers(ranges[i], page, pageSize) then 1 else 0)
            == Covering(ranges, page, pageSize) + if Covers(r, page, pageSize) then 1 else 0
    decreases |ranges|
  {
    hide Covers;
    var n := |ranges| - 1;
    if i == n {
      assert ranges[i := r][..n] == ranges[..n];
    } else {
      CoveringUpdate(ranges[..n], i, r, page, pageSize);
      assert ranges[i := r][..n] == ranges[..n][i := r];
    }
  }

  /** A range split in two covers each page in exactly one of the parts. */
  lemma CoversSplit(start: int, n: nat, done: nat, pageSize: int, page: int)
    requires pageSize > 0 && done <= n
    ensures var first, rest := PageRange(start, done), PageRange(PageAt(start, done, pageSize), n - done);
      && (Covers(PageRange(start, n), page, pageSize) <==>
            Covers(first, page, pageSize) || Covers(rest, page, pageSize))
      && !(Covers(first, page, pageSize) && Covers(rest, page, pageSize))
  {
    var from := PageAt(start, done, pageSize);
    forall j | 0 <= j < n - done ensures PageAt(from, j, pageSize) == PageAt(start, done + j, pageSize) {
      assert done * pageSize + j * pageSize == (done + j) * pageSize;
    }
    if Covers(PageRange(start, n), page, pageSize) {
      var i :| 0 <= i < n && PageAt(start, i, pageSize) == page;
      if i >= done { assert PageAt(from, i - done, pageSize) == page; }
    }
    if Covers(PageRange(from, n - done), page, pageSize) {
      var j :| 0 <= j < n - done && PageAt(from, j, pageSize) == page;
      assert PageAt(start, done + j, pageSize) == page;
      forall i | 0 <= i < done ensures PageAt(start, i, pageSize) != page {
        PagesDiffer(start, i, done + j, pageSize);
      }
    }
  }

  /** How far a lock gets: the number of pages before the first that is refused. */
  function LockStop(counts: Counts, start: int, n: nat, pageSize: int, grants: int -> bool): (k: nat)
    ensures k <= n
  {
    if n == 0 then 0
    else
      var k := LockStop(counts, start, n - 1, pageSize, grants);
      if k == n - 1 && MayLock(counts, PageAt(start, n - 1, pageSize), grants) then n else k
  }

  /** How far an unlock gets. */
  function UnlockStop(counts: Counts, start: int, n: nat, pageSize: int, grants: int -> bool): (k: nat)
    ensures k <= n
  {
    if n == 0 then 0
    else
      var k := UnlockStop(counts, start, n - 1, pageSize, grants);
      if k == n - 1 && MayUnlock(counts, PageAt(start, n - 1, pageSize), grants) then n else k
  }

  /** It is the number of pages that pass, up to one that does not or to the end. */
  lemma {:induction false} LockStopIs(counts: Counts, start: int, n: nat, pageSize: int, grants: int -> bool,
                                      done: nat)
    requires done <= n && LockPasses(counts, start, done, pageSize, grants)
    requires done < n ==> !MayLock(counts, PageAt(start, done, pageSize), grants)
    ensures LockStop(counts, start, n, pageSize, grants) == done
    decreases n
  {
    hide PageAt, MayLock;
    if n > 0 {
      LockStopIs(counts, start, n - 1, pageSize, grants, Min(done, n - 1));
    }
  }

  lemma {:induction false} UnlockStopIs(counts: Counts, start: int, n: nat, pageSize: int, grants: int -> bool,
                                        done: nat)
    requires done <= n && UnlockPasses(counts, start, done, pageSize, grants)
    requires done < n ==> !MayUnlock(counts, PageAt(start, done, pageSize), grants)
    ensures UnlockStop(counts, start, n, pageSize, grants) == done
    decreases n
  {
    hide PageAt, MayUnlock;
    if n > 0 {
      UnlockStopIs(counts, start, n - 1, pageSize, grants, Min(done, n - 1));
    }
  }

  /** A call to a manager, with what the operating system answers; an unlock is for what the `i`-th lock asked for. */
  datatype Call = Lock(address: int, size: int, grants: int -> bool) | Unlock(i: nat, grants: int -> bool)

  /** What a lock asked for, until it is unlocked. */
  datatype Asked = Asked(address: int, size: int, live: bool)

  /** The counts, the locks asked for so far, and what is outstanding of each. */
  datatype History = History(counts: Counts, asked: seq<Asked>, ranges: seq<PageRange>)

  predicate Sensible(address: int, size: int, pageSize: int)
    requires pageSize > 0
  {
    0 < address < MAX_ADDRESS && 0 < size < MAX_ADDRESS && Ends(address, size, pageSize)
  }

  function WholeRange(address: int, size: int, pageSize: int): PageRange
    requires pageSize > 0 && address >= 0
  {
    PageRange(address / pageSize * pageSize, Touched(address, LastAddress(address, size), pageSize))
  }

  ghost predicate Proper(h: History, pageSize: int)
    requires pageSize > 0
  {
    && |h.asked| == |h.ranges|
    && (forall page | page in h.counts :: h.counts[page] >= 1)
    && forall i | 0 <= i < |h.asked| && h.asked[i].live ::
         && Sensible(h.asked[i].address, h.asked[i].size, pageSize)
         && h.ranges[i].start == WholeRange(h.asked[i].address, h.asked[i].size, pageSize).start
         && h.ranges[i].n <= WholeRange(h.asked[i].address, h.asked[i].size, pageSize).n
  }

  /** A lock obtains the pages before the first refusal. A call that makes no sense changes nothing. */
  function AfterLock(h: History, address: int, size: int, grants: int -> bool, pageSize: int): (h': History)
    requires pageSize > 0 && |h.asked| == |h.ranges|
    ensures |h'.asked| == |h'.ranges|
  {
    if !Sensible(address, size, pageSize) then h
    else
      var w := WholeRange(address, size, pageSize);
      var k := LockStop(h.counts, w.start, w.n, pageSize, grants);
      History(Raised(h.counts, w.start, k, pageSize), h.asked + [Asked(address, size, true)],
              h.ranges + [PageRange(w.start, k)])
  }

  /**
    An unlock goes through all the lock asked for, also what it did not obtain, until a refusal. What it did not get
    to stays outstanding. A lock is unlocked once.
   */
  function AfterUnlock(h: History, i: nat, grants: int -> bool, pageSize: int): History
    requires pageSize > 0 && |h.asked| == |h.ranges|
  {
    if i >= |h.asked| || !h.asked[i].live || h.asked[i].address < 0 then h
    else
      var w := WholeRange(h.asked[i].address, h.asked[i].size, pageSize);
      var k := UnlockStop(h.counts, w.start, w.n, pageSize, grants);
      var gone := Min(k, h.ranges[i].n);
      History(Lowered(h.counts, w.start, k, pageSize), h.asked[i := h.asked[i].(live := false)],
              h.ranges[i := PageRange(PageAt(w.start, gone, pageSize), h.ranges[i].n - gone)])
  }

  function AfterCall(h: History, call: Call, pageSize: int): History
    requires pageSize > 0 && |h.asked| == |h.ranges|
  {
    match call
    case Lock(address, size, grants) => AfterLock(h, address, size, grants, pageSize)
    case Unlock(i, grants) => AfterUnlock(h, i, grants, pageSize)
  }

  /** The history of some calls. */
  function After(calls: seq<Call>, pageSize: int): (h: History)
    requires pageSize > 0
    ensures |h.asked| == |h.ranges|
  {
    if calls == [] then History(map[], [], [])
    else AfterCall(After(calls[..|calls| - 1], pageSize), calls[|calls| - 1], pageSize)
  }

  lemma {:induction false} RaisedPositive(counts: Counts, start: int, n: nat, pageSize: int)
    requires pageSize > 0 && forall page | page in counts :: counts[page] >= 1
    ensures forall page | page in Raised(counts, start, n, pageSize) :: Raised(counts, start, n, pageSize)[page] >= 1
    ensures forall page | page in Lowered(counts, start, n, pageSize) :: Lowered(counts, start, n, pageSize)[page] >= 1
    decreases n
  {
    hide PageAt;
    if n > 0 { RaisedPositive(counts, start, n - 1, pageSize); }
  }

  lemma ProperCall(h: History, call: Call, pageSize: int)
    requires pageSize > 0 && Proper(h, pageSize)
    ensures Proper(AfterCall(h, call, pageSize), pageSize)
  {
    hide Raised, Lowered, PageAt, Touched, LastAddress, Ends;
    match call
    case Lock(address, size, grants) =>
      if Sensible(address, size, pageSize) {
        var w := WholeRange(address, size, pageSize);
        RaisedPositive(h.counts, w.start, LockStop(h.counts, w.start, w.n, pageSize, grants), pageSize);
      }
    case Unlock(i, grants) =>
      if i < |h.asked| && h.asked[i].live {
        var w := WholeRange(h.asked[i].address, h.asked[i].size, pageSize);
        RaisedPositive(h.counts, w.start, UnlockStop(h.counts, w.start, w.n, pageSize, grants), pageSize);
      }
  }

  lemma {:induction false} ProperHistory(calls: seq<Call>, pageSize: int)
    requires pageSize > 0
    ensures Proper(After(calls, pageSize), pageSize)
    decreases |calls|
  {
    hide AfterCall, Proper;
    if calls == [] {
      ProperStart(pageSize);
    } else {
      ProperHistory(calls[..|calls| - 1], pageSize);
      ProperCall(After(calls[..|calls| - 1], pageSize), calls[|calls| - 1], pageSize);
    }
  }

  lemma ProperStart(pageSize: int)
    requires pageSize > 0
    ensures Proper(History(map[], [], []), pageSize)
  {
  }

  /** An unlock takes no lock but its own: what it asks for beyond what was obtained is not counted for anyone. */
  ghost predicate Clean(h: History, i: nat, grants: int -> bool, pageSize: int)
    requires pageSize > 0 && |h.asked| == |h.ranges|
  {
    i < |h.asked| && h.asked[i].live && h.asked[i].address >= 0 ==>
      var w := WholeRange(h.asked[i].address, h.asked[i].size, pageSize);
      forall j | h.ranges[i].n <= j < UnlockStop(h.counts, w.start, w.n, pageSize, grants) ::
        PageAt(w.start, j, pageSize) !in h.counts
  }

  /** Unlocking what was obtained in full is clean. */
  lemma FullIsClean(h: History, i: nat, grants: int -> bool, pageSize: int)
    requires pageSize > 0 && |h.asked| == |h.ranges| && i < |h.asked| && h.asked[i].address >= 0
    requires h.ranges[i] == WholeRange(h.asked[i].address, h.asked[i].size, pageSize)
    ensures Clean(h, i, grants, pageSize)
  {
    hide PageAt, Touched, LastAddress;
  }

  /** Locking a range, or the part of it before a refusal, adds it to what is outstanding. */
  lemma LockBalanced(counts: Counts, ranges: seq<PageRange>, pageSize: int, r: PageRange)
    requires pageSize > 0 && Balanced(counts, ranges, pageSize)
    ensures Balanced(Raised(counts, r.start, r.n, pageSize), ranges + [r], pageSize)
  {
    hide Covers, Raised, Covering;
    forall page ensures BalancedAt(Raised(counts, r.start, r.n, pageSize), ranges + [r], pageSize, page) {
      RaisedAt(counts, r.start, r.n, pageSize, page);
      CoveringMore(ranges, r, page, pageSize);
      assert BalancedAt(counts, ranges, pageSize, page);
    }
  }

  /** What an unlock of `k` pages does to one page, when `kept` of them are its own. */
  lemma UnlockAt(counts: Counts, ranges: seq<PageRange>, pageSize: int, i: int, k: nat, page: int)
    requires pageSize > 0 && BalancedAt(counts, ranges, pageSize, page) && 0 <= i < |ranges|
    requires page in counts ==> counts[page] >= 1
    ensures var own := ranges[i];
      var gone := Min(k, own.n);
      var extra := PageRange(PageAt(own.start, gone, pageSize), k - gone);
      var after := ranges[i := PageRange(PageAt(own.start, gone, pageSize), own.n - gone)];
      BalancedAt(Lowered(counts, own.start, k, pageSize), after, pageSize, page) <==>
        !(Covers(extra, page, pageSize) && page in counts)
  {
    hide Covers, Lowered, Covering, PageAt;
    var own := ranges[i];
    var gone := Min(k, own.n);
    LoweredAt(counts, own.start, k, pageSize, page);
    CoversSplit(own.start, own.n, gone, pageSize, page);
    CoversSplit(own.start, k, gone, pageSize, page);
    CoveringUpdate(ranges, i, PageRange(PageAt(own.start, gone, pageSize), own.n - gone), page, pageSize);
    if gone == k { CoversNothing(PageAt(own.start, gone, pageSize), pageSize, page); }
  }

  /** The counts stay right over an unlock if and only if it is clean. */
  lemma UnlockBalancedExactly(h: History, i: nat, grants: int -> bool, pageSize: int)
    requires pageSize > 0 && Proper(h, pageSize) && Balanced(h.counts, h.ranges, pageSize)
    ensures var after := AfterUnlock(h, i, grants, pageSize);
      Balanced(after.counts, after.ranges, pageSize) <==> Clean(h, i, grants, pageSize)
  {
    hide Covers, Lowered, Covering, PageAt, Touched, LastAddress, Ends, BalancedAt, UnlockStop;
    if i < |h.asked| && h.asked[i].live {
      var w := WholeRange(h.asked[i].address, h.asked[i].size, pageSize);
      var k := UnlockStop(h.counts, w.start, w.n, pageSize, grants);
      var own := h.ranges[i];
      var gone := Min(k, own.n);
      var extra := PageRange(PageAt(own.start, gone, pageSize), k - gone);
      var after := AfterUnlock(h, i, grants, pageSize);
      forall page ensures BalancedAt(after.counts, after.ranges, pageSize, page) <==>
                          !(Covers(extra, page, pageSize) && page in h.counts) {
        assert BalancedAt(h.counts, h.ranges, pageSize, page);
        UnlockAt(h.counts, h.ranges, pageSize, i, k, page);
      }
      ExtraPages(own.start, own.n, k, pageSize, h.counts);
    }
  }

  /** The pages of the excess, counted from the start of the range. */
  lemma ExtraPages(start: int, own: nat, k: nat, pageSize: int, counts: Counts)
    requires pageSize > 0
    ensures var gone := Min(k, own);
      var extra := PageRange(PageAt(start, gone, pageSize), k - gone);
      (forall page :: !(Covers(extra, page, pageSize) && page in counts)) <==>
        (forall j | own <= j < k :: PageAt(start, j, pageSize) !in counts)
  {
    var gone := Min(k, own);
    var from := PageAt(start, gone, pageSize);
    var extra := PageRange(from, k - gone);
    forall j | 0 <= j < k - gone ensures PageAt(from, j, pageSize) == PageAt(start, gone + j, pageSize) {
      assert gone * pageSize + j * pageSize == (gone + j) * pageSize;
    }
    if forall page :: !(Covers(extra, page, pageSize) && page in counts) {
      forall j | own <= j < k ensures PageAt(start, j, pageSize) !in counts {
        assert PageAt(from, j - gone, pageSize) == PageAt(start, j, pageSize);
        assert Covers(extra, PageAt(start, j, pageSize), pageSize);
      }
    }
    if forall j | own <= j < k :: PageAt(start, j, pageSize) !in counts {
      forall page ensures !(Covers(extra, page, pageSize) && page in counts) {
        if Covers(extra, page, pageSize) {
          var j :| 0 <= j < k - gone && PageAt(from, j, pageSize) == page;
          assert PageAt(start, gone + j, pageSize) !in counts;
        }
      }
    }
  }

  /**
    A lock refused on its second page and unlocked in full, as its caller does without looking at the answer, takes
    away the lock that another caller holds on that page.
   */
  lemma RefusedThenUnlocked(h: History, p: int, refuses: int -> bool, grants: int -> bool)
    requires 512 <= p <= 0x4000_0000 && h == History(map[], [], [])
    requires refuses(p) && !refuses(2 * p) && grants(p) && grants(2 * p)
    ensures var h1 := AfterLock(h, p, 2 * p, refuses, p);
      var h2 := AfterLock(h1, 2 * p, p, grants, p);
      var h3 := AfterUnlock(h2, 0, grants, p);
      && h2 == History(map[p := 1, 2 * p := 1], [Asked(p, 2 * p, true), Asked(2 * p, p, true)],
                       [PageRange(p, 1), PageRange(2 * p, 1)])
      && h3 == History(map[], [Asked(p, 2 * p, false), Asked(2 * p, p, true)],
                       [PageRange(2 * p, 0), PageRange(2 * p, 1)])
      && !Clean(h2, 0, grants, p)
  {
    hide Raised, Lowered, LockStop, UnlockStop, PageAt, Ends, LastAddress, Touched, WholeRange, Sensible;
    TwoPages(p);
    RefusedPages(p, refuses);
    GrantedPages(map[p := 1], p, grants);
    TakenPages(p, grants);
  }

  /** A range of whole pages that ends far from the end of the address space. */
  lemma LowRange(first: int, n: nat, p: int)
    requires 512 <= p <= 0x4000_0000 && 0 < first <= 2 && 0 < n <= 2
    ensures Sensible(first * p, n * p, p) && WholeRange(first * p, n * p, p) == PageRange(first * p, n)
  {
    hide Touched;
    assert 0 < first * p <= 2 * p && 0 < n * p <= 2 * p;
    LowLast(first * p, n * p);
    hide LastAddress;
    assert first * p + n * p - 1 == (first + n - 1) * p + (p - 1);
    DivUnique(first * p, p, first, 0);
    DivUnique(first * p + n * p - 1, p, first + n - 1, p - 1);
    assert (first + n - 1) * p <= 4 * p;
    assert Touched(first * p, first * p + n * p - 1, p) == n by { TouchedIs(first * p, first * p + n * p - 1, p); }
  }

  lemma LowLast(address: int, size: int)
    requires 0 < address && 0 < size && address + size <= MAX_ADDRESS
    ensures LastAddress(address, size) == address + size - 1
  {
  }

  lemma TouchedIs(first: nat, last: nat, p: int)
    requires p > 0 && first / p <= last / p
    ensures Touched(first, last, p) == last / p - first / p + 1
  {
  }

  lemma TwoPages(p: int)
    requires 512 <= p <= 0x4000_0000
    ensures Sensible(p, 2 * p, p) && WholeRange(p, 2 * p, p) == PageRange(p, 2)
    ensures Sensible(2 * p, p, p) && WholeRange(2 * p, p, p) == PageRange(2 * p, 1)
    ensures PageAt(p, 0, p) == p && PageAt(p, 1, p) == 2 * p && PageAt(2 * p, 0, p) == 2 * p
  {
    hide Sensible, WholeRange;
    LowRange(1, 2, p);
    LowRange(2, 1, p);
  }

  lemma RefusedPages(p: int, refuses: int -> bool)
    requires 512 <= p <= 0x4000_0000 && refuses(p) && !refuses(2 * p)
    ensures LockStop(map[], p, 2, p, refuses) == 1 && Raised(map[], p, 1, p) == map[p := 1]
  {
    hide PageAt, WholeRange, Sensible;
    TwoPages(p);
    LockStopIs(map[], p, 2, p, refuses, 1);
    assert Raised(map[], p, 0, p) == map[];
  }

  lemma GrantedPages(counts: Counts, p: int, grants: int -> bool)
    requires 512 <= p <= 0x4000_0000 && grants(2 * p) && 2 * p !in counts
    ensures LockStop(counts, 2 * p, 1, p, grants) == 1 && Raised(counts, 2 * p, 1, p) == counts[2 * p := 1]
  {
    hide PageAt, WholeRange, Sensible;
    TwoPages(p);
    LockStopIs(counts, 2 * p, 1, p, grants, 1);
    assert Raised(counts, 2 * p, 0, p) == counts;
  }

  lemma TakenPages(p: int, grants: int -> bool)
    requires 512 <= p <= 0x4000_0000 && grants(p) && grants(2 * p)
    ensures var counts := map[p := 1, 2 * p := 1];
      UnlockStop(counts, p, 2, p, grants) == 2 && Lowered(counts, p, 2, p) == map[]
  {
    hide PageAt, WholeRange, Sensible;
    TwoPages(p);
    var counts := map[p := 1, 2 * p := 1];
    UnlockStopIs(counts, p, 2, p, grants, 2);
    assert Lowered(counts, p, 0, p) == counts;
    assert Lowered(counts, p, 1, p) == map[2 * p := 1];
  }

  ghost predicate CleanCall(h: History, call: Call, pageSize: int)
    requires pageSize > 0 && |h.asked| == |h.ranges|
  {
    call.Unlock? ==> Clean(h, call.i, call.grants, pageSize)
  }

  lemma CallBalancedExactly(h: History, call: Call, pageSize: int)
    requires pageSize > 0 && Proper(h, pageSize) && Balanced(h.counts, h.ranges, pageSize)
    ensures var after := AfterCall(h, call, pageSize);
      Balanced(after.counts, after.ranges, pageSize) <==> CleanCall(h, call, pageSize)
  {
    hide Balanced, Proper, Clean, Raised, LockStop, AfterUnlock, Touched, LastAddress, Ends;
    match call
    case Lock(address, size, grants) =>
      if Sensible(address, size, pageSize) {
        var w := WholeRange(address, size, pageSize);
        var k := LockStop(h.counts, w.start, w.n, pageSize, grants);
        LockBalanced(h.counts, h.ranges, pageSize, PageRange(w.start, k));
      }
    case Unlock(i, grants) => UnlockBalancedExactly(h, i, grants, pageSize);
  }

  ghost predicate BalancedAfter(calls: seq<Call>, pageSize: int)
    requires pageSize > 0
  {
    Balanced(After(calls, pageSize).counts, After(calls, pageSize).ranges, pageSize)
  }

  ghost predicate CleanAt(calls: seq<Call>, j: int, pageSize: int)
    requires pageSize > 0 && 0 <= j < |calls|
  {
    CleanCall(After(calls[..j], pageSize), calls[j], pageSize)
  }

  /**
    Over any history a page is counted, all the time, as often as what is outstanding covers it, if and only if every
    unlock is clean.
   */
  lemma {:induction false} AlwaysBalanced(calls: seq<Call>, pageSize: int)
    requires pageSize > 0
    ensures (forall j | 0 <= j <= |calls| :: BalancedAfter(calls[..j], pageSize)) <==>
            (forall j | 0 <= j < |calls| :: CleanAt(calls, j, pageSize))
    decreases |calls|
  {
    hide Balanced, CleanCall, AfterCall;
    assert calls[..|calls|] == calls;
    if calls == [] {
      NothingBalanced(pageSize);
    } else {
      var n := |calls| - 1;
      var front := calls[..n];
      AlwaysBalanced(front, pageSize);
      forall j | 0 <= j <= n ensures front[..j] == calls[..j] {
      }
      forall j | 0 <= j < n ensures CleanAt(front, j, pageSize) <==> CleanAt(calls, j, pageSize) {
        assert front[..j] == calls[..j];
      }
      forall j | 0 <= j <= n ensures BalancedAfter(front[..j], pageSize) <==> BalancedAfter(calls[..j], pageSize) {
        assert front[..j] == calls[..j];
      }
      ProperHistory(front, pageSize);
      if BalancedAfter(front, pageSize) {
        CallBalancedExactly(After(front, pageSize), calls[n], pageSize);
      }
      assert BalancedAfter(front, pageSize) ==> (BalancedAfter(calls, pageSize) <==> CleanAt(calls, n, pageSize));
      assert front[..n] == front;
      if forall j | 0 <= j <= |calls| :: BalancedAfter(calls[..j], pageSize) {
        assert BalancedAfter(calls[..n], pageSize) && BalancedAfter(calls[..|calls|], pageSize);
      }
      if forall j | 0 <= j < |calls| :: CleanAt(calls, j, pageSize) {
        assert CleanAt(calls, n, pageSize);
      }
    }
  }

  lemma NothingBalanced(pageSize: int)
    ensures Balanced(map[], [], pageSize)
  {
  }

  /** With nothing outstanding nothing is counted. */
  lemma BalancedEmpty(counts: Counts, ranges: seq<PageRange>, pageSize: int)
    requires Balanced(counts, ranges, pageSize) && forall r | r in ranges :: r.n == 0
    ensures counts == map[]
  {
    forall page ensures page !in counts {
      CoveredByNone(ranges, pageSize, page);
      assert BalancedAt(counts, ranges, pageSize, page);
    }
  }

  lemma {:induction false} CoveredByNone(ranges: seq<PageRange>, pageSize: int, page: int)
    requires forall r | r in ranges :: r.n == 0
    ensures Covering(ranges, page, pageSize) == 0
    decreases |ranges|
  {
    if ranges != [] {
      CoveredByNone(ranges[..|ranges| - 1], pageSize, page);
    }
  }

  /**
    A manager run over any calls, with any answers of the operating system, is at the history of these calls. If all
    its unlocks are clean, pages are counted as often as what is outstanding covers them, and nothing is counted once
    nothing is outstanding.
   */
  method RunLocks(pageSize: int, calls: seq<Call>) returns (m: Manager)
    requires 512 <= pageSize <= 0x4000_0000 && BitAnd(pageSize, pageSize - 1) == 0
    ensures fresh(m) && m.Valid() && m.pageSize == pageSize
    ensures m.counts == After(calls, pageSize).counts
    ensures (forall j | 0 <= j < |calls| :: CleanAt(calls, j, pageSize)) ==>
      && Balanced(m.counts, After(calls, pageSize).ranges, pageSize)
      && ((forall r | r in After(calls, pageSize).ranges :: r.n == 0) ==> m.counts == map[])
  {
    hide BitAnd, Balanced, Alternates, AfterCall, CleanAt, Proper;
    m := new Manager(pageSize);
    var asked: seq<Asked> := [];
    var k := 0;
    assert calls[..0] == [];
    while k < |calls|
      invariant 0 <= k <= |calls|
      invariant fresh(m) && m.Valid() && m.pageSize == pageSize
      invariant m.counts == After(calls[..k], pageSize).counts && asked == After(calls[..k], pageSize).asked
    {
      ProperHistory(calls[..k], pageSize);
      assert calls[..k + 1][..k] == calls[..k];
      asked := Make(m, calls[k], asked, After(calls[..k], pageSize));
      k := k + 1;
    }
    assert calls[..k] == calls;
    AlwaysBalanced(calls, pageSize);
    if forall j | 0 <= j < |calls| :: CleanAt(calls, j, pageSize) {
      assert BalancedAfter(calls[..|calls|], pageSize);
      if forall r | r in After(calls, pageSize).ranges :: r.n == 0 {
        BalancedEmpty(m.counts, After(calls, pageSize).ranges, pageSize);
      }
    }
  }

  /** One call. */
  method Make(m: Manager, call: Call, asked: seq<Asked>, ghost h: History) returns (asked': seq<Asked>)
    requires m.Valid() && Proper(h, m.pageSize) && m.counts == h.counts && asked == h.asked
    modifies m
    ensures m.Valid()
    ensures m.counts == AfterCall(h, call, m.pageSize).counts && asked' == AfterCall(h, call, m.pageSize).asked
  {
    hide BitAnd, Alternates, Raised, Lowered, PageAt, Touched, LastAddress, Ends, LockPasses, UnlockPasses, LockStop,
         UnlockStop, MayLock, MayUnlock;
    asked' := asked;
    match call
    case Lock(address, size, grants) =>
      if Sensible(address, size, m.pageSize) {
        var r, done := m.LockRange(address, size, grants);
        ghost var w := WholeRange(address, size, m.pageSize);
        LockStopIs(h.counts, w.start, w.n, m.pageSize, grants, done);
        asked' := asked + [Asked(address, size, true)];
      }
    case Unlock(i, grants) =>
      if i < |asked| && asked[i].live {
        var a := asked[i];
        var r, done := m.UnlockRange(a.address, a.size, grants);
        ghost var w := WholeRange(a.address, a.size, m.pageSize);
        UnlockStopIs(h.counts, w.start, w.n, m.pageSize, grants, done);
        asked' := asked[i := a.(live := false)];
      }
  }
}
