/**
 How many pages pmm_init leaves to hand out, and when the test of the counter in pmm_alloc refuses
 a request although a page is clear.
 */
module PmmCapacity {
  import opened Addresses
  import opened PageFrames
  import opened Pmm

  /** The usable entries share no byte. */
  ghost predicate Separate(es: seq<Entry>) {
    forall k, l :: 0 <= k < l < |es| && es[k].kind == USABLE && es[l].kind == USABLE ==>
      es[k].base + es[k].length <= es[l].base || es[l].base + es[l].length <= es[k].base
  }

  lemma {:induction false} CarvedSeparate(es: seq<Entry>)
    requires MapOk(es)
    ensures Separate(CarvedMap(es))
  {
    CarvedEntry(es);
    hide TopOf, BitmapSize, Carved, HostOf;
  }

  // -------------------------------------------------------------------- counting

  lemma {:induction false} ClearPrefix(used: seq<bool>, n: nat)
    requires n <= |used|
    ensures ClearIn(used, 0, n) == ClearCount(used[..n])
  {
    if n > 0 {
      ClearPrefix(used, n - 1);
      assert used[..n][..n - 1] == used[..n - 1];
    }
  }

  /** Behind the last clear page nothing is left to count. */
  lemma {:induction false} ClearBelow(used: seq<bool>, n: nat, m: nat)
    requires n <= m <= |used| && RangeIs(used, n, m - n, true)
    ensures ClearIn(used, 0, n) == ClearIn(used, 0, m)
    decreases m
  {
    if n < m { ClearBelow(used, n, m - 1); }
  }

  /** The bits with the pages of the first n usable entries cleared. */
  function Freed(es: seq<Entry>, n: nat, bits: seq<bool>): (r: seq<bool>)
    requires n <= |es| && WholePages(es, |bits|)
    ensures |r| == |bits|
  {
    if n == 0 then bits
    else
      var e, r := es[n - 1], Freed(es, n - 1, bits);
      if e.kind == USABLE then EntryFits(e, |bits|); SetRange(r, e.base / PAGE_SIZE, e.length / PAGE_SIZE, false)
      else r
  }

  lemma {:induction false} EntryFits(e: Entry, bits: nat)
    requires e.base >= 0 && e.length >= 0 && e.base % PAGE_SIZE == 0 && e.length % PAGE_SIZE == 0
    requires e.base + e.length <= PAGE_SIZE * bits
    ensures e.base / PAGE_SIZE >= 0 && e.length / PAGE_SIZE >= 0
    ensures e.base / PAGE_SIZE + e.length / PAGE_SIZE <= bits
  {
  }

  lemma {:induction false} FreedIs(es: seq<Entry>, n: nat, bits: seq<bool>, p: nat)
    requires n <= |es| && WholePages(es, |bits|) && p < |bits| && bits[p]
    ensures !Freed(es, n, bits)[p] <==> Usable(es, n, p)
  {
    if n > 0 {
      var e := es[n - 1];
      FreedIs(es, n - 1, bits, p);
      UsableNext(es, n - 1, p);
      if e.kind == USABLE { CoversPages(e, p); EntryFits(e, |bits|); }
    }
  }

  /** A page of one usable entry is in none of the others. */
  lemma {:induction false} Uncovered(es: seq<Entry>, n: nat, p: nat)
    requires n < |es| && Separate(es) && Covers(es[n], p)
    ensures !Usable(es, n, p)
  {
  }

  /** Clearing the pages of separate entries clears as many pages as the entries have. */
  lemma {:induction false} FreedCount(es: seq<Entry>, n: nat, bits: seq<bool>)
    requires n <= |es| && WholePages(es, |bits|) && Separate(es) && RangeIs(bits, 0, |bits|, true)
    ensures ClearCount(Freed(es, n, bits)) == UsablePages(es, n)
    decreases n
  {
    hide Usable, Separate, ClearCount;
    if n == 0 {
      NoneClearAll(bits);
    } else {
      var e, r := es[n - 1], Freed(es, n - 1, bits);
      FreedCount(es, n - 1, bits);
      if e.kind == USABLE {
        EntryFits(e, |bits|);
        var b, l := e.base / PAGE_SIZE, e.length / PAGE_SIZE;
        forall p | b <= p < b + l ensures r[p] {
          CoversPages(e, p);
          Uncovered(es, n - 1, p);
          FreedIs(es, n - 1, bits, p);
        }
        assert RangeIs(r, b, l, true);
        ClearCountRange(r, b, l, false);
      }
    }
  }

  lemma {:induction false} NoneClearAll(bits: seq<bool>)
    requires RangeIs(bits, 0, |bits|, true)
    ensures ClearCount(bits) == 0
  {
    ClearPrefix(bits, |bits|);
    assert bits[..|bits|] == bits;
  }

  // ------------------------------------------------------------ after pmm_init

  /** Page 0 is usable, and pmm_init took it back after counting it as free. */
  ghost function ZeroPage(es: seq<Entry>): (z: nat)
    requires MapOk(es)
    ensures z <= 1
  {
    if Usable(CarvedMap(es), |es|, 0) then 1 else 0
  }

  /** The pages left to hand out. */
  ghost function FreePages(es: seq<Entry>): int
    requires MapOk(es)
  {
    UsablePages(CarvedMap(es), |es|) - ZeroPage(es)
  }

  function AllSet(n: nat): (r: seq<bool>)
    ensures |r| == n && RangeIs(r, 0, n, true)
  {
    seq(n, i => true)
  }

  /** No usable page lies above the highest counted address. */
  lemma {:induction false} UsableBelowTop(es: seq<Entry>, p: nat)
    requires MapOk(es) && Usable(es, |es|, p)
    ensures p < TopOf(es, |es|) / PAGE_SIZE
  {
    hide BitmapSize;
    var k :| 0 <= k < |es| && Covers(es[k], p);
    WholeDifference(es[k].base, es[k].length, es[k].length);
    LastPage(es[k].base + es[k].length, TopOf(es, |es|), p);
  }

  lemma {:induction false} LastPage(end: int, top: int, p: nat)
    requires end % PAGE_SIZE == 0 && PAGE_SIZE * p < end <= top
    ensures p < top / PAGE_SIZE
  {
  }

  lemma {:induction false} CarvedBelowTop(es: seq<Entry>, p: nat)
    requires MapOk(es) && Usable(CarvedMap(es), |es|, p)
    ensures p < TopOf(es, |es|) / PAGE_SIZE
  {
    hide Usable, CarvedMap, InStorage, MapOk, TopOf;
    CarvedCovers(es, p);
    UsableBelowTop(es, p);
  }

  /** All usable pages cleared, as before step 7: their count, and nothing clear above the top. */
  lemma {:induction false} AllFreed(es: seq<Entry>, n: nat) returns (r: seq<bool>)
    requires MapOk(es) && n == 8 * BitmapSize(TopOf(es, |es|))
    ensures |r| == n && forall p :: 0 <= p < n ==> (!r[p] <==> Usable(CarvedMap(es), |es|, p))
    ensures ClearCount(r) == UsablePages(CarvedMap(es), |es|)
    ensures TopOf(es, |es|) / PAGE_SIZE <= n && UsablePages(CarvedMap(es), |es|) <= TopOf(es, |es|) / PAGE_SIZE
  {
    hide Usable, CarvedMap, MapOk, TopOf, BitmapSize, WholePages, Separate, UsablePages, ClearCount, Freed, AllSet;
    var carved, bits := CarvedMap(es), AllSet(n);
    MapFacts(es);
    CarvedSeparate(es);
    r := Freed(carved, |es|, bits);
    FreedCount(carved, |es|, bits);
    forall p: nat | p < n
      ensures (!r[p] <==> Usable(carved, |es|, p)) && (p >= TopOf(es, |es|) / PAGE_SIZE ==> r[p])
    {
      FreedIs(carved, |es|, bits, p);
      if Usable(carved, |es|, p) { CarvedBelowTop(es, p); }
    }
    var pages := TopOf(es, |es|) / PAGE_SIZE;
    ClearBelow(r, pages, n);
    ClearPrefix(r, n);
    assert r[..n] == r;
  }

  /** After pmm_init as many pages are clear, all of them searched, as the usable entries have without the
      bitmap's storage and without page 0. */
  lemma {:induction false} FreeCount(s: Frames, es: seq<Entry>)
    requires Started(s, es)
    ensures ClearCount(s.used) == ClearIn(s.used, 0, s.pages) == FreePages(es)
  {
    hide Usable, CarvedMap, TopOf, BitmapSize, UsablePages, ClearCount, InStorage, MapOk;
    var n := |s.used|;
    var r := AllFreed(es, n);
    MapFacts(es);
    forall p | 0 <= p < n ensures s.used[p] == r[0 := true][p] {
      CarvedCovers(es, p);
    }
    assert s.used == r[0 := true];
    ClearCountUpdate(r, 0, true);
    forall p | s.pages <= p < n ensures s.used[p] {
      if Usable(es, |es|, p) { UsableBelowTop(es, p); }
    }
    ClearBelow(s.used, s.pages, n);
    ClearPrefix(s.used, n);
    assert s.used[..n] == s.used;
  }

  /** Each of k one-page requests in a row is served. */
  ghost predicate AllServed(s: Frames, k: nat)
    requires FramesOk(s)
    decreases k
  {
    k == 0 || (Served(s, 1) >= 0 && FramesOk(Taken(s, 1)) && AllServed(Taken(s, 1), k - 1))
  }

  /** With page 0 in use, k requests are served exactly when k pages are clear and the counter starts above
      zero and does not reach zero again before the last of them. */
  lemma {:induction false} AllServedIff(s: Frames, k: nat)
    requires FramesOk(s) && (s.pages > 0 ==> s.used[0])
    ensures AllServed(s, k)
         <==> k == 0 || (k <= ClearIn(s.used, 0, s.pages) && 0 < s.counter && s.counter + k <= COUNTER)
    decreases k
  {
    hide FirstClear, ClearIn, Wrap32, SetRange;
    if k > 0 {
      ClearFirst(s);
      if Served(s, 1) >= 0 {
        TakeOne(s);
        AllServedIff(Taken(s, 1), k - 1);
      }
    }
  }

  /** A clear page is found exactly when there is one, and it is not page 0. */
  lemma {:induction false} ClearFirst(s: Frames)
    requires FramesOk(s) && (s.pages > 0 ==> s.used[0])
    ensures Served(s, 1) >= 0 <==> s.counter > 0 && ClearIn(s.used, 0, s.pages) > 0
  {
    NoneClear(s.used, s.pages);
  }

  lemma {:induction false} TakeOne(s: Frames)
    requires FramesOk(s) && Served(s, 1) >= 0 && (s.pages > 0 ==> s.used[0])
    ensures FramesOk(Taken(s, 1)) && Taken(s, 1).pages == s.pages && (s.pages > 0 ==> Taken(s, 1).used[0])
    ensures ClearIn(Taken(s, 1).used, 0, s.pages) == ClearIn(s.used, 0, s.pages) - 1
    ensures Taken(s, 1).counter == if s.counter + 1 == COUNTER then 0 else s.counter + 1
  {
    var f := FirstClear(s.used, s.pages);
    assert SetRange(s.used, f, 1, true) == s.used[f := true];
    ClearInUpdate(s.used, s.pages, f);
    NextCounter(s.counter);
  }

  lemma {:induction false} NextCounter(c: int)
    requires 0 <= c < COUNTER
    ensures Wrap32(c + 1) == if c + 1 == COUNTER then 0 else c + 1
  {
  }

  /** After pmm_init, k one-page requests in a row are served exactly when that many pages are left and the
      counter, whatever it was left at, neither is zero nor runs over. */
  lemma {:induction false} ServesAfterInit(s: Frames, es: seq<Entry>, k: nat)
    requires Started(s, es)
    ensures CanServe(s, k) <==> k <= FreePages(es) && 0 < s.counter && s.counter + k < COUNTER
    ensures AllServed(s, k) <==> k == 0 || (k <= FreePages(es) && 0 < s.counter && s.counter + k <= COUNTER)
  {
    hide Usable, CarvedMap, TopOf, BitmapSize, UsablePages, ClearIn, InStorage, MapOk, FreePages, ClearCount;
    FreeCount(s, es);
    MapFacts(es);
    AllServedIff(s, k);
  }

  /** In numbers: with more pages counted for the memory size than there are usable ones, every free page can be
      handed out; with as many, none; and with fewer, as above 16 GiB, that many are kept back. */
  lemma {:induction false} ServedExactly(s: Frames, es: seq<Entry>, k: nat)
    requires Started(s, es)
    ensures var counted, usable := MaxPages(TopOf(es, |es|)), UsablePages(CarvedMap(es), |es|);
            AllServed(s, k)
            <==> k == 0 || (counted != usable && k <= FreePages(es) && (counted < usable ==> k <= usable - counted))
  {
    hide Usable, CarvedMap, TopOf, UsablePages, MapOk, AllServed, FreeAfterInit, BitmapSize, Wrap32, MaxPages;
    var counted, usable := MaxPages(TopOf(es, |es|)), UsablePages(CarvedMap(es), |es|);
    ServesAfterInit(s, es, k);
    FreeCount(s, es);
    MapFacts(es);
    var r := AllFreed(es, |s.used|);
    CounterOf(counted, usable);
  }

  lemma {:induction false} CounterOf(counted: int, usable: int)
    requires 0 <= counted < COUNTER && 0 <= usable < COUNTER
    ensures Wrap32(counted - usable) == if counted >= usable then counted - usable else counted - usable + COUNTER
  {
    if counted < usable { ModMultiple(counted - usable, 1); }
    SmallWrap32(if counted >= usable then counted - usable else counted - usable + COUNTER);
  }

  /** Below 16 GiB the counter, which starts at one page for every four bytes, stays above zero: only the clear
      pages count. */
  lemma {:induction false} ServesBelow16G(s: Frames, es: seq<Entry>, k: nat)
    requires Started(s, es) && TopOf(es, |es|) < 0x4_0000_0000
    ensures CanServe(s, k) <==> k <= FreePages(es)
    ensures AllServed(s, k) <==> k <= FreePages(es)
  {
    hide Usable, CarvedMap, TopOf, UsablePages, MapOk, CanServe, AllServed, FreeAfterInit, BitmapSize, Wrap32, MaxPages,
         FreePages, ZeroPage, ClearCount;
    ServesAfterInit(s, es, k);
    FreeCount(s, es);
    var r := AllFreed(es, |s.used|);
    SomePages(es);
    CounterBelow16G(TopOf(es, |es|), UsablePages(CarvedMap(es), |es|));
    FreeAtMost(es);
  }

  lemma {:induction false} FreeAtMost(es: seq<Entry>)
    requires MapOk(es)
    ensures FreePages(es) <= UsablePages(CarvedMap(es), |es|)
  {
  }

  /** Eight pages above 16 GiB, the last 8192 pages are kept back. */
  lemma {:induction false} PagesKeptBack(s: Frames, es: seq<Entry>)
    requires Started(s, es) && TopOf(es, |es|) == 0x4_0000_8000 && UsablePages(CarvedMap(es), |es|) > 8192
    ensures AllServed(s, UsablePages(CarvedMap(es), |es|) - 8192)
    ensures !AllServed(s, UsablePages(CarvedMap(es), |es|) - 8191)
  {
    hide Usable, CarvedMap, TopOf, UsablePages, MapOk, AllServed, FreeAfterInit, BitmapSize;
    ServedExactly(s, es, UsablePages(CarvedMap(es), |es|) - 8192);
    ServedExactly(s, es, UsablePages(CarvedMap(es), |es|) - 8191);
  }

  /** There is such a memory map: one usable entry from the second page on. */
  lemma {:induction false} MapAbove16G()
    ensures var es := [Entry(0x1000, 0x4_0000_7000, USABLE)];
            MapOk(es) && TopOf(es, 1) == 0x4_0000_8000 && UsablePages(CarvedMap(es), 1) > 8192
  {
  }

  /** One usable entry: 64 MiB from the second page on. */
  function SmallMachine(): (es: seq<Entry>)
    ensures |es| == 1
  {
    [Entry(0x1000, 0x400_0000, USABLE)]
  }

  lemma {:induction false} SmallMap()
    ensures var es := SmallMachine();
            TopOf(es, 1) == 0x400_1000 && BitmapSize(0x400_1000) == 0x1000
            && MapOk(es) && HostOf(es) == 0 && UsablePages(CarvedMap(es), 1) == 16383
  {
    hide BitmapSize, MapOk;
    SmallTop();
    BitmapSizeIs(0x400_1000, 0, 2048);
    SmallMapOk();
    SmallCarved();
  }

  lemma {:induction false} SmallTop()
    ensures TopOf(SmallMachine(), 1) == 0x400_1000
  {
    assert TopOf(SmallMachine(), 0) == 0;
  }

  lemma {:induction false} SmallMapOk()
    requires TopOf(SmallMachine(), 1) == 0x400_1000 && BitmapSize(0x400_1000) == 0x1000
    ensures MapOk(SmallMachine())
  {
    hide TopOf, BitmapSize;
    assert Hosts(SmallMachine()[0], 0x1000);
  }

  lemma {:induction false} SmallCarved()
    requires MapOk(SmallMachine())
    requires TopOf(SmallMachine(), 1) == 0x400_1000 && BitmapSize(0x400_1000) == 0x1000
    ensures HostOf(SmallMachine()) == 0 && UsablePages(CarvedMap(SmallMachine()), 1) == 16383
  {
    hide TopOf, BitmapSize, MapOk;
    var es := SmallMachine();
    assert FirstHost(es, 0x1000, 0) == -1 && HostOf(es) == 0;
    assert UsablePages(CarvedMap(es), 0) == 0;
  }

  lemma {:induction false} SomePages(es: seq<Entry>)
    requires MapOk(es)
    ensures TopOf(es, |es|) / PAGE_SIZE >= 1
  {
    hide TopOf;
    NoBitmap(TopOf(es, |es|));
  }

  lemma {:induction false} NoBitmap(top: int)
    requires top >= 0 && BitmapSize(top) > 0
    ensures top / PAGE_SIZE >= 1
  {
  }

  lemma {:induction false} CounterBelow16G(top: int, usable: int)
    requires 0 <= top < 0x4_0000_0000 && 1 <= top / PAGE_SIZE && 0 <= usable <= top / PAGE_SIZE
    ensures Wrap32(MaxPages(top) - usable) == top / 4 - usable > 0 && top / 4 < COUNTER
  {
    MaxPagesBelow16G(top);
    SmallWrap32(top / 4 - usable);
  }

  lemma {:induction false} MaxPagesBelow16G(top: int)
    requires 0 <= top < 0x4_0000_0000
    ensures MaxPages(top) == top / 4
  {
    SmallWrap32(top / 4);
  }

  // --------------------------------------------------------- the test of the counter

  /** Whether the counter is zero, told by the clear pages and the balance. */
  lemma {:induction false} CounterZero(s: Frames)
    requires FramesOk(s)
    ensures s.counter == 0 <==> Wrap32(ClearCount(s.used)) == Balance(s)
  {
    hide ClearCount;
    ModEqual(ClearCount(s.used), s.counter);
  }

  /** Though a page is clear, pmm_alloc refuses exactly when the number of clear pages is the balance, modulo
      2^32. */
  lemma {:induction false} RefusedIff(s: Frames)
    requires FramesOk(s) && (s.pages > 0 ==> s.used[0]) && ClearIn(s.used, 0, s.pages) > 0
    ensures Served(s, 1) < 0 <==> Wrap32(ClearCount(s.used)) == Balance(s)
  {
    hide ClearIn, ClearCount, FirstClear, Wrap32;
    CounterZero(s);
    ClearFirst(s);
  }

  /** Some page that is searched is clear. */
  ghost predicate PageLeft(s: Frames) {
    FramesOk(s) && ClearIn(s.used, 0, s.pages) > 0
  }

  /** The state after a run of requests that starts where pmm_init ends. */
  ghost predicate RunsTo(s: Frames, es: seq<Entry>, qs: seq<Request>, r: Frames) {
    Started(s, es) && RunOk(Run(s, {})) && AllAllowed(Run(s, {}), qs) && r == After(Run(s, {}), qs).s
  }

  /** What such a run keeps: the balance of the start, the pages counted for the memory size less one if page 0
      was usable, and every page in use. */
  lemma {:induction false} RunFromStart(s: Frames, es: seq<Entry>, qs: seq<Request>, r: Frames)
    requires RunsTo(s, es, qs, r)
    ensures FramesOk(r) && |r.used| == |s.used| > 0 && r.used[0]
    ensures Balance(r) == Wrap32(MaxPages(TopOf(es, |es|)) - ZeroPage(es))
    ensures forall p :: 0 <= p < |s.used| && s.used[p] ==> r.used[p]
  {
    hide MapOk, Usable, InStorage, AllAllowed, After, Balance, BitmapSize, TopOf, CarvedMap, UsablePages, MaxPages,
         ZeroPage;
    var reserved := set p: nat | p < |s.used| && s.used[p];
    RunKeeps(Run(s, {}), qs, reserved);
    MapFacts(es);
    StartBalance(s, es);
    forall p | 0 <= p < |s.used| && s.used[p] ensures r.used[p] { assert p in reserved; }
    assert 0 in reserved;
  }

  lemma {:induction false} StartBalance(s: Frames, es: seq<Entry>)
    requires Started(s, es)
    ensures Balance(s) == Wrap32(MaxPages(TopOf(es, |es|)) - ZeroPage(es))
  {
    hide MapOk, FreeAfterInit, TopOf, BitmapSize, CarvedMap, UsablePages, MaxPages, ClearCount, ClearIn, ZeroPage;
    FreeCount(s, es);
    ModShift(MaxPages(TopOf(es, |es|)) - UsablePages(CarvedMap(es), |es|), FreePages(es));
  }

  /** After any such run: though a page is clear, pmm_alloc refuses exactly when the number of clear pages is
      what the counter began with, modulo 2^32. */
  lemma {:induction false} RefusedAfterRun(s: Frames, es: seq<Entry>, qs: seq<Request>, r: Frames)
    requires RunsTo(s, es, qs, r) && PageLeft(r)
    ensures Served(r, 1) < 0 <==> Wrap32(ClearCount(r.used)) == Wrap32(MaxPages(TopOf(es, |es|)) - ZeroPage(es))
  {
    hide RunsTo, ClearIn, ClearCount, Balance, Served, ZeroPage, MaxPages, TopOf;
    RunFromStart(s, es, qs, r);
    RefusedIff(r);
  }

  lemma {:induction false} FewerClear(used: seq<bool>, used': seq<bool>)
    requires |used| == |used'| && forall p :: 0 <= p < |used| && used[p] ==> used'[p]
    ensures ClearCount(used') <= ClearCount(used)
  {
    if used != [] { FewerClear(used[..|used| - 1], used'[..|used| - 1]); }
  }

  /** Below 16 GiB it never does, whatever was requested and given back: a page is served whenever one is clear. */
  lemma {:induction false} NeverRefused(s: Frames, es: seq<Entry>, qs: seq<Request>, r: Frames)
    requires RunsTo(s, es, qs, r) && TopOf(es, |es|) < 0x4_0000_0000
    ensures FramesOk(r) && (Served(r, 1) >= 0 <==> PageLeft(r))
  {
    hide MapOk, AllAllowed, After, RunOk, Balance, ClearCount, ClearIn, TopOf, UsablePages, CarvedMap, FreeAfterInit,
         BitmapSize, Served, Wrap32, MaxPages, ZeroPage, FreePages;
    RunFromStart(s, es, qs, r);
    ClearFirst(r);
    if PageLeft(r) {
      var top, pages := TopOf(es, |es|), TopOf(es, |es|) / PAGE_SIZE;
      RefusedAfterRun(s, es, qs, r);
      FewerClear(s.used, r.used);
      FreeCount(s, es);
      SomePages(es);
      BelowBalance(top, ClearCount(r.used), ZeroPage(es));
    }
  }

  lemma {:induction false} BelowBalance(top: int, clear: int, zero: int)
    requires 0 <= top < 0x4_0000_0000 && 1 <= top / PAGE_SIZE && 0 <= clear <= top / PAGE_SIZE && 0 <= zero <= 1
    ensures Wrap32(clear) < Wrap32(MaxPages(top) - zero)
  {
    MaxPagesBelow16G(top);
    SmallWrap32(clear);
    SmallWrap32(top / 4 - zero);
  }
}
