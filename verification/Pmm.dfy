/**
 The physical memory manager: the bitmap allocator's state, its request functions and the
 loops that set it up from the boot loader's memory map.
 */
module Pmm {
  import opened Addresses
  import opened PageFrames
  import Bitmap

  // ---------------------------------------------------------------- memory map

  const USABLE: int := 1
  const BOOTLOADER_RECLAIMABLE: int := 0x1000
  const KERNEL_AND_MODULES: int := 0x1001

  datatype Entry = Entry(base: int, length: int, kind: int)

  /** The entry types that count towards the highest page. */
  predicate Counted(e: Entry) {
    e.kind == USABLE || e.kind == BOOTLOADER_RECLAIMABLE || e.kind == KERNEL_AND_MODULES
  }

  /** The entry covers the whole page p. */
  predicate Covers(e: Entry, p: int) {
    e.kind == USABLE && e.base <= PAGE_SIZE * p < e.base + e.length
  }

  /** The end of the highest counted entry among the first n. */
  function TopOf(es: seq<Entry>, n: nat): (t: int)
    requires n <= |es|
    ensures t >= 0
    ensures forall k :: 0 <= k < n && Counted(es[k]) ==> es[k].base + es[k].length <= t
  {
    if n == 0 then 0
    else
      var t, e := TopOf(es, n - 1), es[n - 1];
      if Counted(e) && e.base + e.length > t then e.base + e.length else t
  }

  /** t is the end of the highest entry that is usable memory (type 1) or holds the boot loader (0x1000) or kernel and
      modules (0x1001), and no entry of another type counts; 0 if there is none. */
  ghost predicate IsTop(es: seq<Entry>, t: int) {
    && (forall k :: 0 <= k < |es| && (es[k].kind == 1 || es[k].kind == 0x1000 || es[k].kind == 0x1001) ==>
          es[k].base + es[k].length <= t)
    && (t == 0 || exists k :: 0 <= k < |es| && (es[k].kind == 1 || es[k].kind == 0x1000 || es[k].kind == 0x1001)
                              && es[k].base + es[k].length == t)
  }

  lemma {:induction false} TopReached(es: seq<Entry>, n: nat)
    requires n <= |es|
    ensures TopOf(es, n) == 0 || exists k :: 0 <= k < n && Counted(es[k]) && es[k].base + es[k].length == TopOf(es, n)
  {
    if n > 0 {
      TopReached(es, n - 1);
      assert TopOf(es, n) == TopOf(es, n - 1)
             || (Counted(es[n - 1]) && es[n - 1].base + es[n - 1].length == TopOf(es, n));
    }
  }

  /** The highest page is told by an entry of one of these types, and by no other. */
  lemma {:induction false} TopIs(es: seq<Entry>)
    ensures IsTop(es, TopOf(es, |es|))
  {
    TopReached(es, |es|);
    if TopOf(es, |es|) != 0 {
      var k :| 0 <= k < |es| && Counted(es[k]) && es[k].base + es[k].length == TopOf(es, |es|);
      assert es[k].kind == 1 || es[k].kind == 0x1000 || es[k].kind == 0x1001;
    }
    hide TopOf;
    forall k | 0 <= k < |es| && (es[k].kind == 1 || es[k].kind == 0x1000 || es[k].kind == 0x1001)
      ensures es[k].base + es[k].length <= TopOf(es, |es|)
    {
      assert Counted(es[k]);
    }
  }

  /** Bytes of bitmap for memory up to top: one bit a page, but divided by eight before rounding up. */
  function BitmapSize(top: int): int
    requires top >= 0
  {
    AlignUp(AlignDown(top, PAGE_SIZE) / PAGE_SIZE / 8, PAGE_SIZE)
  }

  /** KB_TO_PAGES, which pmm_init applies to a number of bytes, in 64 bits. */
  function KbToPages(kb: int): int {
    kb * 1024 % WORD / PAGE_SIZE
  }

  /** What is left of that in the 32 bits of the counters: a page for every four bytes. */
  function MaxPages(top: int): (n: int)
    ensures 0 <= n < COUNTER
  {
    Wrap32(top / 4)
  }

  lemma {:induction false} KbToPagesIs(top: int)
    requires top >= 0
    ensures Wrap32(KbToPages(top)) == MaxPages(top)
  {
    var q, t := top / 0x40_0000_0000_0000, top % 0x40_0000_0000_0000;
    assert top * 1024 == WORD * q + 1024 * t;
    SmallWrap(1024 * t, q);
    assert top == 0x40_0000_0000_0000 * q + t;
    assert top / 4 == t / 4 + COUNTER * (0x10_0000 * q);
    ModMultiple(t / 4, 0x10_0000 * q);
  }

  /** The bitmap has a bit for every page, exactly unless the number of pages leaves 1 to 7 over
      a multiple of 32768. */
  lemma {:induction false} BitmapCovers(top: int)
    requires top >= 0
    ensures 8 * BitmapSize(top) >= top / PAGE_SIZE <==> !(1 <= top / PAGE_SIZE % 32768 <= 7)
    ensures BitmapSize(top) % PAGE_SIZE == 0 && BitmapSize(top) >= 0
    ensures top / PAGE_SIZE / 8 <= BitmapSize(top) < top / PAGE_SIZE / 8 + PAGE_SIZE
  {
    hide BitmapSize, AlignUp, AlignDown;
    var pages := top / PAGE_SIZE;
    var q, r, m := PagesSplit(pages);
    BitmapSizeIs(top, q, r);
    OddPages(q, 8 * r + m);
    WholeSize(q + if r == 0 then 0 else 1);
  }

  /** The bytes of the bitmap, in pages and what is left over. */
  lemma {:induction false} PagesSplit(pages: nat) returns (q: nat, r: nat, m: nat)
    ensures pages == 32768 * q + (8 * r + m) && r < PAGE_SIZE && m < 8 && pages / 8 == PAGE_SIZE * q + r
  {
    var b := pages / 8;
    q, r, m := b / PAGE_SIZE, b % PAGE_SIZE, pages % 8;
  }

  lemma {:induction false} BitmapSizeIs(top: int, q: nat, r: nat)
    requires top >= 0 && r < PAGE_SIZE && top / PAGE_SIZE / 8 == PAGE_SIZE * q + r
    ensures BitmapSize(top) == PAGE_SIZE * (q + if r == 0 then 0 else 1)
  {
    hide AlignUp, AlignDown;
    WholePage(top);
    RoundUp(q, r);
  }

  lemma {:induction false} WholePage(top: int)
    requires top >= 0
    ensures AlignDown(top, PAGE_SIZE) / PAGE_SIZE == top / PAGE_SIZE
  {
  }

  lemma {:induction false} RoundUp(q: nat, r: nat)
    requires r < PAGE_SIZE
    ensures AlignUp(PAGE_SIZE * q + r, PAGE_SIZE) == PAGE_SIZE * (q + if r == 0 then 0 else 1)
  {
    hide AlignDown;
    if r == 0 { DownTo(q, PAGE_SIZE - 1); } else { DownTo(q + 1, r - 1); }
  }

  lemma {:induction false} DownTo(q: nat, r: nat)
    requires r < PAGE_SIZE
    ensures AlignDown(PAGE_SIZE * q + r, PAGE_SIZE) == PAGE_SIZE * q
  {
  }

  /** A page more than 32768, for one, and the bitmap lacks its last bit. */
  lemma {:induction false} BitMissing()
    ensures var top := PAGE_SIZE * 32769;
            top / PAGE_SIZE == 32769 && 8 * BitmapSize(top) == 32768
  {
    hide BitmapSize;
    BitmapSizeIs(PAGE_SIZE * 32769, 1, 0);
  }

  lemma {:induction false} WholeSize(q: int)
    ensures PAGE_SIZE * q % PAGE_SIZE == 0
  {
  }

  lemma {:induction false} OddPages(q: int, r: int)
    requires 0 <= r < 32768
    ensures (32768 * q + r) % 32768 == r
  {
  }

  /** What pmm_init needs of the memory map: whole pages, usable entries apart from one another,
      addresses whose page numbers fit an int, a usable entry that holds the bitmap, and a
      bitmap that covers all pages. */
  ghost predicate MapOk(es: seq<Entry>) {
    && (forall k :: 0 <= k < |es| ==> es[k].base >= 0 && es[k].length >= 0 && es[k].base + es[k].length < WORD)
    && (forall k :: 0 <= k < |es| && es[k].kind == USABLE ==>
          es[k].base % PAGE_SIZE == 0 && es[k].length % PAGE_SIZE == 0)
    && (forall k, l :: 0 <= k < l < |es| && es[k].kind == USABLE && es[l].kind == USABLE ==>
          es[k].base + es[k].length <= es[l].base || es[l].base + es[l].length <= es[k].base)
    && 0 < 8 * BitmapSize(TopOf(es, |es|)) < 0x8000_0000
    && TopOf(es, |es|) / PAGE_SIZE <= 8 * BitmapSize(TopOf(es, |es|))
    && exists k :: 0 <= k < |es| && Hosts(es[k], BitmapSize(TopOf(es, |es|)))
  }

  predicate Hosts(e: Entry, size: int) {
    e.kind == USABLE && e.length >= size
  }

  /** The entry after the bitmap was carved out of its front. */
  function Carved(e: Entry, size: int): Entry {
    e.(base := (e.base + size) % WORD, length := (e.length - size) % WORD)
  }

  /** Pages in usable entries among the first n. */
  function UsablePages(es: seq<Entry>, n: nat): int
    requires n <= |es|
  {
    if n == 0 then 0
    else UsablePages(es, n - 1) + (if es[n - 1].kind == USABLE then es[n - 1].length / PAGE_SIZE else 0)
  }

  /** The first of the first n entries that can hold the bitmap, or -1. */
  function FirstHost(es: seq<Entry>, size: int, n: nat): (h: int)
    requires n <= |es|
    ensures -1 <= h < n
    ensures h >= 0 ==> Hosts(es[h], size) && forall k :: 0 <= k < h ==> !Hosts(es[k], size)
    ensures h < 0 ==> forall k :: 0 <= k < n ==> !Hosts(es[k], size)
  {
    if n == 0 then -1
    else
      var h := FirstHost(es, size, n - 1);
      if h >= 0 then h else if Hosts(es[n - 1], size) then n - 1 else -1
  }

  function HostOf(es: seq<Entry>): (h: int)
    requires MapOk(es)
    ensures 0 <= h < |es| && Hosts(es[h], BitmapSize(TopOf(es, |es|)))
    ensures es[h].kind == 1 && es[h].length >= BitmapSize(TopOf(es, |es|))
    ensures forall k :: 0 <= k < h ==> es[k].kind != 1 || es[k].length < BitmapSize(TopOf(es, |es|))
  {
    FirstHost(es, BitmapSize(TopOf(es, |es|)), |es|)
  }

  /** The memory map as pmm_init leaves it. */
  function CarvedMap(es: seq<Entry>): (r: seq<Entry>)
    requires MapOk(es)
    ensures |r| == |es|
  {
    es[HostOf(es) := Carved(es[HostOf(es)], BitmapSize(TopOf(es, |es|)))]
  }

  /** Some usable entry among the first n covers page p. */
  ghost predicate Usable(es: seq<Entry>, n: nat, p: int)
    requires n <= |es|
  {
    exists k :: 0 <= k < n && Covers(es[k], p)
  }

  /** Page p lies in the bitmap's own storage. */
  predicate InStorage(es: seq<Entry>, p: int)
    requires MapOk(es)
  {
    var e := es[HostOf(es)];
    e.base <= PAGE_SIZE * p < e.base + BitmapSize(TopOf(es, |es|))
  }

  /** Usable entries lie on whole pages below the end of the bitmap. */
  ghost predicate WholePages(es: seq<Entry>, bits: int) {
    forall k :: 0 <= k < |es| && es[k].kind == USABLE ==>
      es[k].base >= 0 && es[k].length >= 0 && es[k].base % PAGE_SIZE == 0 && es[k].length % PAGE_SIZE == 0
      && es[k].base + es[k].length <= PAGE_SIZE * bits
  }

  lemma {:induction false} CarvedEntry(es: seq<Entry>)
    requires MapOk(es)
    ensures var h, size := HostOf(es), BitmapSize(TopOf(es, |es|));
            Carved(es[h], size) == es[h].(base := es[h].base + size, length := es[h].length - size)
            && es[h].kind == USABLE && es[h].length >= size
            && size > 0 && size % PAGE_SIZE == 0
  {
    var h, size := HostOf(es), BitmapSize(TopOf(es, |es|));
    assert size > 0 && size % PAGE_SIZE == 0 by { BitmapCovers(TopOf(es, |es|)); }
    hide TopOf, BitmapSize, HostOf, Carved;
    CarvedOne(es[h], size);
  }

  lemma {:induction false} CarvedOne(e: Entry, size: int)
    requires 0 <= size <= e.length && 0 <= e.base && e.base + e.length < WORD
    ensures Carved(e, size) == e.(base := e.base + size, length := e.length - size)
  {
    SmallWrap(e.base + size, 0);
    SmallWrap(e.length - size, 0);
  }

  /** Carving the bitmap out takes away exactly the pages of its storage. */
  lemma {:induction false} CarvedCovers(es: seq<Entry>, p: int)
    requires MapOk(es)
    ensures Usable(CarvedMap(es), |es|, p) <==> Usable(es, |es|, p) && !InStorage(es, p)
  {
    CarvedEntry(es);
    hide TopOf, BitmapSize, Carved, HostOf;
    var h, es' := HostOf(es), CarvedMap(es);
    assert es[h].kind == USABLE;
    if Usable(es', |es|, p) {
      var k :| 0 <= k < |es| && Covers(es'[k], p);
      assert Covers(es[k], p);
    }
    if Usable(es, |es|, p) && !InStorage(es, p) {
      var k :| 0 <= k < |es| && Covers(es[k], p);
      assert Covers(es'[k], p);
    }
  }

  /** After initialisation exactly the usable pages outside the bitmap's storage are free, page 0 excepted. */
  ghost predicate FreeAfterInit(bits: seq<bool>, es: seq<Entry>)
    requires MapOk(es)
  {
    forall p :: 0 <= p < |bits| ==> (!bits[p] <==> p != 0 && Usable(es, |es|, p) && !InStorage(es, p))
  }

  /** Whatever is requested and given back after initialisation, a page that is out is usable memory,
      not page 0 and not part of the bitmap. */
  lemma {:induction false} OnlyUsablePagesOut(es: seq<Entry>, s: Frames, qs: seq<Request>)
    requires MapOk(es) && FramesOk(s) && FreeAfterInit(s.used, es)
    requires RunOk(Run(s, {})) && AllAllowed(Run(s, {}), qs)
    ensures forall p :: p in After(Run(s, {}), qs).out ==> p != 0 && Usable(es, |es|, p) && !InStorage(es, p)
  {
    hide MapOk, Usable, InStorage, AllAllowed, After, Balance;
    var reserved := set p: nat | p < |s.used| && s.used[p];
    RunKeeps(Run(s, {}), qs, reserved);
    forall p | p in After(Run(s, {}), qs).out ensures p != 0 && Usable(es, |es|, p) && !InStorage(es, p) {
      assert p !in reserved;
    }
  }

  /** The state pmm_init leaves, from the memory map it was given. */
  ghost predicate Started(s: Frames, es: seq<Entry>) {
    && FramesOk(s) && MapOk(es) && FreeAfterInit(s.used, es)
    && |s.used| == 8 * BitmapSize(TopOf(es, |es|)) && s.pages == TopOf(es, |es|) / PAGE_SIZE
    && s.counter == Wrap32(MaxPages(TopOf(es, |es|)) - UsablePages(CarvedMap(es), |es|))
  }

  lemma {:induction false} CarvedBits(bits: seq<bool>, es: seq<Entry>)
    requires MapOk(es)
    requires forall p :: 0 <= p < |bits| ==> (!bits[p] <==> p != 0 && Usable(CarvedMap(es), |es|, p))
    ensures FreeAfterInit(bits, es)
  {
    hide Usable, CarvedMap, InStorage, MapOk;
    forall p | 0 <= p < |bits| ensures !bits[p] <==> p != 0 && Usable(es, |es|, p) && !InStorage(es, p) {
      CarvedCovers(es, p);
    }
  }

  lemma {:induction false} CarvedWhole(es: seq<Entry>)
    requires MapOk(es)
    ensures WholePages(CarvedMap(es), 8 * BitmapSize(TopOf(es, |es|)))
  {
    var size := BitmapSize(TopOf(es, |es|));
    WholeBefore(es);
    CarvedEntry(es);
    hide TopOf, BitmapSize, Carved, HostOf;
    WholeDifference(es[HostOf(es)].base, es[HostOf(es)].length, size);
  }

  lemma {:induction false} WholeBefore(es: seq<Entry>)
    requires MapOk(es)
    ensures WholePages(es, 8 * BitmapSize(TopOf(es, |es|)))
  {
    hide BitmapSize;
    var t := TopOf(es, |es|);
    forall k | 0 <= k < |es| && es[k].kind == USABLE
      ensures es[k].base + es[k].length <= PAGE_SIZE * (8 * BitmapSize(t))
    {
      assert Counted(es[k]);
      WholeDifference(es[k].base, es[k].length, es[k].length);
      WholeTop(es[k].base + es[k].length, t, 8 * BitmapSize(t));
    }
  }

  lemma {:induction false} MapBounds(es: seq<Entry>)
    requires MapOk(es)
    ensures forall k :: 0 <= k < |es| ==> es[k].base >= 0 && es[k].length >= 0 && es[k].base + es[k].length < WORD
  {
  }

  lemma {:induction false} MapFacts(es: seq<Entry>)
    requires MapOk(es)
    ensures var size := BitmapSize(TopOf(es, |es|));
            0 < 8 * size < 0x8000_0000 && TopOf(es, |es|) / PAGE_SIZE <= 8 * size
            && WholePages(CarvedMap(es), 8 * size)
  {
    CarvedWhole(es);
  }

  lemma {:induction false} WholeTop(end: int, top: int, bits: int)
    requires end % PAGE_SIZE == 0 && end <= top && top / PAGE_SIZE <= bits
    ensures end <= PAGE_SIZE * bits
  {
  }

  lemma {:induction false} WholeDifference(a: int, b: int, c: int)
    requires a % PAGE_SIZE == 0 && b % PAGE_SIZE == 0 && c % PAGE_SIZE == 0
    ensures (a + c) % PAGE_SIZE == 0 && (b - c) % PAGE_SIZE == 0
  {
  }

  lemma {:induction false} CoversPages(e: Entry, p: int)
    requires e.kind == USABLE && e.base % PAGE_SIZE == 0 && e.length % PAGE_SIZE == 0
    ensures Covers(e, p) <==> e.base / PAGE_SIZE <= p < e.base / PAGE_SIZE + e.length / PAGE_SIZE
  {
  }

  // ---------------------------------------------------------------- the allocator

  class Pmm {
    const la57: bool
    var bitmap: Bitmap.Bitmap
    var bitmapMap: int           // the higher-half address of the bitmap's bytes
    var highestPage: int
    var memorySize: int
    var maxPages: int
    var usedPages: int

    ghost predicate Valid()
      reads this, bitmap, bitmap.bytes
    {
      0 <= highestPage && highestPage / PAGE_SIZE <= |bitmap.Bits()| <= 0x8000_0000
      && 0 <= usedPages < COUNTER
    }

    /** The abstract state of the allocator. */
    ghost function State(): Frames
      requires Valid()
      reads this, bitmap, bitmap.bytes
    {
      Frames(bitmap.Bits(), usedPages, highestPage / PAGE_SIZE)
    }

    constructor (la57: bool)
      ensures this.la57 == la57 && highestPage == 0 && fresh(bitmap) && fresh(bitmap.bytes)
    {
      this.la57 := la57;
      bitmap := new Bitmap.Bitmap(0);
      bitmapMap, highestPage, memorySize, maxPages, usedPages := 0, 0, 0, 0, 0;
    }

    /** pmm_find_first_free_page: the address of the first clear page, whatever the count. */
    method FindFirstFreePage(pageCount: nat) returns (pointer: int)
      requires Valid()
      ensures pointer == if pageCount == 0 || FirstClear(State().used, State().pages) < 0 then 0
                         else PAGE_SIZE * FirstClear(State().used, State().pages)
    {
      if pageCount == 0 { return 0; }
      ghost var s := State();
      for counter := 0 to pageCount
        invariant counter > 0 ==> FirstClear(s.used, s.pages) < 0
      {
        var pages := highestPage / PAGE_SIZE;
        for i := 0 to pages
          invariant FirstClear(s.used, i) < 0
        {
          var bit := bitmap.CheckBit(ToInt32(i));
          if bit == 0 {
            FirstClearIs(s.used, s.pages, i);
            return i * 0x1000;
          }
        }
      }
      pointer := 0;
    }

    /** pmm_alloc */
    method Alloc(pageCount: nat) returns (pointer: int)
      requires Valid()
      requires Served(State(), pageCount) >= 0 ==> Served(State(), pageCount) + pageCount <= |State().used|
      modifies `usedPages, bitmap.bytes
      ensures Valid() && State() == Taken(old(State()), pageCount)
      ensures var f := Served(old(State()), pageCount);
              pointer == if f < 0 then 0 else PhysToHigherHalfData(la57, PAGE_SIZE * f)
    {
      hide FirstClear, ToInt32, PhysToHigherHalfData, Wrap32, SetRange, Served, Taken;
      if usedPages <= 0 {
        NoneServed(State(), pageCount);
        return 0;
      }
      pointer := FindFirstFreePage(pageCount);
      FoundPage(State(), pageCount, pointer);
      if pointer == 0 { return 0; }
      var index := pointer / PAGE_SIZE;
      MarkUsed(index, pageCount);
      usedPages := Wrap32(usedPages + pageCount);
      pointer := PhysToHigherHalfData(la57, index * PAGE_SIZE);
    }

    /** The marking loop of pmm_alloc. */
    method MarkUsed(index: nat, pageCount: nat)
      requires index + pageCount <= |bitmap.Bits()| <= 0x8000_0000
      modifies bitmap.bytes
      ensures bitmap.Bits() == SetRange(old(bitmap.Bits()), index, pageCount, true)
    {
      hide ToInt32;
      for i := 0 to pageCount
        invariant bitmap.Bits() == SetRange(old(bitmap.Bits()), index, i, true)
      {
        SmallIndex(index + i);
        bitmap.SetBit(ToInt32(index + i));
      }
    }

    /** pmm_free */
    method Free(pointer: int, pageCount: nat)
      requires Valid()
      requires var index := ToInt32(HigherHalfDataToPhys(la57, pointer) / PAGE_SIZE);
               0 <= index && index + pageCount <= |State().used|
      modifies `usedPages, bitmap.bytes
      ensures Valid()
      ensures var index := ToInt32(HigherHalfDataToPhys(la57, pointer) / PAGE_SIZE);
              State() == Released(old(State()), index, pageCount)
    {
      hide ToInt32, HigherHalfDataToPhys, Wrap32;
      var index := HigherHalfDataToPhys(la57, pointer) / PAGE_SIZE;
      ghost var used, first := bitmap.Bits(), ToInt32(index);
      for i := 0 to pageCount
        modifies bitmap.bytes
        invariant bitmap.Bits() == SetRange(used, first, i, false)
      {
        NextIndex(index, i);
        bitmap.UnsetBit(ToInt32(index + i));
      }
      usedPages := Wrap32(usedPages - pageCount);
    }

    /** pmm_init, steps 2 to 7. */
    method Init(memmap: array<Entry>)
      requires highestPage == 0 && MapOk(memmap[..])
      modifies this, memmap
      ensures Valid() && fresh(bitmap.bytes)
      ensures memmap[..] == CarvedMap(old(memmap[..]))
      ensures highestPage == TopOf(old(memmap[..]), memmap.Length) && IsTop(old(memmap[..]), highestPage)
      ensures bitmapMap == PhysToHigherHalfData(la57, old(memmap[..])[HostOf(old(memmap[..]))].base)
      ensures FreeAfterInit(bitmap.Bits(), old(memmap[..]))
      ensures usedPages == Wrap32(maxPages - UsablePages(memmap[..], memmap.Length))
      ensures maxPages == MaxPages(highestPage)
      ensures Started(State(), old(memmap[..]))
    {
      hide TopOf, BitmapSize, MapOk, CarvedMap, HostOf, InStorage, Usable, Wrap32, PhysToHigherHalfData, WholePages,
           UsablePages;
      ghost var es := memmap[..];
      MapBounds(es);
      Measure(memmap);
      MapFacts(es);
      var size := BitmapSize(highestPage);
      PlaceBitmap(memmap, size);
      MarkUsable(memmap);
      CarvedBits(bitmap.Bits(), es);
    }

    /** Steps 5 to 7: everything in use, then the usable entries free, then page 0 in use again. */
    method MarkUsable(memmap: array<Entry>)
      requires Valid() && WholePages(memmap[..], |bitmap.Bits()|) && 0 < |bitmap.Bits()| < 0x8000_0000
      modifies `usedPages, bitmap.bytes
      ensures Valid() && |bitmap.Bits()| == |old(bitmap.Bits())|
      ensures forall p :: 0 <= p < |bitmap.Bits()| ==>
                (!bitmap.Bits()[p] <==> p != 0 && Usable(memmap[..], memmap.Length, p))
      ensures usedPages == Wrap32(old(usedPages) - UsablePages(memmap[..], memmap.Length))
    {
      hide Usable, UsablePages, WholePages, Wrap32;
      bitmap.SetAll();
      FreeUsable(memmap);
      bitmap.SetBit(0);
    }

    /** Steps 2 and 3: the size of memory and the counters that follow from it. */
    method Measure(memmap: array<Entry>)
      requires highestPage == 0
      requires forall k :: 0 <= k < memmap.Length ==>
                 memmap[k].base >= 0 && memmap[k].length >= 0 && memmap[k].base + memmap[k].length < WORD
      modifies `highestPage, `memorySize, `maxPages, `usedPages
      ensures highestPage == TopOf(memmap[..], memmap.Length) && IsTop(memmap[..], highestPage)
      ensures usedPages == maxPages == MaxPages(highestPage)
    {
      FindTop(memmap);
      memorySize := highestPage;
      KbToPagesIs(memorySize);
      maxPages := Wrap32(KbToPages(memorySize));
      usedPages := maxPages;
    }

    /** Step 2: the highest address of memory the bitmap has to describe. */
    method FindTop(memmap: array<Entry>)
      requires highestPage == 0
      requires forall k :: 0 <= k < memmap.Length ==>
                 memmap[k].base >= 0 && memmap[k].length >= 0 && memmap[k].base + memmap[k].length < WORD
      modifies `highestPage
      ensures highestPage == TopOf(memmap[..], memmap.Length) && IsTop(memmap[..], highestPage)
    {
      for i := 0 to memmap.Length
        invariant highestPage == TopOf(memmap[..], i)
      {
        var e := memmap[i];
        if e.kind != USABLE && e.kind != BOOTLOADER_RECLAIMABLE && e.kind != KERNEL_AND_MODULES { continue; }
        var top := (e.base + e.length) % WORD;
        if top > highestPage { highestPage := top; }
      }
      TopIs(memmap[..]);
    }

    /** Step 4: the first usable entry large enough gives up its front for the bitmap. */
    method PlaceBitmap(memmap: array<Entry>, size: int)
      requires MapOk(memmap[..]) && size == BitmapSize(TopOf(memmap[..], memmap.Length))
      modifies `bitmap, `bitmapMap, memmap
      ensures fresh(bitmap) && fresh(bitmap.bytes) && bitmap.bytes.Length == size
      ensures memmap[..] == CarvedMap(old(memmap[..]))
      ensures bitmapMap == PhysToHigherHalfData(la57, old(memmap[..])[HostOf(old(memmap[..]))].base)
    {
      ghost var es := memmap[..];
      BitmapCovers(TopOf(es, |es|));
      hide TopOf, BitmapSize, PhysToHigherHalfData;
      var i := 0;
      while i < memmap.Length
        invariant 0 <= i <= memmap.Length && memmap[..] == es
        invariant FirstHost(es, size, i) < 0
      {
        if memmap[i].kind == USABLE && memmap[i].length >= size {
          bitmapMap := PhysToHigherHalfData(la57, memmap[i].base);
          bitmap := new Bitmap.Bitmap(size);
          memmap[i] := Carved(memmap[i], size);
          FirstHostIs(es, size, |es|, i);
          return;
        }
        i := i + 1;
      }
      assert false;
    }

    /** Step 6: free every page of every usable entry, given by its physical address. */
    method FreeUsable(memmap: array<Entry>)
      requires Valid() && WholePages(memmap[..], |bitmap.Bits()|) && |bitmap.Bits()| < 0x8000_0000
      requires forall p :: 0 <= p < |bitmap.Bits()| ==> bitmap.Bits()[p]
      modifies `usedPages, bitmap.bytes
      ensures Valid() && highestPage == old(highestPage) && |bitmap.Bits()| == |old(bitmap.Bits())|
      ensures forall p :: 0 <= p < |bitmap.Bits()| ==> (!bitmap.Bits()[p] <==> Usable(memmap[..], memmap.Length, p))
      ensures usedPages == Wrap32(old(usedPages) - UsablePages(memmap[..], memmap.Length))
    {
      hide Wrap32, FirstClear, ToInt32, HigherHalfDataToPhys;
      ghost var n, start := |bitmap.Bits()|, usedPages;
      SmallWrap32(start);
      for i := 0 to memmap.Length
        invariant Valid() && |bitmap.Bits()| == n
        invariant forall p :: 0 <= p < n ==> (!bitmap.Bits()[p] <==> Usable(memmap[..], i, p))
        invariant usedPages == Wrap32(start - UsablePages(memmap[..], i))
      {
        var e := memmap[i];
        ghost var before := bitmap.Bits();
        if e.kind == USABLE {
          FreedEntry(la57, e, n);
          Free(e.base, e.length / PAGE_SIZE);
          WrapTwice(start - UsablePages(memmap[..], i), -(e.length / PAGE_SIZE));
        }
        forall p | 0 <= p < n ensures !bitmap.Bits()[p] <==> Usable(memmap[..], i + 1, p) {
          UsableNext(memmap[..], i, p);
          if e.kind == USABLE { CoversPages(e, p); }
        }
      }
    }
  }

  lemma {:induction false} NoneServed(s: Frames, n: nat)
    requires FramesOk(s) && s.counter == 0
    ensures Served(s, n) < 0 && Taken(s, n) == s
  {
  }

  /** What pmm_find_first_free_page found tells whether and from where the request is served. */
  lemma {:induction false} FoundPage(s: Frames, n: nat, pointer: int)
    requires FramesOk(s) && s.counter > 0
    requires pointer == if n == 0 || FirstClear(s.used, s.pages) < 0 then 0 else PAGE_SIZE * FirstClear(s.used, s.pages)
    requires Served(s, n) >= 0 ==> Served(s, n) + n <= |s.used|
    ensures if pointer == 0 then Served(s, n) < 0 && Taken(s, n) == s
            else pointer > 0 && pointer / PAGE_SIZE == Served(s, n) && pointer / PAGE_SIZE + n <= |s.used|
                 && Taken(s, n) == Frames(SetRange(s.used, pointer / PAGE_SIZE, n, true), Wrap32(s.counter + n),
                                          s.pages)
  {
    hide FirstClear, SetRange, Wrap32;
  }

  lemma {:induction false} FirstClearIs(used: seq<bool>, n: nat, i: nat)
    requires n <= |used| && i < n && FirstClear(used, i) < 0 && !used[i]
    ensures FirstClear(used, n) == i
  {
  }

  lemma {:induction false} SmallIndex(i: int)
    requires 0 <= i < 0x8000_0000
    ensures ToInt32(i) == i
  {
  }

  lemma {:induction false} FirstHostIs(es: seq<Entry>, size: int, n: nat, i: nat)
    requires i < n <= |es| && FirstHost(es, size, i) < 0 && Hosts(es[i], size)
    ensures FirstHost(es, size, n) == i
  {
  }

  lemma {:induction false} UsableNext(es: seq<Entry>, i: nat, p: int)
    requires i < |es|
    ensures Usable(es, i + 1, p) <==> Usable(es, i, p) || Covers(es[i], p)
  {
    if Covers(es[i], p) { assert 0 <= i < i + 1 && Covers(es[i], p); }
  }

  lemma {:induction false} FreedEntry(la57: bool, e: Entry, bits: int)
    requires e.kind == USABLE && e.base >= 0 && e.length >= 0
    requires e.base % PAGE_SIZE == 0 && e.length % PAGE_SIZE == 0
    requires e.base + e.length <= PAGE_SIZE * bits && bits < 0x8000_0000
    ensures e.length / PAGE_SIZE >= 0 && e.base / PAGE_SIZE + e.length / PAGE_SIZE <= bits
    ensures ToInt32(HigherHalfDataToPhys(la57, e.base) / PAGE_SIZE) == e.base / PAGE_SIZE
  {
    WrappedIndex(la57, e.base);
  }

  lemma {:induction false} WrapTwice(a: int, b: int)
    ensures Wrap32(Wrap32(a) + b) == Wrap32(a + b)
  {
    ModShift(a, b);
  }
}
