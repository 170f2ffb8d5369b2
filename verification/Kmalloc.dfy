/**
 kmalloc and kfree: blocks with a header that records their size, served by the slab allocator or,
 from 4096 bytes on, by whole pages of the physical memory manager.
 */
module Kmalloc {
  import opened Addresses
  import opened PageFrames
  import opened Powers
  import opened Slabs
  import BitOps
  import SA = SlabAllocator

  const HEADER: int := 8

  /** The pointer kmalloc returns, or the fault of writing a header through a null pointer. */
  datatype Outcome = Pointer(ptr: int) | Fault

  /** Headers by address. */
  type Headers = map<int, int>

  /** Frames, slabs and headers. */
  datatype Heap = Heap(s: Frames, ss: seq<Slab>, headers: Headers)

  predicate Big(size: int) {
    NextPower(size) >= PAGE_SIZE
  }

  /** Pages of a block whose header holds size: one for the header and those of the payload. */
  function PagesOf(size: int): int {
    size / PAGE_SIZE + 1
  }

  predicate HeapShaped(h: Heap) {
    FramesOk(h.s) && Shaped(h.ss)
  }

  /** If the page allocator serves the request, its pages lie under the bitmap. */
  ghost predicate InRange(s: Frames, n: nat) {
    FramesOk(s) && (Served(s, n) >= 0 ==> Served(s, n) + n <= |s.used|)
  }

  /** What kmalloc(size) does to the heap, and what it returns. */
  ghost predicate Allocates(la57: bool, h: Heap, size: int, h': Heap, r: Outcome)
    requires HeapShaped(h)
  {
    if Big(size) then
      var n := PagesOf(NextPower(size));
      n >= 0 && InRange(h.s, n)
      && var f := Served(h.s, n);
         h'.s == Taken(h.s, n) && h'.ss == h.ss
         && if f < 0 then r == Fault && h'.headers == h.headers
            else h'.headers == h.headers[SA.PageAddress(la57, f) := NextPower(size)]
                 && r == Pointer(SA.PageAddress(la57, f) + PAGE_SIZE)
    else
      var (ss', p) := Alloc(h.ss, NextPower(size + HEADER));
      h'.s == h.s && h'.ss == ss'
      && if p == NULL then r == Fault && h'.headers == h.headers
         else h'.headers == h.headers[p := NextPower(size + HEADER)] && r == Pointer(p + HEADER)
  }

  /** The page a physical memory manager's pointer names. */
  function IndexAt(la57: bool, pointer: int): int {
    ToInt32(HigherHalfDataToPhys(la57, pointer) / PAGE_SIZE)
  }

  /** What kfree(ptr) needs: for a page-aligned pointer the header a page before, naming pages under
      the bitmap. */
  ghost predicate MayRelease(la57: bool, h: Heap, ptr: int) {
    ptr >= 0 && HeapShaped(h)
    && (ptr != NULL && ptr % PAGE_SIZE == 0 ==>
          ptr - PAGE_SIZE in h.headers && PagesOf(h.headers[ptr - PAGE_SIZE]) >= 0
          && 0 <= IndexAt(la57, ptr - PAGE_SIZE)
          && IndexAt(la57, ptr - PAGE_SIZE) + PagesOf(h.headers[ptr - PAGE_SIZE]) <= |h.s.used|)
  }

  /** The heap after kfree(ptr): the page alignment of the pointer decides who served it. */
  ghost function ReleasedHeap(la57: bool, h: Heap, ptr: int): Heap
    requires MayRelease(la57, h, ptr)
  {
    if ptr == NULL then h
    else if ptr % PAGE_SIZE == 0 then
      h.(s := Released(h.s, IndexAt(la57, ptr - PAGE_SIZE), PagesOf(h.headers[ptr - PAGE_SIZE])))
    else h.(ss := Free(h.ss, ptr - HEADER))
  }

  class KernelHeap {
    const slabs: SA.SlabAllocator
    var metadata: Headers

    constructor (slabs: SA.SlabAllocator)
      ensures this.slabs == slabs && metadata == map[]
    {
      this.slabs := slabs;
      metadata := map[];
    }

    ghost predicate Valid()
      reads slabs, slabs.slabs, slabs.pmm, slabs.pmm.bitmap, slabs.pmm.bitmap.bytes
    {
      slabs.pmm.Valid() && Shaped(slabs.slabs[..])
    }

    ghost function State(): Heap
      requires Valid()
      reads this, slabs, slabs.slabs, slabs.pmm, slabs.pmm.bitmap, slabs.pmm.bitmap.bytes
    {
      Heap(slabs.pmm.State(), slabs.slabs[..], metadata)
    }

    method Kmalloc(size: int) returns (r: Outcome)
      requires Valid() && 0 <= size <= 0x8000_0000_0000_0000
      requires Big(size) ==> PagesOf(NextPower(size)) >= 0 && InRange(slabs.pmm.State(), PagesOf(NextPower(size)))
      modifies `metadata, slabs.slabs, slabs.pmm`usedPages, slabs.pmm.bitmap.bytes
      ensures Valid() && HeapShaped(old(State()))
      ensures Allocates(slabs.pmm.la57, old(State()), size, State(), r)
    {
      hide NextPower, Shaped, Served, Taken, Alloc, PhysToHigherHalfData;
      var newSize := NextPowOfTwo(size);
      if newSize >= PAGE_SIZE {
        var ptr := slabs.pmm.Alloc(newSize / PAGE_SIZE + 1);
        NullPointer(slabs.pmm.la57, old(slabs.pmm.State()), PagesOf(newSize));
        if ptr == NULL { return Fault; }
        metadata := metadata[ptr := newSize];
        r := Pointer(ptr + PAGE_SIZE);
      } else {
        SmallSize(size);
        newSize := NextPowOfTwo(size + HEADER);
        var ptr := slabs.SlabAlloc(newSize);
        if ptr == NULL { return Fault; }
        metadata := metadata[ptr := newSize];
        r := Pointer(ptr + HEADER);
      }
    }

    method Kfree(ptr: int)
      requires Valid() && MayRelease(slabs.pmm.la57, State(), ptr)
      modifies slabs.slabs, slabs.pmm`usedPages, slabs.pmm.bitmap.bytes
      ensures Valid() && State() == ReleasedHeap(slabs.pmm.la57, old(State()), ptr)
    {
      hide Shaped, Released, Free, HigherHalfDataToPhys, ToInt32;
      if ptr == NULL { return; }
      LowTwelve(ptr);
      if BitOps.BitAnd(ptr, 0xFFF) == 0 {
        var size := metadata[ptr - PAGE_SIZE];
        slabs.pmm.Free(ptr - PAGE_SIZE, size / PAGE_SIZE + 1);
        return;
      }
      slabs.SlabFree(ptr - HEADER);
    }
  }

  lemma {:induction false} LowTwelve(v: nat)
    ensures BitOps.BitAnd(v, 0xFFF) == v % PAGE_SIZE
  {
    hide BitOps.BitAnd, BitOps.Low, BitOps.Shr, BitOps.Shl;
    PowTwelve();
    BitOps.AndMask(v, 12);
    BitOps.LowHigh(v, 12);
    BitOps.LowBound(v, 12);
    ShlTwelve(BitOps.Shr(v, 12));
    Remainder(BitOps.Shr(v, 12), BitOps.Low(v, 12));
  }

  lemma {:induction false} PowTwelve()
    ensures BitOps.Pow2(12) == 4096
  {
    assert BitOps.Pow2(4) == 16;
    assert BitOps.Pow2(8) == 16 * BitOps.Pow2(4);
    assert BitOps.Pow2(12) == 16 * BitOps.Pow2(8);
  }

  lemma {:induction false} ShlTwelve(s: nat)
    ensures BitOps.Shl(s, 12) == PAGE_SIZE * s
  {
    assert BitOps.Shl(s, 1) == 2 * BitOps.Shl(s, 0);
    assert BitOps.Shl(s, 3) == 4 * BitOps.Shl(s, 1);
    assert BitOps.Shl(s, 5) == 4 * BitOps.Shl(s, 3);
    assert BitOps.Shl(s, 7) == 4 * BitOps.Shl(s, 5);
    assert BitOps.Shl(s, 9) == 4 * BitOps.Shl(s, 7);
    assert BitOps.Shl(s, 11) == 4 * BitOps.Shl(s, 9);
    assert BitOps.Shl(s, 12) == 2 * BitOps.Shl(s, 11);
  }

  lemma {:induction false} Remainder(h: int, l: int)
    requires 0 <= l < PAGE_SIZE
    ensures (PAGE_SIZE * h + l) % PAGE_SIZE == l
  {
  }

  /** A page served is never at the null address. */
  lemma {:induction false} NullPointer(la57: bool, s: Frames, n: nat)
    requires FramesOk(s) && |s.used| <= 0x8000_0000
    ensures Served(s, n) >= 0 ==> SA.PageAddress(la57, Served(s, n)) > 0
  {
    hide SA.PageAddress;
    if Served(s, n) >= 0 { SA.AddressOfFrame(la57, Served(s, n)); }
  }

  // ---------------------------------------------------------------- size classes

  lemma {:induction false} SmallSize(size: int)
    requires 0 <= size <= 0x8000_0000_0000_0000 && NextPower(size) < PAGE_SIZE
    ensures size + HEADER <= 0x8000_0000_0000_0000
  {
    hide NextPower, Doubled;
    var k := NextPowerIs(size);
  }

  lemma {:induction false} DoubledSizes()
    ensures Doubled(0) == 2 && Doubled(1) == 4 && Doubled(2) == 8 && Doubled(3) == 16 && Doubled(4) == 32
         && Doubled(5) == 64
    ensures Doubled(6) == 128 && Doubled(7) == 256 && Doubled(8) == 512 && Doubled(9) == 1024 && Doubled(10) == 2048
    ensures Doubled(11) == 4096
  {
    hide Doubled;
    FirstDoubled();
    DoubledGrows(1);
    DoubledGrows(2);
    DoubledGrows(3);
    DoubledGrows(4);
    DoubledGrows(5);
    DoubledGrows(6);
    DoubledGrows(7);
    DoubledGrows(8);
    DoubledGrows(9);
    DoubledGrows(10);
    DoubledGrows(11);
  }

  /** The next power of two reaches 4096 exactly for what is above 2048; below, it is a slab size. */
  lemma {:induction false} PowerClass(num: int)
    requires 0 <= num <= 0x8000_0000_0000_0000
    ensures NextPower(num) >= num && NextPower(num) >= 2
    ensures NextPower(num) >= 4096 <==> num > 2048
    ensures 2048 < num <= 4096 ==> NextPower(num) == 4096
    ensures num > 2048 ==> NextPower(num) % 4096 == 0
    ensures num <= 2048 ==> exists i :: 0 <= i < SLAB_COUNT && NextPower(num) == SizeOf(i)
  {
    hide Doubled, NextPower, Power;
    DoubledSizes();
    var k := NextPowerIs(num);
    if k > 11 {
      assert Doubled(11) < num;
      WholePower(k);
    } else {
      assert k < 11 ==> Doubled(k) == SizeOf(k);
    }
  }

  lemma {:induction false} WholePower(k: nat)
    requires 11 <= k <= 62
    ensures Doubled(k) % 4096 == 0 && Doubled(k) >= 4096
  {
    hide Doubled;
    DoubledSizes();
    if k > 11 {
      WholePower(k - 1);
      DoubledGrows(k);
    }
  }

  /** kmalloc's cases: up to 2040 bytes a slab object with room for header and payload; from 2049 on whole
      pages; and between, a request for an object of 4096 bytes, a size no slab has. */
  lemma {:induction false} SizeCases(size: int)
    requires 0 <= size <= 0x8000_0000_0000_0000
    ensures Big(size) <==> size > 2048
    ensures size <= 2040
         ==> exists i :: 2 <= i < SLAB_COUNT && NextPower(size + HEADER) == SizeOf(i) && SizeOf(i) >= HEADER + size
    ensures 2040 < size <= 2048 ==> IndexOf(NextPower(size + HEADER), SLAB_COUNT) < 0
    ensures size > 2048 ==> PAGE_SIZE * PagesOf(NextPower(size)) == PAGE_SIZE + NextPower(size) >= PAGE_SIZE + size
  {
    hide NextPower, Power;
    PowerClass(size);
    if size <= 2048 { PowerClass(size + HEADER); }
  }

  /** No request between 2041 and 2048 bytes is ever served. */
  lemma {:induction false} GapFaults(la57: bool, h: Heap, size: int, h': Heap, r: Outcome)
    requires HeapShaped(h) && 2040 < size <= 2048 && Allocates(la57, h, size, h', r)
    ensures r == Fault && h' == h
  {
    hide NextPower, Shaped;
    SizeCases(size);
  }

  /** When kmalloc(size) finds nothing: no page to begin with for a big block; always between 2041 and 2048 bytes;
      and for a slab block when its class was found empty once or is empty. */
  ghost predicate Exhausted(h: Heap, outs: seq<set<int>>, size: int)
    requires HeapShaped(h)
  {
    if size > 2048 then h.s.counter == 0 || FirstClear(h.s.used, h.s.pages) <= 0
    else
      var i := IndexOf(NextPower(size + HEADER), SLAB_COUNT);
      size > 2040 || !(0 <= i < |outs|) || h.ss[i].isFull || |outs[i]| == ObjectsIn(i)
  }

  /** kmalloc writes its header through a null pointer exactly then. */
  lemma {:induction false} FaultsWhen(la57: bool, h: Heap, pages: seq<int>, outs: seq<set<int>>, size: int, h': Heap,
                                      r: Outcome)
    requires HeapShaped(h) && SlabsOk(h.ss, pages, outs) && 0 <= size <= 0x8000_0000_0000_0000
    requires Allocates(la57, h, size, h', r)
    ensures r == Fault <==> Exhausted(h, outs, size)
  {
    hide NextPower, Shaped, SlabOk, InPlace, Alloc, SizeOf, SA.PageAddress, Power;
    SizeCases(size);
    if size > 2048 {
      assert Big(size);
    } else {
      AllocKeeps(h.ss, pages, outs, NextPower(size + HEADER));
    }
  }

  // --------------------------------------------------------------- freeing again

  /** A slab object plus its header is never page aligned: only the class of eight bytes could end on
      a page boundary, and it fills the first half of its page. */
  lemma {:induction false} NotPageAligned(pages: seq<int>, i: int, p: int)
    requires PagesOk(pages) && 2 <= i < SLAB_COUNT && Member(Base(pages, i), i, p)
    ensures (p + HEADER) % PAGE_SIZE != 0
  {
    hide Base, Power;
    assert |pages| == 6;
    BaseWhole(pages, i);
    MemberInside(Base(pages, i), i, p);
    MemberMultiple(Base(pages, i), i, p);
    if i > 2 {
      OddEight(p, SizeOf(i));
    } else {
      EightInside(Base(pages, i), p);
    }
  }

  lemma {:induction false} MemberMultiple(base: int, i: int, p: int)
    requires 0 <= i < SLAB_COUNT && base % MAX_SLAB_SIZE == 0 && Member(base, i, p)
    ensures p % SizeOf(i) == 0
  {
    hide SizeOf, Object;
    var j :| 0 <= j < ObjectsIn(i) && p == Object(base, SizeOf(i), j);
    ObjectAligned(base, i, j);
  }

  lemma {:induction false} OddEight(p: int, size: int)
    requires size in {16, 32, 64, 128, 256, 512, 1024, 2048} && p % size == 0
    ensures (p + 8) % 4096 != 0
  {
  }

  lemma {:induction false} EightInside(base: int, p: int)
    requires base % PAGE_SIZE == 0 && base <= p <= base + 2040
    ensures (p + 8) % PAGE_SIZE != 0
  {
    var q, d := base / PAGE_SIZE, p + 8 - base;
    assert base == PAGE_SIZE * q && p + 8 == PAGE_SIZE * q + d;
    Remainder(q, d);
  }

  /** Taking pages and giving them back restores the frames exactly when all of them were free. */
  lemma {:induction false} TakenReleased(s: Frames, n: nat)
    requires FramesOk(s) && Served(s, n) >= 0 && Served(s, n) + n <= |s.used|
    ensures |Taken(s, n).used| == |s.used|
    ensures Released(Taken(s, n), Served(s, n), n) == s <==> RangeIs(s.used, Served(s, n), n, false)
  {
    hide Served, Wrap32, SetRange;
    var f := Served(s, n);
    var taken := SetRange(s.used, f, n, true);
    var back := SetRange(taken, f, n, false);
    CounterBack(s.counter, n);
    if back == s.used {
      assert RangeIs(s.used, f, n, false);
    }
    if RangeIs(s.used, f, n, false) {
      assert back == s.used;
    }
  }

  lemma {:induction false} CounterBack(c: int, n: int)
    requires 0 <= c < COUNTER
    ensures Wrap32(Wrap32(c + n) - n) == c
  {
    ModShift(c + n, -n);
  }

  lemma {:induction false} PageIndex(la57: bool, f: int)
    requires 0 <= f < 0x8000_0000
    ensures IndexAt(la57, SA.PageAddress(la57, f)) == f
  {
    HigherHalfInverse(la57, PAGE_SIZE * f);
    hide PhysToHigherHalfData, HigherHalfDataToPhys;
    SmallPage(f);
  }

  lemma {:induction false} SmallPage(f: int)
    requires 0 <= f < 0x8000_0000
    ensures ToInt32(PAGE_SIZE * f / PAGE_SIZE) == f
  {
  }

  /** kfree of a big block gives back to the page allocator exactly the pages kmalloc took: the frames
      are as before, provided the pages were all free when they were taken, and only then. */
  lemma {:induction false} BigUndone(la57: bool, h: Heap, size: int, h': Heap, r: Outcome)
    requires HeapShaped(h) && |h.s.used| <= 0x8000_0000 && 2048 < size <= 0x8000_0000_0000_0000
    requires Allocates(la57, h, size, h', r) && r.Pointer?
    ensures MayRelease(la57, h', r.ptr) && r.ptr % PAGE_SIZE == 0
    ensures var n := PagesOf(NextPower(size));
            n >= 0 && InRange(h.s, n) && Served(h.s, n) >= 0
            && (ReleasedHeap(la57, h', r.ptr).s == h.s <==> RangeIs(h.s.used, Served(h.s, n), n, false))
            && ReleasedHeap(la57, h', r.ptr).ss == h.ss
  {
    SizeCases(size);
    hide NextPower, Shaped, Served, SA.PageAddress, IndexAt, Wrap32, SetRange, RangeIs;
    var n: nat := PagesOf(NextPower(size));
    var f := Served(h.s, n);
    SA.AddressOfFrame(la57, f);
    PageIndex(la57, f);
    TakenReleased(h.s, n);
    WholeNext(SA.PageAddress(la57, f));
  }

  lemma {:induction false} WholeNext(v: int)
    requires v % PAGE_SIZE == 0
    ensures (v + PAGE_SIZE) % PAGE_SIZE == 0
  {
  }

  /** kfree of a slab block puts it back exactly when it ends within the first 1024 bytes of its slab;
      any other is never available again. */
  lemma {:induction false} SmallFreed(la57: bool, h: Heap, pages: seq<int>, outs: seq<set<int>>, i: int, p: int)
    requires HeapShaped(h) && SlabsOk(h.ss, pages, outs) && 2 <= i < SLAB_COUNT && p in outs[i]
    ensures MayRelease(la57, h, p + HEADER)
    ensures var h' := ReleasedHeap(la57, h, p + HEADER);
            h'.s == h.s
            && if p + SizeOf(i) <= Base(pages, i) + 1024 then SlabsOk(h'.ss, pages, outs[i := outs[i] - {p}])
               else h'.ss == h.ss
  {
    assert |pages| == 6;
    hide SizeOf, Base, Shaped, SlabOk, Member, PagesOk, Free, TakeBack, Ranged;
    assert SlabOk(h.ss[i], Base(pages, i), i, outs[i]);
    OutMember(h.ss[i], Base(pages, i), i, outs[i], p);
    BaseWhole(pages, i);
    MemberInside(Base(pages, i), i, p);
    NotPageAligned(pages, i, p);
    FreeKeeps(h.ss, pages, outs, i, p);
  }
}
