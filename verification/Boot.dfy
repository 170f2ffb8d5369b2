/**
 The order of kmain: pmm_init, vmm_init, slab_init. What the memory map must hold for all three to be served, and
 the heap they leave.
 */
module Boot {
  import opened Addresses
  import opened PageFrames
  import opened PageTables
  import opened VmmState
  import Kmalloc
  import KmallocOverlap
  import KmallocRuns
  import Pmm
  import PmmCapacity
  import SA = SlabAllocator
  import Slabs
  import VirtualAddresses
  import Vmm
  import VmmInit

  /** Pages of the page tables and of the slabs. */
  function BootPages(la57: bool): nat {
    VmmInit.AllTables(la57) + 6
  }

  /** The memory map has pages for both and spare more, and the counter pmm_init leaves lets them be served. */
  ghost predicate Enough(es: seq<Pmm.Entry>, la57: bool, spare: nat) {
    Pmm.MapOk(es)
    && var counter := Wrap32(Pmm.MaxPages(Pmm.TopOf(es, |es|)) - Pmm.UsablePages(Pmm.CarvedMap(es), |es|));
       BootPages(la57) + spare <= PmmCapacity.FreePages(es) && 0 < counter
         && counter + BootPages(la57) + spare < COUNTER
  }

  /** Below 16 GiB only the pages matter. */
  lemma {:induction false} EnoughBelow16G(es: seq<Pmm.Entry>, la57: bool, spare: nat)
    requires Pmm.MapOk(es) && Pmm.TopOf(es, |es|) < 0x4_0000_0000
    ensures Enough(es, la57, spare) <==> BootPages(la57) + spare <= PmmCapacity.FreePages(es)
  {
    hide Pmm.MapOk, Pmm.TopOf, Pmm.CarvedMap, Pmm.UsablePages, Pmm.MaxPages, Wrap32, PmmCapacity.ZeroPage,
         Pmm.BitmapSize;
    Pmm.MapFacts(es);
    var r := PmmCapacity.AllFreed(es, 8 * Pmm.BitmapSize(Pmm.TopOf(es, |es|)));
    PmmCapacity.SomePages(es);
    PmmCapacity.CounterBelow16G(Pmm.TopOf(es, |es|), Pmm.UsablePages(Pmm.CarvedMap(es), |es|));
  }

  /** A machine with 64 MiB has enough, and more than 11000 pages besides. */
  lemma {:induction false} SmallEnough(la57: bool, spare: nat)
    requires spare <= 11000
    ensures Enough(PmmCapacity.SmallMachine(), la57, spare)
  {
    hide Pmm.MapOk, Pmm.TopOf, Pmm.CarvedMap, Pmm.UsablePages, Pmm.BitmapSize, Enough, Pmm.Usable,
         PmmCapacity.SmallMachine;
    PmmCapacity.SmallMap();
    EnoughBelow16G(PmmCapacity.SmallMachine(), la57, spare);
  }

  /** Memory is there for all pages, and the usable pages hold no present entries, those of the bitmap excepted. */
  ghost predicate MemoryReady(memory: Memory, es: seq<Pmm.Entry>)
    requires Pmm.MapOk(es)
  {
    MemoryOk(memory) && Pmm.TopOf(es, |es|) / PAGE_SIZE <= |memory| <= 0x100_0000_0000
    && forall f :: 0 <= f < |memory| && Pmm.Usable(es, |es|, f) && !Pmm.InStorage(es, f) ==> Clean(memory, f)
  }

  lemma {:induction false} Servable(s: Frames, es: seq<Pmm.Entry>, la57: bool, spare: nat)
    requires Pmm.Started(s, es) && Enough(es, la57, spare)
    ensures CanServe(s, VmmInit.AllTables(la57) + (6 + spare)) && FramesOk(s) && |s.used| <= 0x8000_0000
  {
    hide Pmm.MapOk, Pmm.TopOf, Pmm.CarvedMap, Pmm.UsablePages, Pmm.MaxPages, Wrap32, PmmCapacity.FreePages,
         Pmm.BitmapSize,
         CanServe, PmmCapacity.AllServed, Pmm.FreeAfterInit;
    PmmCapacity.ServesAfterInit(s, es, BootPages(la57) + spare);
    Pmm.MapFacts(es);
  }

  lemma {:induction false} StartClean(s: Frames, es: seq<Pmm.Entry>, memory: Memory)
    requires Pmm.Started(s, es) && MemoryReady(memory, es)
    ensures MemoryOk(memory) && FreeFramesClean(memory, s) && s.pages <= |memory| <= 0x100_0000_0000
  {
    hide Pmm.MapOk, Pmm.TopOf, Pmm.CarvedMap, Pmm.UsablePages, Pmm.MaxPages, Wrap32, Pmm.BitmapSize, Pmm.Usable,
         Pmm.InStorage, Clean, MemoryOk;
  }

  lemma {:induction false} EnoughMap(es: seq<Pmm.Entry>, la57: bool, spare: nat)
    requires Enough(es, la57, spare)
    ensures Pmm.MapOk(es)
  {
  }

  lemma {:induction false} ServesFewer(s: Frames, n: nat, k: nat)
    requires CanServe(s, n) && k <= n
    ensures CanServe(s, k)
  {
    hide ClearIn;
  }

  lemma {:induction false} VmmReady(v: Vmm.Vmm)
    requires v.pmm.Valid() && v.pmm.la57 == v.la57 && |v.pmm.State().used| <= 0x8000_0000
    ensures v.Ready()
  {
  }

  /** More pages in use leave the page tables as they are. */
  lemma {:induction false} TablesStay(v: Vmm.Vmm, s2: Frames)
    requires v.pmm.Valid() && v.Ready() && CanServe(s2, 6) && v.pmm.State() == SA.TakenTimes(s2, 6)
    requires VmOk(v.memory, v.tree, VirtualAddresses.Levels(v.la57), v.Root(), s2)
    ensures v.Valid()
  {
    hide Hung, Covered, CanServe, SA.TakenTimes, SA.FrameList, Clean;
    SA.FramesUsed(s2, 6);
    var s := v.pmm.State();
    forall f | 0 <= f < s.pages && !s.used[f] ensures Clean(v.memory, f) { assert !s2.used[f]; }
  }

  lemma {:induction false} TablesNow(v: Vmm.Vmm)
    requires v.Valid()
    ensures v.pmm.Valid() && v.Ready()
    ensures VmOk(v.memory, v.tree, VirtualAddresses.Levels(v.la57), v.Root(), v.pmm.State())
  {
  }

  /** pmm_init, vmm_init and slab_init in a row. The ghost results are the frames after the first and the second: all
      page tables are laid, the six slab pages served, spare more pages still to be had, and the heap is sound with
      every page that was in use before reserved. */
  method BootMemory(pmm: Pmm.Pmm, v: Vmm.Vmm, sa: SA.SlabAllocator, memmap: array<Pmm.Entry>, ghost spare: nat)
      returns (ghost s1: Frames, ghost s2: Frames)
    requires v.pmm == pmm && sa.pmm == pmm && v.la57 == pmm.la57 && pmm.highestPage == 0
    requires Enough(memmap[..], v.la57, spare) && MemoryReady(v.memory, memmap[..])
    requires SA.Sized(sa.slabs[..]) && sa.internalMemPtr == Slabs.NULL && sa.internalMemLen == 0
    requires sa.pageAllocCount == 0
    modifies pmm, memmap, v, sa, sa.slabs
    ensures pmm.Valid() && v.Valid()
    ensures Pmm.Started(s1, old(memmap[..])) && VmmInit.Finished(v.la57, v.Root(), v.memory, v.tree, s1, s2)
    ensures VmOk(v.memory, v.tree, VirtualAddresses.Levels(v.la57), v.Root(), s2) && |s2.used| <= 0x8000_0000
    ensures CanServe(s2, 6) && CanServe(s2, 6 + spare) && pmm.State() == SA.TakenTimes(s2, 6)
    ensures Slabs.Fresh(sa.slabs[..], SA.PageList(v.la57, s2, 6))
    ensures KmallocRuns.Sound(v.la57, KmallocRuns.Start(s2, sa.slabs[..], map[]), KmallocRuns.UsedPages(s2))
  {
    hide *;
    ghost var es := memmap[..];
    EnoughMap(es, v.la57, spare);
    pmm.Init(memmap);
    s1 := pmm.State();
    Servable(s1, es, v.la57, spare);
    StartClean(s1, es, v.memory);
    VmmReady(v);
    VmmInit.Init(v, 6 + spare);
    TablesNow(v);
    s2 := pmm.State();
    ServesFewer(s2, 6 + spare, 6);
    MoreUsed(v.la57, v.Root(), v.memory, v.tree, s1, s2);
    sa.Init();
    SA.FramesUsed(s2, 6);
    VmmReady(v);
    TablesStay(v, s2);
    KmallocRuns.SoundStart(v.la57, s2, sa.slabs[..], map[]);
  }

  /** From there, over every run of kmalloc and kfree that is served clear pages, no live block has a byte in page 0,
      the bitmap, memory that is not usable, or a page table. */
  lemma {:induction false} HeapApart(la57: bool, root: int, mem: Memory, tree: Tree, es: seq<Pmm.Entry>, s1: Frames,
                                     s2: Frames, ss: seq<Slabs.Slab>, headers: Kmalloc.Headers,
                                     ls: seq<KmallocRuns.Live>, cs: seq<KmallocRuns.Call>, n: nat, b: KmallocRuns.Block,
                                     p: int)
    requires Pmm.Started(s1, es) && VmmInit.Finished(la57, root, mem, tree, s1, s2)
    requires VmOk(mem, tree, VirtualAddresses.Levels(la57), root, s2)
    requires CanServe(s2, 6) && |s2.used| <= 0x8000_0000 && Slabs.Fresh(ss, SA.PageList(la57, s2, 6))
    requires KmallocRuns.IsRun(la57, ls, cs) && ls[0] == KmallocRuns.Start(s2, ss, headers)
    requires n <= |cs| && KmallocRuns.AllClear(la57, ls, cs, n)
    requires |ls[n].frames| == 6 && KmallocRuns.IsLive(ls[n], b) && KmallocRuns.InPage(ls[n], b, p)
    ensures p != 0 && Pmm.Usable(es, |es|, p) && !Pmm.InStorage(es, p)
    ensures forall r :: r in tree ==> tree[r] != p
  {
    hide *;
    MoreUsed(la57, root, mem, tree, s1, s2);
    KmallocRuns.LiveUsable(la57, es, s1, s2, ss, headers, ls, cs, n, b, p);
    KmallocRuns.NeverReserved(la57, s2, ss, headers, ls, cs, n, b, p);
    NoTable(mem, tree, VirtualAddresses.Levels(la57), root, s2, p);
  }

  lemma {:induction false} MoreUsed(la57: bool, root: int, mem: Memory, tree: Tree, s1: Frames, s2: Frames)
    requires VmmInit.Finished(la57, root, mem, tree, s1, s2)
    ensures |s2.used| == |s1.used| && forall q :: 0 <= q < |s1.used| && s1.used[q] ==> s2.used[q]
  {
    hide ClearIn, Walk, MemoryOk;
    MoreSpent(s1, s2, |tree|);
  }

  lemma {:induction false} MoreSpent(s1: Frames, s2: Frames, k: int)
    requires Spent(s1, s2, k)
    ensures |s2.used| == |s1.used| && forall q :: 0 <= q < |s1.used| && s1.used[q] ==> s2.used[q]
  {
  }

  lemma {:induction false} NoTable(mem: Memory, tree: Tree, levels: nat, root: int, s: Frames, p: int)
    requires VmOk(mem, tree, levels, root, s) && 0 <= p < |s.used| && !s.used[p]
    ensures forall r :: r in tree ==> tree[r] != p
  {
  }

  /** On a machine with 64 MiB, booted in this order, the run of five calls hands out a page of a live block. */
  lemma {:induction false} PageTwiceAfterBoot(la57: bool, root: int, mem: Memory, tree: Tree, s1: Frames, s2: Frames,
                                              ss: seq<Slabs.Slab>, headers: Kmalloc.Headers)
      returns (ls: seq<KmallocRuns.Live>, f: int)
    requires Pmm.Started(s1, PmmCapacity.SmallMachine()) && VmmInit.Finished(la57, root, mem, tree, s1, s2)
    requires CanServe(s2, 6) && CanServe(s2, 18) && |s2.used| <= 0x8000_0000
    requires Slabs.Fresh(ss, SA.PageList(la57, s2, 6))
    ensures KmallocRuns.IsRun(la57, ls, KmallocOverlap.Calls(la57, f)) && ls[0] == KmallocRuns.Start(s2, ss, headers)
    ensures KmallocRuns.AllClear(la57, ls, KmallocOverlap.Calls(la57, f), 4)
    ensures KmallocRuns.IsLive(ls[5], KmallocRuns.Pages(f + 2)) && KmallocRuns.IsLive(ls[5], KmallocRuns.Pages(f + 3))
    ensures KmallocRuns.ShareBytes(la57, f + 2, ls[5].bigs[f + 2], f + 3, ls[5].bigs[f + 3])
  {
    hide *;
    var k := FramesGone(la57, root, mem, tree, s1, s2);
    KmallocOverlap.RunAfterInit(s1);
    KmallocOverlap.SpentRun(s1, s2, k, 2, 16383);
    FirstEleven(s2, 2 + k, 16383 - k);
    f := 2 + k + 6;
    ls := KmallocOverlap.PageTwiceFromStart(la57, s2, ss, headers, 2 + k);
  }

  lemma {:induction false} FramesGone(la57: bool, root: int, mem: Memory, tree: Tree, s1: Frames, s2: Frames)
      returns (k: nat)
    requires VmmInit.Finished(la57, root, mem, tree, s1, s2)
    ensures Spent(s1, s2, k) && k <= 5137
  {
    hide Walk, MemoryOk, Spent;
    k := |tree|;
  }

  lemma {:induction false} FirstEleven(s: Frames, f: int, m: nat)
    requires KmallocOverlap.ClearRun(s, f, m) && m >= 11 && CanServe(s, 18)
    ensures KmallocOverlap.ClearRun(s, f, 11) && 0 < s.counter && s.counter + 12 < COUNTER
  {
    hide ClearIn;
  }
}
