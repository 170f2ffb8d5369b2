/**
 The virtual memory manager: the kernel's page-table functions over physical memory, with the
 frames for new tables taken from the physical memory manager.
 */
module Vmm {
  import opened Addresses
  import opened PageFrames
  import opened PageTables
  import opened VirtualAddresses
  import opened VmmState
  import BitOps
  import Pmm

  const PTE_PRESENT: int := 1
  const PTE_READ_WRITE: int := 2

  /** The frame a pointer reaches under the boot loader's mapping, where physical memory appears
      both at its own address and in the higher half. */
  function FrameAt(la57: bool, pointer: int): int {
    if pointer >= HalfData(la57) then HigherHalfDataToPhys(la57, pointer) / PAGE_SIZE else pointer / PAGE_SIZE
  }

  /** entry & ~511 */
  function ClearFlags(w: int): int {
    w - w % 512
  }

  predicate Aligned(address: int) {
    address % PAGE_SIZE == 0
  }

  function PageOf(address: int): int {
    address / PAGE_SIZE
  }

  class Vmm {
    const la57: bool
    const pmm: Pmm.Pmm
    var memory: Memory
    var rootPageDirectory: int
    ghost var tree: Tree

    constructor (pmm: Pmm.Pmm, memory: Memory)
      ensures this.pmm == pmm && this.la57 == pmm.la57 && this.memory == memory
    {
      this.pmm := pmm;
      this.la57 := pmm.la57;
      this.memory := memory;
      rootPageDirectory := 0;
      tree := map[];
    }

    /** The frame that holds the root table. */
    ghost function Root(): int
      reads `rootPageDirectory
    {
      FrameAt(la57, rootPageDirectory)
    }

    ghost predicate Ready()
      requires pmm.Valid()
      reads pmm, pmm.bitmap, pmm.bitmap.bytes
    {
      pmm.la57 == la57 && |pmm.State().used| <= 0x8000_0000
    }

    ghost predicate Valid()
      reads this, pmm, pmm.bitmap, pmm.bitmap.bytes
    {
      pmm.Valid() && Ready() && VmOk(memory, tree, Levels(la57), Root(), pmm.State())
    }

    /** vmm_get_page_map_level: follow an entry, or fill it with a new table first. The new table is
        not cleared. */
    method GetPageMapLevel(pageMapLevelX: int, indexX: int, flags: int) returns (next: int)
      requires pmm.Valid() && Ready()
      requires MemoryOk(memory) && 0 <= FrameAt(la57, pageMapLevelX) < |memory| && 0 <= indexX < 512
      requires IsFlags(flags)
      requires !Present(Word(memory, FrameAt(la57, pageMapLevelX), indexX)) ==> CanServe(pmm.State(), 1)
      modifies `memory, pmm`usedPages, pmm.bitmap.bytes
      ensures pmm.Valid() && Ready()
      ensures Followed(old(memory), old(pmm.State()), FrameAt(la57, pageMapLevelX), indexX, flags,
                       memory, pmm.State(), next)
    {
      hide Taken, Served, CanServe, FirstClear, PhysToHigherHalfData, HigherHalfDataToPhys;
      var f := FrameAt(la57, pageMapLevelX);
      hide FrameAt;
      if Present(memory[f][indexX]) {
        next := ClearFlags(memory[f][indexX]);
      } else {
        assert var g := Served(pmm.State(), 1); 0 < g && g + 1 <= |pmm.State().used| by { ServeOne(pmm.State(), 1); }
        ghost var g := Served(pmm.State(), 1);
        var pointer := pmm.Alloc(1);
        assert HigherHalfDataToPhys(la57, pointer) == PAGE_SIZE * g by { HigherHalfInverse(la57, PAGE_SIZE * g); }
        assert BitOps.BitOr(PAGE_SIZE * g, flags) == Entry(g, flags)
          && ClearFlags(Entry(g, flags)) == PAGE_SIZE * g by {
          OrEntry(g, flags);
        }
        var word := BitOps.BitOr(HigherHalfDataToPhys(la57, pointer), flags);
        memory := memory[f := memory[f][indexX := word]];
        next := ClearFlags(word);
      }
    }

    /** vmm_create_page_directory: a frame, cleared. */
    method CreatePageDirectory() returns (pointer: int)
      requires pmm.Valid() && Ready() && MemoryOk(memory) && pmm.State().pages <= |memory| && CanServe(pmm.State(), 1)
      modifies `memory, pmm`usedPages, pmm.bitmap.bytes
      ensures pmm.Valid() && Ready()
      ensures var g := Served(old(pmm.State()), 1);
              0 <= g < |old(memory)| && g + 1 <= |old(pmm.State()).used| && FrameAt(la57, pointer) == g
              && memory == old(memory)[g := Zeros()] && pmm.State() == Taken(old(pmm.State()), 1)
    {
      hide Taken, Served, CanServe, FirstClear, PhysToHigherHalfData, HigherHalfDataToPhys, FrameAt, Zeros;
      ServeOne(pmm.State(), 1);
      ghost var g := Served(pmm.State(), 1);
      pointer := pmm.Alloc(1);
      HigherHalfInverse(la57, PAGE_SIZE * g);
      RootPointer(la57, g);
      var f := HigherHalfDataToPhys(la57, pointer) / PAGE_SIZE;
      memory := memory[f := Zeros()];
    }

    /** One level of a mapping: the next table exists, or is hung in, or, if the flags do not say present, is
        filled in without being reached. The way down q started in the state mem0, tree0, s0 and has come to
        depth d. */
    method MapLevel(pageMapLevelX: int, indexX: int, flags: int, ghost q: Path, ghost d: nat, ghost spare: nat,
                    ghost mem0: Memory, ghost tree0: Tree, ghost s0: Frames) returns (next: int)
      requires pmm.Valid() && Ready() && PathOk(q) && d < |q| - 1 && indexX == q[d] && IsFlags(flags)
      requires Going(la57, Root(), q, d, spare, flags, mem0, tree0, s0, memory, tree, pmm.State(), pageMapLevelX)
      modifies `memory, `tree, pmm`usedPages, pmm.bitmap.bytes
      ensures pmm.Valid() && Ready()
      ensures Going(la57, Root(), q, d + 1, spare, flags, mem0, tree0, s0, memory, tree, pmm.State(), next)
    {
      hide *;
      ghost var mem, t, s := memory, tree, pmm.State();
      MayGo(la57, Root(), q, d, spare, flags, mem0, tree0, s0, mem, t, s, pageMapLevelX);
      next := GetPageMapLevel(pageMapLevelX, indexX, flags);
      if Present(flags) { tree := TreeAfter(mem, t, s, q, d); }
      GoOne(la57, Root(), q, d, spare, flags, mem0, tree0, s0, mem, t, s, pageMapLevelX, memory, pmm.State(), next);
    }

    lemma {:induction false} Begin(currentPageDirectory: int, va: nat, flags: int, spare: nat)
      requires Valid() && FrameAt(la57, currentPageDirectory) == Root()
      requires MayMap(la57, tree, pmm.State(), PathOf(la57, va), flags, spare)
      ensures pmm.Valid() && Ready() && IsFlags(flags)
      ensures var q := PathOf(la57, va);
              PathOk(q) && Selects(la57, va, q) && |q| == (if la57 then 5 else 4) == Levels(la57)
              && Going(la57, Root(), q, 0, spare, flags, memory, tree, pmm.State(), memory, tree, pmm.State(),
                       currentPageDirectory)
    {
      hide VmOk, Going, FrameAt, CanServe, Missing, Present, LargeBit, IndexBits;
      Indices(la57, va);
      SetOut(la57, Root(), PathOf(la57, va), spare, flags, memory, tree, pmm.State(), currentPageDirectory);
    }

    /** vmm_map_page. The ghost argument counts free frames the caller still needs afterwards. */
    method MapPage(currentPageDirectory: int, physicalAddress: nat, virtualAddress: nat, flags: int, ghost spare: nat)
      requires Valid() && FrameAt(la57, currentPageDirectory) == Root() && IsFrame(PageOf(physicalAddress))
      requires MayMap(la57, tree, pmm.State(), PathOf(la57, virtualAddress), flags, spare)
      modifies `memory, `tree, pmm`usedPages, pmm.bitmap.bytes
      ensures Valid()
      ensures Landed(Root(), PathOf(la57, virtualAddress), physicalAddress, flags, spare,
                     old(memory), old(tree), old(pmm.State()), memory, tree, pmm.State())
      ensures Present(flags) && Aligned(physicalAddress) ==>
                Mapped(Root(), PathOf(la57, virtualAddress), PageOf(physicalAddress), flags, spare,
                       old(memory), old(tree), old(pmm.State()), memory, tree, pmm.State())
    {
      hide *;
      Begin(currentPageDirectory, virtualAddress, flags, spare);
      SelectsAt(la57, virtualAddress, PathOf(la57, virtualAddress));
      ghost var mem0, tree0, s0, q := memory, tree, pmm.State(), PathOf(la57, virtualAddress);
      if la57 {
        var index5 := IndexBits(virtualAddress, 48);
        var index4, index3 := IndexBits(virtualAddress, 39), IndexBits(virtualAddress, 30);
        var index2, index1 := IndexBits(virtualAddress, 21), IndexBits(virtualAddress, 12);
        var pageMapLevel4 := MapLevel(currentPageDirectory, index5, flags, q, 0, spare, mem0, tree0, s0);
        var pageMapLevel3 := MapLevel(pageMapLevel4, index4, flags, q, 1, spare, mem0, tree0, s0);
        var pageMapLevel2 := MapLevel(pageMapLevel3, index3, flags, q, 2, spare, mem0, tree0, s0);
        var pageMapLevel1 := MapLevel(pageMapLevel2, index2, flags, q, 3, spare, mem0, tree0, s0);
        WriteLeaf(pageMapLevel1, index1, physicalAddress, flags, q, spare, mem0, tree0, s0);
      } else {
        var index4, index3 := IndexBits(virtualAddress, 39), IndexBits(virtualAddress, 30);
        var index2, index1 := IndexBits(virtualAddress, 21), IndexBits(virtualAddress, 12);
        var pageMapLevel3 := MapLevel(currentPageDirectory, index4, flags, q, 0, spare, mem0, tree0, s0);
        var pageMapLevel2 := MapLevel(pageMapLevel3, index3, flags, q, 1, spare, mem0, tree0, s0);
        var pageMapLevel1 := MapLevel(pageMapLevel2, index2, flags, q, 2, spare, mem0, tree0, s0);
        WriteLeaf(pageMapLevel1, index1, physicalAddress, flags, q, spare, mem0, tree0, s0);
      }
    }

    /** One level of an unmapping. The flags are zero, so where a table is missing the new one is not
        hung in: its frame is lost. */
    method UnmapLevel(pageMapLevelX: int, indexX: int, ghost q: Path, ghost d: nat, ghost spare: nat,
                      ghost mem0: Memory, ghost s0: Frames) returns (next: int)
      requires pmm.Valid() && Ready() && PathOk(q) && d < |q| - 1 && indexX == q[d]
      requires Sinking(la57, Root(), q, d, spare, mem0, tree, s0, memory, pmm.State(), pageMapLevelX)
      modifies `memory, pmm`usedPages, pmm.bitmap.bytes
      ensures pmm.Valid() && Ready()
      ensures Sinking(la57, Root(), q, d + 1, spare, mem0, tree, s0, memory, pmm.State(), next)
    {
      hide *;
      ghost var mem, s := memory, pmm.State();
      MayFollowDown(la57, Root(), q, d, spare, mem0, tree, s0, mem, s, pageMapLevelX);
      ZeroFlags();
      next := GetPageMapLevel(pageMapLevelX, indexX, 0);
      SinkOne(la57, Root(), q, d, spare, 0, mem0, tree, s0, mem, s, pageMapLevelX, memory, pmm.State(), next);
    }

    /** vmm_unmap_page */
    method UnmapPage(currentPageDirectory: int, virtualAddress: nat, ghost spare: nat)
      requires Valid() && FrameAt(la57, currentPageDirectory) == Root()
      requires CanServe(pmm.State(), Missing(tree, PathOf(la57, virtualAddress), 0) + spare)
      modifies `memory, pmm`usedPages, pmm.bitmap.bytes
      ensures Valid()
      ensures Unmapped(Root(), PathOf(la57, virtualAddress), spare, old(memory), tree, old(pmm.State()), memory,
                       pmm.State())
    {
      hide *;
      BeginUnmap(currentPageDirectory, virtualAddress, spare);
      SelectsAt(la57, virtualAddress, PathOf(la57, virtualAddress));
      ghost var mem0, s0, q := memory, pmm.State(), PathOf(la57, virtualAddress);
      if la57 {
        var index5 := IndexBits(virtualAddress, 48);
        var index4, index3 := IndexBits(virtualAddress, 39), IndexBits(virtualAddress, 30);
        var index2, index1 := IndexBits(virtualAddress, 21), IndexBits(virtualAddress, 12);
        var pageMapLevel4 := UnmapLevel(currentPageDirectory, index5, q, 0, spare, mem0, s0);
        var pageMapLevel3 := UnmapLevel(pageMapLevel4, index4, q, 1, spare, mem0, s0);
        var pageMapLevel2 := UnmapLevel(pageMapLevel3, index3, q, 2, spare, mem0, s0);
        var pageMapLevel1 := UnmapLevel(pageMapLevel2, index2, q, 3, spare, mem0, s0);
        ClearLeaf(pageMapLevel1, index1, q, spare, mem0, s0);
      } else {
        var index4, index3 := IndexBits(virtualAddress, 39), IndexBits(virtualAddress, 30);
        var index2, index1 := IndexBits(virtualAddress, 21), IndexBits(virtualAddress, 12);
        var pageMapLevel3 := UnmapLevel(currentPageDirectory, index4, q, 0, spare, mem0, s0);
        var pageMapLevel2 := UnmapLevel(pageMapLevel3, index3, q, 1, spare, mem0, s0);
        var pageMapLevel1 := UnmapLevel(pageMapLevel2, index2, q, 2, spare, mem0, s0);
        ClearLeaf(pageMapLevel1, index1, q, spare, mem0, s0);
      }
    }

    lemma {:induction false} BeginUnmap(currentPageDirectory: int, va: nat, spare: nat)
      requires Valid() && FrameAt(la57, currentPageDirectory) == Root()
      requires CanServe(pmm.State(), Missing(tree, PathOf(la57, va), 0) + spare)
      ensures pmm.Valid() && Ready()
      ensures var q := PathOf(la57, va);
              PathOk(q) && Selects(la57, va, q) && |q| == (if la57 then 5 else 4) == Levels(la57)
              && Sinking(la57, Root(), q, 0, spare, memory, tree, pmm.State(), memory, pmm.State(),
                         currentPageDirectory)
    {
      Indices(la57, va);
      hide VmOk, Sinking, FrameAt;
      Submerge(la57, Root(), PathOf(la57, va), spare, memory, tree, pmm.State(), currentPageDirectory);
    }

    /** pageMapLevel1[index1] = 0 */
    method ClearLeaf(pageMapLevel1: int, index1: int, ghost q: Path, ghost spare: nat, ghost mem0: Memory,
                     ghost s0: Frames)
      requires pmm.Valid() && Ready() && PathOk(q) && q != [] && |q| == Levels(la57) && index1 == q[|q| - 1]
      requires Sinking(la57, Root(), q, |q| - 1, spare, mem0, tree, s0, memory, pmm.State(), pageMapLevel1)
      modifies `memory
      ensures Valid()
      ensures Unmapped(Root(), q, spare, mem0, tree, s0, memory, pmm.State())
    {
      hide *;
      LeafSinks(la57, Root(), q, 0, spare, mem0, tree, s0, memory, pmm.State(), pageMapLevel1);
      var f := FrameAt(la57, pageMapLevel1);
      memory := Write(memory, f, index1, 0);
      NowValid();
      ZeroFlags();
      NothingThere(Root(), q, 0, spare, mem0, tree, s0, memory, pmm.State());
    }

    lemma {:induction false} NowValid()
      requires pmm.Valid() && Ready() && VmOk(memory, tree, Levels(la57), Root(), pmm.State())
      ensures Valid()
    {
    }

    /** pageMapLevel1[index1] = physicalAddress | flags */
    method WriteLeaf(pageMapLevel1: int, index1: int, physicalAddress: nat, flags: int, ghost q: Path, ghost spare: nat,
                     ghost mem0: Memory, ghost tree0: Tree, ghost s0: Frames)
      requires pmm.Valid() && Ready() && PathOk(q) && q != [] && |q| == Levels(la57) && index1 == q[|q| - 1]
      requires IsFlags(flags) && IsFrame(PageOf(physicalAddress))
      requires Going(la57, Root(), q, |q| - 1, spare, flags, mem0, tree0, s0, memory, tree, pmm.State(), pageMapLevel1)
      modifies `memory
      ensures Valid()
      ensures Landed(Root(), q, physicalAddress, flags, spare, mem0, tree0, s0, memory, tree, pmm.State())
      ensures Present(flags) && Aligned(physicalAddress) ==>
                Mapped(Root(), q, PageOf(physicalAddress), flags, spare, mem0, tree0, s0, memory, tree, pmm.State())
    {
      hide *;
      LeafBits(physicalAddress, flags);
      LeafLands(la57, Root(), q, spare, flags, physicalAddress, mem0, tree0, s0, memory, tree, pmm.State(),
                pageMapLevel1);
      var f := FrameAt(la57, pageMapLevel1);
      memory := Write(memory, f, index1, BitOps.BitOr(physicalAddress, flags));
      NowValid();
      LandedEntry(Root(), q, physicalAddress, flags, spare, mem0, tree0, s0, memory, tree, pmm.State());
    }
  }

  /** What following slot i of the table in frame f does: a present entry is masked; an empty one is
      filled with the frame the allocator serves. */
  ghost predicate Followed(mem: Memory, s: Frames, f: int, i: int, flags: int, mem': Memory, s': Frames, next: int)
    requires MemoryOk(mem) && 0 <= f < |mem| && 0 <= i < 512 && FramesOk(s)
  {
    if Present(Word(mem, f, i)) then mem' == mem && s' == s && next == ClearFlags(Word(mem, f, i))
    else
      var g := Served(s, 1);
      g > 0 && g + 1 <= |s.used| && s' == Taken(s, 1) && mem' == Write(mem, f, i, Entry(g, flags))
        && next == PAGE_SIZE * g
  }

  ghost function TreeAfter(mem: Memory, tree: Tree, s: Frames, q: Path, d: nat): Tree
    requires MemoryOk(mem) && PathOk(q) && d < |q| && q[..d] in tree && 0 <= tree[q[..d]] < |mem| && FramesOk(s)
  {
    if Present(Word(mem, tree[q[..d]], q[d])) then tree else tree[q[..d + 1] := Served(s, 1)]
  }

  lemma {:induction false} FollowedPasses(la57: bool, root: int, q: Path, d: nat, spare: nat, flags: int,
                                          mem: Memory, tree: Tree, s: Frames, mem': Memory, s': Frames, next: int)
    requires VmOk(mem, tree, |q|, root, s) && PathOk(q) && d < |q| - 1 && q[..d] in tree
    requires IsFlags(flags) && Present(flags) && (LargeBit(flags) ==> q[..d + 1] in tree)
    requires CanServe(s, Missing(tree, q, d) + spare)
    requires Followed(mem, s, tree[q[..d]], q[d], flags, mem', s', next)
    ensures LevelPassed(la57, root, q, d, spare, flags, mem, tree, s, mem', TreeAfter(mem, tree, s, q, d), s', next)
  {
    if Present(Word(mem, tree[q[..d]], q[d])) {
      ExistingLevel(la57, root, q, d, spare, flags, mem, tree, s);
    } else {
      NewLevel(la57, root, q, d, spare, flags, mem, tree, s);
    }
    hide LevelPassed, VmOk, CanServe, Served, Taken, Write, Entry, Present;
  }

  /** Or-ing flags into a page address gives the entry; masking them off gives the address back. */
  lemma {:induction false} OrEntry(g: int, flags: int)
    requires g >= 0 && IsFlags(flags)
    ensures BitOps.BitOr(PAGE_SIZE * g, flags) == Entry(g, flags)
    ensures ClearFlags(Entry(g, flags)) == PAGE_SIZE * g
  {
    BitOps.PowNine();
    hide BitOps.BitOr, BitOps.Shl, BitOps.Pow2;
    BitOps.ShlNine(8 * g);
    BitOps.OrShl(flags, 8 * g, 9);
    BitOps.OrCommutes(PAGE_SIZE * g, flags);
    ClearLow(8 * g, flags);
  }

  lemma {:induction false} LeafBits(address: nat, flags: int)
    requires IsFlags(flags)
    ensures flags >= 0 && (Present(flags) ==> Present(BitOps.BitOr(address, flags)))
    ensures Aligned(address) ==> BitOps.BitOr(address, flags) == Entry(PageOf(address), flags)
  {
    hide BitOps.BitOr, Present, Writable, Entry, Aligned, PageOf;
    FlagsNatural(flags);
    OrTwoBits(address, flags);
    if Aligned(address) {
      AlignedPage(address);
      OrEntry(PageOf(address), flags);
    }
  }

  lemma {:induction false} FlagsNatural(flags: int)
    requires IsFlags(flags)
    ensures flags >= 0
  {
  }

  lemma {:induction false} AlignedPage(address: nat)
    requires Aligned(address)
    ensures PageOf(address) >= 0 && address == PAGE_SIZE * PageOf(address)
  {
  }

  /** What an address that need not be aligned puts into a last-level entry: its page, and its low nine bits
      besides the flags. */
  lemma {:induction false} LeafParts(address: nat, flags: int)
    requires IsFrame(PageOf(address)) && IsFlags(flags)
    ensures var w := BitOps.BitOr(address, flags);
            FrameOf(w) == PageOf(address) && FlagsOf(w) == BitOps.BitOr(address % 512, flags)
            && (Present(w) <==> Present(address) || Present(flags))
            && (Writable(w) <==> Writable(address) || Writable(flags))
  {
    var h, l := address / 512, address % 512;
    BitOps.PowNine();
    BitOps.ShlNine(h);
    BitOps.OrHigh(h, l, flags, 9);
    OrTwoBits(address, flags);
    hide BitOps.BitOr, BitOps.Shl, BitOps.Pow2, Present, Writable;
    HighPage(h, l, BitOps.BitOr(l, flags));
  }

  lemma {:induction false} OrTwoBits(a: nat, b: nat)
    ensures Present(BitOps.BitOr(a, b)) <==> Present(a) || Present(b)
    ensures Writable(BitOps.BitOr(a, b)) <==> Writable(a) || Writable(b)
  {
    assert BitOps.BitOr(a, b) / 2 == BitOps.BitOr(a / 2, b / 2);
  }

  lemma {:induction false} HighPage(h: nat, l: nat, x: nat)
    requires l < 512 && x < 512 && IsFrame(PageOf(512 * h + l))
    ensures FrameOf(512 * h + x) == PageOf(512 * h + l) && FlagsOf(512 * h + x) == x
  {
    var p, m := h / 8, h % 8;
    assert 512 * h + x == 4096 * p + (512 * m + x) && 512 * h + l == 4096 * p + (512 * m + l);
    LowNineBits(h, x);
  }

  lemma {:induction false} ClearLow(h: int, l: int)
    requires 0 <= l < 512
    ensures ClearFlags(512 * h + l) == 512 * h
  {
    LowNineBits(h, l);
  }

  lemma {:induction false} RootPointer(la57: bool, g: int)
    requires 0 <= g < 0x8000_0000
    ensures FrameAt(la57, PhysToHigherHalfData(la57, PAGE_SIZE * g)) == g
  {
    HigherHalfInverse(la57, PAGE_SIZE * g);
  }

  lemma {:induction false} PhysicalPointer(la57: bool, g: int)
    requires IsFrame(g)
    ensures FrameAt(la57, PAGE_SIZE * g) == g
  {
  }

  lemma {:induction false} LinkPointer(w: int, g: int)
    requires Links(w, g)
    ensures ClearFlags(w) == PAGE_SIZE * g
  {
    ClearLow(8 * g, w % 4096);
  }

  /** One level along q was passed: from the table at depth d to the one at depth d + 1, which is
      reached through next, with enough free frames for the missing tables below and spare more. */
  ghost predicate LevelPassed(la57: bool, root: int, q: Path, d: nat, spare: nat, flags: int,
                              mem: Memory, tree: Tree, s: Frames, mem': Memory, tree': Tree, s': Frames, next: int)
    requires d < |q|
  {
    && VmOk(mem', tree', |q|, root, s')
    && q[..d + 1] in tree' && FrameAt(la57, next) == tree'[q[..d + 1]]
    && Grown(mem, tree, s, mem', tree', s', flags)
    && SameWalks(mem, mem', |q|, root)
    && tree'.Keys == tree.Keys + {q[..d + 1]}
    && CanServe(s', Missing(tree', q, d + 1) + spare)
  }

  /** The way down q, begun in the state mem0, tree0, s0, has come to the table at depth d, reached
      through pointer: no page changed, tables along q were added where missing, and there are
      frames for the rest of the way and spare more. */
  ghost predicate Descended(la57: bool, root: int, q: Path, d: nat, spare: nat, flags: int,
                            mem0: Memory, tree0: Tree, s0: Frames, mem: Memory, tree: Tree, s: Frames, pointer: int)
  {
    && d < |q| && VmOk(mem, tree, |q|, root, s)
    && q[..d] in tree && FrameAt(la57, pointer) == tree[q[..d]]
    && Grown(mem0, tree0, s0, mem, tree, s, flags)
    && SameWalks(mem0, mem, |q|, root)
    && tree.Keys <= tree0.Keys + Tables(q)
    && (LargeBit(flags) ==> q[..|q| - 1] in tree)
    && CanServe(s, Missing(tree, q, d) + spare)
  }

  /** What vmm_map_page needs: frames for the tables that are missing, and that nobody passes bit 7, which ends a
      walk in an upper level, together with the present bit while one is missing. */
  ghost predicate MayMap(la57: bool, tree: Tree, s: Frames, q: Path, flags: int, spare: nat) {
    && IsFlags(flags) && |q| == Levels(la57)
    && (Present(flags) && LargeBit(flags) ==> q[..|q| - 1] in tree)
    && CanServe(s, Missing(tree, q, 0) + spare)
  }

  /** The page at q is mapped, no other page changed, and the tree is the old one with the tables
      along q, each new one hung in with the same flags and taking one frame. */
  ghost predicate Mapped(root: int, q: Path, frame: int, flags: int, spare: nat,
                         mem0: Memory, tree0: Tree, s0: Frames, mem: Memory, tree: Tree, s: Frames)
  {
    && q != [] && PathOk(q) && VmOk(mem, tree, |q|, root, s)
    && Grown(mem0, tree0, s0, mem, tree, s, flags)
    && OnlyPage(mem0, mem, |q|, root, q)
    && Walk(mem, root, q, NO_ENTRIES) == Page(frame, flags, PathRights(mem, tree, |q|, root, q, flags))
    && tree.Keys == tree0.Keys + Tables(q)
    && CanServe(s, spare)
  }

  /** The same for any present word w at the end of the way, as an address that is not aligned leaves it. */
  ghost predicate MappedWord(root: int, q: Path, w: int, flags: int, spare: nat,
                             mem0: Memory, tree0: Tree, s0: Frames, mem: Memory, tree: Tree, s: Frames)
  {
    && q != [] && PathOk(q) && VmOk(mem, tree, |q|, root, s)
    && Grown(mem0, tree0, s0, mem, tree, s, flags)
    && OnlyPage(mem0, mem, |q|, root, q)
    && Walk(mem, root, q, NO_ENTRIES) == Page(FrameOf(w), FlagsOf(w), PathRights(mem, tree, |q|, root, q, w))
    && tree.Keys == tree0.Keys + Tables(q)
    && CanServe(s, spare)
  }

  /** Without the present flag nothing is hung in: w is at the end of the way if all its tables were there, and
      each table that was missing cost a frame that is in no table now. */
  ghost predicate Unlinked(root: int, q: Path, w: int, spare: nat, mem0: Memory, tree: Tree, s0: Frames, mem: Memory,
                           s: Frames) {
    && q != [] && PathOk(q) && VmOk(mem, tree, |q|, root, s)
    && OnlyPage(mem0, mem, |q|, root, q)
    && Walk(mem, root, q, NO_ENTRIES)
       == (if q[..|q| - 1] in tree && Present(w) then
             Page(FrameOf(w), FlagsOf(w), PathRights(mem, tree, |q|, root, q, w))
           else NotPresent)
    && Spent(s0, s, Missing(tree, q, 0))
    && CanServe(s, spare)
  }

  /** What vmm_map_page has done. */
  ghost predicate Landed(root: int, q: Path, physicalAddress: nat, flags: int, spare: nat,
                         mem0: Memory, tree0: Tree, s0: Frames, mem: Memory, tree: Tree, s: Frames)
    requires IsFlags(flags)
  {
    var w := BitOps.BitOr(physicalAddress, flags);
    if Present(flags) then MappedWord(root, q, w, flags, spare, mem0, tree0, s0, mem, tree, s)
    else tree == tree0 && Unlinked(root, q, w, spare, mem0, tree, s0, mem, s)
  }

  /** The way down q, hanging tables in if the flags say present, and without reaching them otherwise. */
  ghost predicate Going(la57: bool, root: int, q: Path, d: nat, spare: nat, flags: int,
                        mem0: Memory, tree0: Tree, s0: Frames, mem: Memory, tree: Tree, s: Frames, pointer: int)
  {
    if Present(flags) then Descended(la57, root, q, d, spare, flags, mem0, tree0, s0, mem, tree, s, pointer)
    else tree == tree0 && Sinking(la57, root, q, d, spare, mem0, tree, s0, mem, s, pointer)
  }

  lemma {:induction false} SetOut(la57: bool, root: int, q: Path, spare: nat, flags: int, mem: Memory, tree: Tree,
                                  s: Frames, pointer: int)
    requires VmOk(mem, tree, |q|, root, s) && MayMap(la57, tree, s, q, flags, spare) && FrameAt(la57, pointer) == root
    ensures Going(la57, root, q, 0, spare, flags, mem, tree, s, mem, tree, s, pointer)
  {
    hide VmOk, Descended, Sinking, FrameAt, CanServe, Missing, Present, LargeBit;
    if Present(flags) {
      Depart(la57, root, q, spare, flags, mem, tree, s, pointer);
    } else {
      Submerge(la57, root, q, spare, mem, tree, s, pointer);
    }
  }

  lemma {:induction false} MayGo(la57: bool, root: int, q: Path, d: nat, spare: nat, flags: int,
                                 mem0: Memory, tree0: Tree, s0: Frames, mem: Memory, tree: Tree, s: Frames,
                                 pointer: int)
    requires Going(la57, root, q, d, spare, flags, mem0, tree0, s0, mem, tree, s, pointer) && PathOk(q) && d < |q| - 1
    ensures var f := FrameAt(la57, pointer);
            MemoryOk(mem) && 0 <= f < |mem| && 0 <= q[d] < 512 && FramesOk(s)
            && (!Present(Word(mem, f, q[d])) ==> CanServe(s, 1))
            && (Present(flags) ==> q[..d] in tree && f == tree[q[..d]])
  {
    hide Descended, Sinking, MemoryOk, FrameAt, CanServe, FramesOk, PathOk, Present, Word;
    if Present(flags) {
      MayFollow(la57, root, q, d, spare, flags, mem0, tree0, s0, mem, tree, s, pointer);
    } else {
      MayFollowDown(la57, root, q, d, spare, mem0, tree, s0, mem, s, pointer);
    }
  }

  lemma {:induction false} GoOne(la57: bool, root: int, q: Path, d: nat, spare: nat, flags: int,
                                 mem0: Memory, tree0: Tree, s0: Frames, mem: Memory, tree: Tree, s: Frames,
                                 pointer: int, mem': Memory, s': Frames, next: int)
    requires Going(la57, root, q, d, spare, flags, mem0, tree0, s0, mem, tree, s, pointer) && PathOk(q) && d < |q| - 1
    requires IsFlags(flags) && MemoryOk(mem) && 0 <= FrameAt(la57, pointer) < |mem| && 0 <= q[d] < 512 && FramesOk(s)
    requires Present(flags) ==> q[..d] in tree && FrameAt(la57, pointer) == tree[q[..d]]
    requires Followed(mem, s, FrameAt(la57, pointer), q[d], flags, mem', s', next)
    ensures Going(la57, root, q, d + 1, spare, flags, mem0, tree0, s0, mem',
                  if Present(flags) then TreeAfter(mem, tree, s, q, d) else tree, s', next)
  {
    hide Descended, Sinking, MemoryOk, FrameAt, CanServe, FramesOk, PathOk, Present, Word, Followed, TreeAfter, IsFlags;
    if Present(flags) {
      DescendOne(la57, root, q, d, spare, flags, mem0, tree0, s0, mem, tree, s, pointer, mem', s', next);
    } else {
      SinkOne(la57, root, q, d, spare, flags, mem0, tree, s0, mem, s, pointer, mem', s', next);
    }
  }

  lemma {:induction false} LeafLands(la57: bool, root: int, q: Path, spare: nat, flags: int, physicalAddress: nat,
                                     mem0: Memory, tree0: Tree, s0: Frames, mem: Memory, tree: Tree, s: Frames,
                                     pointer: int)
    requires PathOk(q) && q != [] && IsFlags(flags)
    requires Present(flags) ==> Present(BitOps.BitOr(physicalAddress, flags))
    requires Going(la57, root, q, |q| - 1, spare, flags, mem0, tree0, s0, mem, tree, s, pointer)
    ensures var f := FrameAt(la57, pointer);
            MemoryOk(mem) && 0 <= f < |mem| && |mem[f]| == 512 && 0 <= q[|q| - 1] < 512
            && var mem' := Write(mem, f, q[|q| - 1], BitOps.BitOr(physicalAddress, flags));
            VmOk(mem', tree, |q|, root, s)
            && Landed(root, q, physicalAddress, flags, spare, mem0, tree0, s0, mem', tree, s)
  {
    hide Descended, Sinking, MemoryOk, FrameAt, PathOk, Present, BitOps.BitOr, VmOk, MappedWord, Unlinked;
    var w := BitOps.BitOr(physicalAddress, flags);
    if Present(flags) {
      LeafArrives(la57, root, q, spare, flags, w, mem0, tree0, s0, mem, tree, s, pointer);
    } else {
      LeafSinks(la57, root, q, w, spare, mem0, tree, s0, mem, s, pointer);
    }
  }

  /** From an aligned address, page and flags are those that were given. */
  lemma {:induction false} LandedEntry(root: int, q: Path, physicalAddress: nat, flags: int, spare: nat,
                                       mem0: Memory, tree0: Tree, s0: Frames, mem: Memory, tree: Tree, s: Frames)
    requires IsFlags(flags) && IsFrame(PageOf(physicalAddress))
    requires Landed(root, q, physicalAddress, flags, spare, mem0, tree0, s0, mem, tree, s)
    ensures Present(flags) && Aligned(physicalAddress) ==>
              Mapped(root, q, PageOf(physicalAddress), flags, spare, mem0, tree0, s0, mem, tree, s)
  {
    hide VmOk, Grown, OnlyPage, Walk, PathRights, Tables, CanServe, FrameOf, FlagsOf, Entry, BitOps.BitOr, Aligned,
         PageOf, IsFrame, IsFlags, Writable, Unlinked, PathOk;
    if Present(flags) && Aligned(physicalAddress) {
      LeafBits(physicalAddress, flags);
      EntryParts(PageOf(physicalAddress), flags);
      VmMemory(mem, tree, s, root, |q|);
      RightsOfEntry(mem, tree, |q|, root, q, Entry(PageOf(physicalAddress), flags), flags);
    }
  }

  /** If the word that was written does not say present either, the page is simply unmapped. */
  lemma {:induction false} NothingThere(root: int, q: Path, w: int, spare: nat, mem0: Memory, tree: Tree, s0: Frames,
                                        mem: Memory, s: Frames)
    requires Unlinked(root, q, w, spare, mem0, tree, s0, mem, s) && !Present(w)
    ensures Unmapped(root, q, spare, mem0, tree, s0, mem, s)
  {
    hide VmOk, OnlyPage, Walk, PathRights, CanServe, Spent, Missing, PathOk;
  }

  lemma {:induction false} ZeroFlags()
    ensures IsFlags(0) && !Present(0)
  {
  }

  /** The masked and shifted bits of va are the indices q. */
  ghost predicate Selects(la57: bool, va: nat, q: Path) {
    if la57 then
      [IndexBits(va, 48), IndexBits(va, 39), IndexBits(va, 30), IndexBits(va, 21), IndexBits(va, 12)] == q
    else [IndexBits(va, 39), IndexBits(va, 30), IndexBits(va, 21), IndexBits(va, 12)] == q
  }

  lemma {:induction false} SelectsAt(la57: bool, va: nat, q: Path)
    requires Selects(la57, va, q)
    ensures if la57 then |q| == 5 && q[0] == IndexBits(va, 48) && q[1] == IndexBits(va, 39) && q[2] == IndexBits(va, 30)
                         && q[3] == IndexBits(va, 21) && q[4] == IndexBits(va, 12)
            else |q| == 4 && q[0] == IndexBits(va, 39) && q[1] == IndexBits(va, 30)
                 && q[2] == IndexBits(va, 21) && q[3] == IndexBits(va, 12)
  {
    hide IndexBits;
  }

  lemma {:induction false} Indices(la57: bool, va: nat)
    ensures Selects(la57, va, PathOf(la57, va))
  {
    hide IndexBits, PathOfPage;
    IndexBitsIs(va, Levels(la57), 0);
    IndexBitsIs(va, Levels(la57), 1);
    IndexBitsIs(va, Levels(la57), 2);
    IndexBitsIs(va, Levels(la57), 3);
    if la57 { IndexBitsIs(va, 5, 4); }
  }

  lemma {:induction false} Depart(la57: bool, root: int, q: Path, spare: nat, flags: int, mem: Memory, tree: Tree,
                                  s: Frames, pointer: int)
    requires VmOk(mem, tree, |q|, root, s) && MayMap(la57, tree, s, q, flags, spare) && FrameAt(la57, pointer) == root
    requires Present(flags)
    ensures Descended(la57, root, q, 0, spare, flags, mem, tree, s, mem, tree, s, pointer)
  {
    GrownRefl(mem, tree, s, flags);
    assert q[..0] == [];
    hide Grown, Missing, CanServe, FrameAt, FreeFramesClean, Tables, Walk;
  }

  lemma {:induction false} MayFollow(la57: bool, root: int, q: Path, d: nat, spare: nat, flags: int, mem0: Memory,
                                     tree0: Tree, s0: Frames,
                                     mem: Memory, tree: Tree, s: Frames, pointer: int)
    requires Descended(la57, root, q, d, spare, flags, mem0, tree0, s0, mem, tree, s, pointer) && PathOk(q)
         && d < |q| - 1
    ensures q[..d] in tree && FrameAt(la57, pointer) == tree[q[..d]]
    ensures MemoryOk(mem) && 0 <= tree[q[..d]] < |mem| && 0 <= q[d] < 512 && FramesOk(s)
    ensures !Present(Word(mem, tree[q[..d]], q[d])) ==> CanServe(s, 1)
  {
    hide Grown, SameWalks, Tables, FrameAt;
    var n := q[..d + 1];
    assert Parent(n) == q[..d] && Last(n) == q[d];
    SlotTaken(mem, tree, |q|, root, n);
    MissingAt(tree, q, d);
    hide Present, Word, FreeFramesClean, ClearIn, Missing;
  }

  lemma {:induction false} DescendOne(la57: bool, root: int, q: Path, d: nat, spare: nat, flags: int,
                                      mem0: Memory, tree0: Tree, s0: Frames, mem: Memory, tree: Tree, s: Frames,
                                      pointer: int,
                                      mem': Memory, s': Frames, next: int)
    requires Descended(la57, root, q, d, spare, flags, mem0, tree0, s0, mem, tree, s, pointer) && PathOk(q)
         && d < |q| - 1
    requires IsFlags(flags) && Present(flags) && MemoryOk(mem) && 0 <= tree[q[..d]] < |mem| && 0 <= q[d] < 512
         && FramesOk(s)
    requires Followed(mem, s, tree[q[..d]], q[d], flags, mem', s', next)
    ensures Descended(la57, root, q, d + 1, spare, flags, mem0, tree0, s0, mem', TreeAfter(mem, tree, s, q, d), s',
                      next)
  {
    hide VmOk, Grown, SameWalks, FrameAt, CanServe, Missing, Tables, LargeBit, Present, Followed, TreeAfter, Word,
         IsFlags, PathOk, MemoryOk, FramesOk;
    var tree' := TreeAfter(mem, tree, s, q, d);
    TablesHas(q, d + 1);
    LargeStep(tree, q, d, flags, mem, root, s);
    FollowedPasses(la57, root, q, d, spare, flags, mem, tree, s, mem', s', next);
    GrownTrans(mem0, tree0, s0, mem, tree, s, mem', tree', s', flags);
    SameWalksTrans(mem0, mem, mem', |q|, root);
  }

  lemma {:induction false} LargeStep(tree: Tree, q: Path, d: nat, flags: int, mem: Memory, root: int, s: Frames)
    requires VmOk(mem, tree, |q|, root, s) && d < |q| - 1 && (LargeBit(flags) ==> q[..|q| - 1] in tree)
    ensures LargeBit(flags) ==> q[..d + 1] in tree
  {
    if LargeBit(flags) {
      PrefixInTree(mem, tree, |q|, root, q[..|q| - 1], d + 1);
      assert q[..|q| - 1][..d + 1] == q[..d + 1];
    }
  }

  lemma {:induction false} LeafArrives(la57: bool, root: int, q: Path, spare: nat, flags: int, w: int,
                                       mem0: Memory, tree0: Tree, s0: Frames, mem: Memory, tree: Tree, s: Frames,
                                       pointer: int)
    requires PathOk(q) && q != [] && IsFlags(flags) && Present(flags) && Present(w)
    requires Descended(la57, root, q, |q| - 1, spare, flags, mem0, tree0, s0, mem, tree, s, pointer)
    ensures var f := FrameAt(la57, pointer);
            MemoryOk(mem) && 0 <= f < |mem| && |mem[f]| == 512 && 0 <= q[|q| - 1] < 512
            && var mem' := Write(mem, f, q[|q| - 1], w);
            VmOk(mem', tree, |q|, root, s)
            && MappedWord(root, q, w, flags, spare, mem0, tree0, s0, mem', tree, s)
  {
    hide VmOk, Grown, SameWalks, OnlyPage, FrameAt, CanServe, Missing, Tables, LargeBit, Present, Word, Walk,
         PathRights, IsFlags, PathOk, FramesOk, FrameOf, FlagsOf;
    var last := |q| - 1;
    VmParts(mem, tree, s, root, q);
    var mem' := Write(mem, tree[q[..last]], q[last], w);
    LeafOk(mem, tree, |q|, root, s, q, w, flags);
    VmParts(mem', tree, s, root, q);
    GrownTrans(mem0, tree0, s0, mem, tree, s, mem', tree, s, flags);
    AllAlong(mem, tree, |q|, root, q);
    MissingEnd(tree, q, last);
    OnlyPageTrans(mem0, mem, mem', |q|, root, q);
    GrownKeys(mem0, tree0, s0, mem', tree, s, flags);
  }

  lemma {:induction false} VmParts(mem: Memory, tree: Tree, s: Frames, root: int, q: Path)
    requires VmOk(mem, tree, |q|, root, s) && PathOk(q) && q != [] && q[..|q| - 1] in tree
    ensures IsTree(mem, tree, |q|, root) && MemoryOk(mem) && 0 <= tree[q[..|q| - 1]] < |mem|
            && 0 <= q[|q| - 1] < 512 && |mem[tree[q[..|q| - 1]]]| == 512
  {
  }

  lemma {:induction false} GrownKeys(mem: Memory, tree: Tree, s: Frames, mem': Memory, tree': Tree, s': Frames,
                                     flags: int)
    requires Grown(mem, tree, s, mem', tree', s', flags)
    ensures tree.Keys <= tree'.Keys
  {
    hide LinkFlags;
  }

  lemma {:induction false} AllAlong(mem: Memory, tree: Tree, levels: nat, root: int, q: Path)
    requires IsTree(mem, tree, levels, root) && q != [] && q[..|q| - 1] in tree
    ensures Tables(q) <= tree.Keys
  {
    forall x | x in Tables(q) ensures x in tree {
      var k :| 0 <= k < |q| && x == q[..k];
      PrefixInTree(mem, tree, levels, root, q[..|q| - 1], k);
      assert q[..|q| - 1][..k] == q[..k];
    }
  }

  lemma {:induction false} OnlyPageTrans(mem: Memory, mem1: Memory, mem2: Memory, levels: nat, root: int, q: Path)
    requires SameWalks(mem, mem1, levels, root) && OnlyPage(mem1, mem2, levels, root, q)
    ensures OnlyPage(mem, mem2, levels, root, q)
  {
    hide Walk;
  }

  lemma {:induction false} RightsOfEntry(mem: Memory, tree: Tree, levels: nat, root: int, q: Path, w: int, w': int)
    requires IsTree(mem, tree, levels, root) && PathOk(q) && |q| == levels && Writable(w) == Writable(w')
    ensures PathRights(mem, tree, levels, root, q, w) == PathRights(mem, tree, levels, root, q, w')
  {
    hide PassedRw;
  }

  // ------------------------------------------------------------------- unmapping

  /** A frame in use that is in no table and holds no entry. */
  ghost predicate Lost(mem: Memory, tree: Tree, s: Frames, f: int) {
    Clean(mem, f) && Outside(tree, f) && f < |s.used| && s.used[f]
  }

  /** The way down q without hanging anything in: at a table of the tree while they last, in lost
      frames after that. The tree and every walk stay the same. */
  ghost predicate Sinking(la57: bool, root: int, q: Path, d: nat, spare: nat,
                          mem0: Memory, tree: Tree, s0: Frames, mem: Memory, s: Frames, pointer: int)
  {
    && d < |q| && VmOk(mem, tree, |q|, root, s)
    && (if q[..d] in tree then FrameAt(la57, pointer) == tree[q[..d]] else Lost(mem, tree, s, FrameAt(la57, pointer)))
    && SameWalks(mem0, mem, |q|, root)
    && Spent(s0, s, Missing(tree, q, 0) - Missing(tree, q, d))
    && CanServe(s, Missing(tree, q, d) + spare)
  }

  /** The page at q is not mapped and no other page changed. The tree is the same, and each table
      that was missing on the way cost a frame that is in no table now. */
  ghost predicate Unmapped(root: int, q: Path, spare: nat, mem0: Memory, tree: Tree, s0: Frames, mem: Memory,
                           s: Frames) {
    && q != [] && PathOk(q) && VmOk(mem, tree, |q|, root, s)
    && OnlyPage(mem0, mem, |q|, root, q)
    && Walk(mem, root, q, NO_ENTRIES) == NotPresent
    && Spent(s0, s, Missing(tree, q, 0))
    && CanServe(s, spare)
  }

  lemma {:induction false} Submerge(la57: bool, root: int, q: Path, spare: nat, mem: Memory, tree: Tree, s: Frames,
                                    pointer: int)
    requires VmOk(mem, tree, |q|, root, s) && q != [] && FrameAt(la57, pointer) == root
    requires CanServe(s, Missing(tree, q, 0) + spare)
    ensures Sinking(la57, root, q, 0, spare, mem, tree, s, mem, s, pointer)
  {
    hide Missing, FrameAt, FreeFramesClean, Walk, ClearIn;
    assert q[..0] == [];
  }

  lemma {:induction false} MayFollowDown(la57: bool, root: int, q: Path, d: nat, spare: nat,
                                         mem0: Memory, tree: Tree, s0: Frames, mem: Memory, s: Frames, pointer: int)
    requires Sinking(la57, root, q, d, spare, mem0, tree, s0, mem, s, pointer) && PathOk(q) && d < |q| - 1
    ensures var f := FrameAt(la57, pointer);
            MemoryOk(mem) && 0 <= f < |mem| && 0 <= q[d] < 512 && FramesOk(s)
            && (!Present(Word(mem, f, q[d])) ==> CanServe(s, 1))
  {
    hide SameWalks, FrameAt, Spent, FreeFramesClean, ClearIn, Missing, Hung, Covered;
    var n := q[..d + 1];
    assert Parent(n) == q[..d] && Last(n) == q[d];
    SlotTaken(mem, tree, |q|, root, n);
    ShorterPrefix(mem, tree, |q|, root, q, d);
    MissingAt(tree, q, d);
  }

  /** What one step down does: a slot of the tree was followed, or the frame served next is lost. */
  ghost predicate Sunk(root: int, q: Path, d: nat, mem: Memory, tree: Tree, s: Frames, mem': Memory, s': Frames,
                       frame: int)
    requires d < |q|
  {
    && VmOk(mem', tree, |q|, root, s') && SameWalks(mem, mem', |q|, root)
    && (if q[..d + 1] in tree then mem' == mem && s' == s && frame == tree[q[..d + 1]]
        else
          FramesOk(s) && frame == Served(s, 1) && frame + 1 <= |s.used| && frame > 0 && s' == Taken(s, 1)
          && Lost(mem', tree, s', frame))
  }

  lemma {:induction false} SinkOne(la57: bool, root: int, q: Path, d: nat, spare: nat, flags: int,
                                   mem0: Memory, tree: Tree, s0: Frames, mem: Memory, s: Frames, pointer: int,
                                   mem': Memory, s': Frames, next: int)
    requires Sinking(la57, root, q, d, spare, mem0, tree, s0, mem, s, pointer) && PathOk(q) && d < |q| - 1
    requires MemoryOk(mem) && FramesOk(s) && 0 <= FrameAt(la57, pointer) < |mem| && 0 <= q[d] < 512
    requires IsFlags(flags) && !Present(flags) && Followed(mem, s, FrameAt(la57, pointer), q[d], flags, mem', s', next)
    ensures Sinking(la57, root, q, d + 1, spare, mem0, tree, s0, mem', s', next)
  {
    hide VmOk, SameWalks, FrameAt, Missing, CanServe, Spent, Lost, Followed, Served, Taken, Clean, IsFlags, Present;
    var k := Missing(tree, q, d) + spare;
    StepSinks(la57, root, q, d, flags, mem, tree, s, pointer, k, mem', s', next);
    SameWalksTrans(mem0, mem, mem', |q|, root);
    MissingAt(tree, q, d);
    if q[..d + 1] !in tree {
      SpendOne(s, k);
      SpentTrans(s0, s, s', Missing(tree, q, 0) - Missing(tree, q, d), 1);
    }
  }

  lemma {:induction false} StepSinks(la57: bool, root: int, q: Path, d: nat, flags: int, mem: Memory, tree: Tree,
                                     s: Frames, pointer: int, k: nat, mem': Memory, s': Frames, next: int)
    requires VmOk(mem, tree, |q|, root, s) && PathOk(q) && d < |q| - 1
    requires if q[..d] in tree then FrameAt(la57, pointer) == tree[q[..d]]
         else Lost(mem, tree, s, FrameAt(la57, pointer))
    requires MemoryOk(mem) && FramesOk(s) && 0 <= FrameAt(la57, pointer) < |mem| && 0 <= q[d] < 512
    requires CanServe(s, k) && k >= Missing(tree, q, d)
    requires IsFlags(flags) && !Present(flags) && Followed(mem, s, FrameAt(la57, pointer), q[d], flags, mem', s', next)
    ensures Sunk(root, q, d, mem, tree, s, mem', s', FrameAt(la57, next))
  {
    hide VmOk, SameWalks, FrameAt, Missing, CanServe, Served, Taken, Clean, Present, Write, Entry, Links, Walk, Outside;
    MissingAt(tree, q, d);
    var f, n := FrameAt(la57, pointer), q[..d + 1];
    SlotOfNext(mem, tree, s, root, q, d);
    if q[..d] in tree && Present(Word(mem, f, q[d])) {
      ExistingTable(la57, mem, tree, s, root, q, d);
      SameWalksRefl(mem, |q|, root);
    } else {
      if q[..d] !in tree { CleanWord(mem, f, q[d]); }
      SpendOne(s, k);
      NoFlags(mem, tree, root, s, |q|, Served(s, 1), flags);
      PhysicalPointer(la57, Served(s, 1));
      if q[..d] in tree {
        IdleOk(mem, tree, |q|, root, s, q[..d], q[d], Entry(Served(s, 1), flags));
      } else {
        OutsideOk(mem, tree, |q|, root, s, f, q[d], Entry(Served(s, 1), flags));
      }
    }
  }

  lemma {:induction false} NoFlags(mem: Memory, tree: Tree, root: int, s: Frames, levels: nat, g: int, flags: int)
    requires VmOk(mem, tree, levels, root, s) && 0 <= g < s.pages && IsFlags(flags) && !Present(flags)
    ensures IsFrame(g) && !Present(Entry(g, flags))
  {
    EntryParts(g, flags);
  }

  lemma {:induction false} SameWalksRefl(mem: Memory, levels: nat, root: int)
    requires MemoryOk(mem)
    ensures SameWalks(mem, mem, levels, root)
  {
  }

  lemma {:induction false} CleanWord(mem: Memory, f: int, i: int)
    requires MemoryOk(mem) && Clean(mem, f) && 0 <= i < 512
    ensures !Present(Word(mem, f, i))
  {
  }

  lemma {:induction false} SlotOfNext(mem: Memory, tree: Tree, s: Frames, root: int, q: Path, d: nat)
    requires VmOk(mem, tree, |q|, root, s) && PathOk(q) && d < |q| - 1
    ensures q[..d + 1] in tree ==> q[..d] in tree && MemoryOk(mem) && 0 <= tree[q[..d]] < |mem|
                                   && Present(Word(mem, tree[q[..d]], q[d]))
  {
    hide FreeFramesClean;
    assert Parent(q[..d + 1]) == q[..d] && Last(q[..d + 1]) == q[d];
    SlotTaken(mem, tree, |q|, root, q[..d + 1]);
  }

  lemma {:induction false} ExistingTable(la57: bool, mem: Memory, tree: Tree, s: Frames, root: int, q: Path, d: nat)
    requires VmOk(mem, tree, |q|, root, s) && PathOk(q) && d < |q| - 1 && q[..d] in tree && MemoryOk(mem)
    requires 0 <= tree[q[..d]] < |mem| && Present(Word(mem, tree[q[..d]], q[d]))
    ensures q[..d + 1] in tree && FrameAt(la57, ClearFlags(Word(mem, tree[q[..d]], q[d]))) == tree[q[..d + 1]]
  {
    hide FreeFramesClean, FrameAt, ClearFlags;
    var w, n := Word(mem, tree[q[..d]], q[d]), q[..d + 1];
    assert n in tree && Links(w, tree[n]) by {
      assert Covered(mem, tree, |q|, q[..d]);
      assert q[..d] + [q[d]] == n;
      assert Hung(mem, tree, n) && Parent(n) == q[..d] && Last(n) == q[d];
    }
    LinkPointer(w, tree[n]);
    PhysicalPointer(la57, tree[n]);
  }

  lemma {:induction false} LeafSinks(la57: bool, root: int, q: Path, w: int, spare: nat,
                                     mem0: Memory, tree: Tree, s0: Frames, mem: Memory, s: Frames, pointer: int)
    requires PathOk(q) && q != []
    requires Sinking(la57, root, q, |q| - 1, spare, mem0, tree, s0, mem, s, pointer)
    ensures var f := FrameAt(la57, pointer);
            MemoryOk(mem) && 0 <= f < |mem| && |mem[f]| == 512 && 0 <= q[|q| - 1] < 512
            && var mem' := Write(mem, f, q[|q| - 1], w);
            VmOk(mem', tree, |q|, root, s)
            && Unlinked(root, q, w, spare, mem0, tree, s0, mem', s)
  {
    hide VmOk, SameWalks, OnlyPage, FrameAt, CanServe, Missing, Word, Walk, Outside, Clean, Spent, PathRights, Present,
         FrameOf, FlagsOf;
    var f, last := FrameAt(la57, pointer), |q| - 1;
    MissingEnd(tree, q, last);
    VmMemory(mem, tree, s, root, |q|);
    if q[..last] in tree {
      VmParts(mem, tree, s, root, q);
      LeafOk(mem, tree, |q|, root, s, q, w, 0);
      OnlyPageTrans(mem0, mem, Write(mem, f, q[last], w), |q|, root, q);
    } else {
      LostFrame(mem, tree, s, f);
      LostOk(mem, tree, |q|, root, s, f, q[last], w);
      var mem' := Write(mem, f, q[last], w);
      VmMemory(mem', tree, s, root, |q|);
      NotMapped(mem', tree, |q|, root, q, last);
      SameWalksTrans(mem0, mem, mem', |q|, root);
      SameButOne(mem0, mem', |q|, root, q);
    }
  }

  lemma {:induction false} LostFrame(mem: Memory, tree: Tree, s: Frames, f: int)
    requires Lost(mem, tree, s, f)
    ensures 0 <= f < |mem| && |mem[f]| == 512
  {
  }

  lemma {:induction false} VmMemory(mem: Memory, tree: Tree, s: Frames, root: int, levels: nat)
    requires VmOk(mem, tree, levels, root, s)
    ensures MemoryOk(mem) && IsTree(mem, tree, levels, root)
  {
  }

  lemma {:induction false} SameButOne(mem: Memory, mem': Memory, levels: nat, root: int, q: Path)
    requires SameWalks(mem, mem', levels, root)
    ensures OnlyPage(mem, mem', levels, root, q)
  {
    hide Walk;
  }

  /** A page with a missing table on its way is not mapped. */
  lemma {:induction false} NotMapped(mem: Memory, tree: Tree, levels: nat, root: int, q: Path, d: nat)
    requires IsTree(mem, tree, levels, root) && PathOk(q) && |q| == levels && d < levels && q[..d] !in tree
    ensures Walk(mem, root, q, NO_ENTRIES) == NotPresent
  {
    if d > 0 && q[..d - 1] !in tree {
      NotMapped(mem, tree, levels, root, q, d - 1);
    } else {
      assert q[..0] == [];
      MissingTable(mem, tree, levels, root, q, d - 1);
    }
  }

  lemma {:induction false} ExistingLevel(la57: bool, root: int, q: Path, d: nat, spare: nat, flags: int,
                                         mem: Memory, tree: Tree, s: Frames)
    requires VmOk(mem, tree, |q|, root, s) && PathOk(q) && d < |q| - 1 && q[..d] in tree
    requires Present(Word(mem, tree[q[..d]], q[d]))
    requires CanServe(s, Missing(tree, q, d) + spare)
    ensures LevelPassed(la57, root, q, d, spare, flags, mem, tree, s, mem, tree, s,
                        ClearFlags(Word(mem, tree[q[..d]], q[d])))
  {
    var w, n := Word(mem, tree[q[..d]], q[d]), q[..d + 1];
    assert n in tree && Links(w, tree[n]) by {
      assert Covered(mem, tree, |q|, q[..d]);
      assert q[..d] + [q[d]] == n;
      assert Hung(mem, tree, n) && Parent(n) == q[..d] && Last(n) == q[d];
    }
    assert FrameAt(la57, ClearFlags(w)) == tree[n] by {
      LinkPointer(w, tree[n]);
      PhysicalPointer(la57, tree[n]);
    }
    GrownRefl(mem, tree, s, flags);
    MissingAt(tree, q, d);
    assert tree.Keys == tree.Keys + {n};
    hide VmOk, Grown, Missing, CanServe, FrameAt, ClearFlags, Word, Present, Links, Walk;
  }

  lemma {:induction false} NewLevel(la57: bool, root: int, q: Path, d: nat, spare: nat, flags: int,
                                    mem: Memory, tree: Tree, s: Frames)
    requires VmOk(mem, tree, |q|, root, s) && PathOk(q) && d < |q| - 1 && q[..d] in tree
    requires !Present(Word(mem, tree[q[..d]], q[d]))
    requires IsFlags(flags) && Present(flags) && (LargeBit(flags) ==> q[..d + 1] in tree)
    requires CanServe(s, Missing(tree, q, d) + spare)
    ensures var g := Served(s, 1);
            CanServe(s, 1) && g >= 0 && g + 1 <= |s.used|
            && LevelPassed(la57, root, q, d, spare, flags, mem, tree, s,
                           Write(mem, tree[q[..d]], q[d], Entry(g, flags)), tree[q[..d + 1] := g],
                           Taken(s, 1), PAGE_SIZE * g)
  {
    hide VmOk, Grown, SameWalks, CanServe, Missing, FrameAt, Served, Taken, Write, Entry, Present, Word, Spent, IsFlags,
         LargeBit;
    var n, rest := q[..d + 1], Missing(tree, q, d + 1) + spare;
    SlotOfNext(mem, tree, s, root, q, d);
    assert q[..d] + [q[d]] == n;
    MissingAt(tree, q, d);
    SpendOne(s, 1 + rest);
    var g := Served(s, 1);
    AttachOk(mem, tree, |q|, root, s, q[..d], q[d], flags);
    ZeroFlags();
    NoFlags(mem, tree, root, s, |q|, g, 0);
    PhysicalPointer(la57, g);
    OneMoreTable(tree, n, g);
    MissingKept(tree, tree[n := g], q, d + 1, n);
  }
}
