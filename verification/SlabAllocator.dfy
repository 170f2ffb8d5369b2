/**
 The slab allocator in place: the array of slabs, the pointer that cuts pages into objects, and
 the physical memory manager the pages come from.
 */
module SlabAllocator {
  import opened Addresses
  import opened Arithmetic
  import opened PageFrames
  import opened Powers
  import opened Slabs
  import Pmm

  // ------------------------------------------------------------ pages in a row

  /** The frames k one-page requests in a row are served from. */
  ghost function FrameList(s: Frames, k: nat): (r: seq<int>)
    requires CanServe(s, k)
    ensures |r| == k
    decreases k
  {
    if k == 0 then []
    else
      ServeOne(s, k);
      [Served(s, 1)] + FrameList(Taken(s, 1), k - 1)
  }

  /** The state after k one-page requests. */
  ghost function TakenTimes(s: Frames, k: nat): Frames
    requires CanServe(s, k)
    decreases k
  {
    if k == 0 then s
    else
      ServeOne(s, k);
      TakenTimes(Taken(s, 1), k - 1)
  }

  /** The higher-half address of a frame. */
  function PageAddress(la57: bool, f: int): int {
    PhysToHigherHalfData(la57, PAGE_SIZE * f)
  }

  ghost function PageList(la57: bool, s: Frames, k: nat): (r: seq<int>)
    requires CanServe(s, k)
    ensures |r| == k
  {
    seq(k, i requires 0 <= i < k => PageAddress(la57, FrameList(s, k)[i]))
  }

  /** The frames served in a row were free, and are all different. */
  lemma {:induction false} FramesDistinct(s: Frames, k: nat)
    requires CanServe(s, k)
    ensures forall i :: 0 <= i < k ==> 0 < FrameList(s, k)[i] < s.pages && !s.used[FrameList(s, k)[i]]
    ensures forall i, j :: 0 <= i < j < k ==> FrameList(s, k)[i] != FrameList(s, k)[j]
    decreases k
  {
    hide Served, Taken, CanServe;
    if k > 0 {
      FirstFrame(s, k);
      ServeOne(s, k);
      FramesDistinct(Taken(s, 1), k - 1);
    }
  }

  lemma {:induction false} FirstFrame(s: Frames, k: nat)
    requires CanServe(s, k) && k > 0
    ensures CanServe(s, 1) && FramesOk(s) && Served(s, 1) >= 0 && Served(s, 1) + 1 <= |s.used|
         && CanServe(Taken(s, 1), k - 1)
    ensures FrameList(s, k) == [Served(s, 1)] + FrameList(Taken(s, 1), k - 1)
    ensures TakenTimes(s, k) == TakenTimes(Taken(s, 1), k - 1)
  {
    hide ClearIn;
    ServeOne(s, k);
  }

  /** Page addresses are whole, not null, and tell frames apart. */
  lemma {:induction false} AddressOfFrame(la57: bool, f: int)
    requires 0 <= f < 0x8000_0000
    ensures PageAddress(la57, f) > 0 && PageAddress(la57, f) % PAGE_SIZE == 0
    ensures PageAddress(la57, f) == HalfData(la57) + PAGE_SIZE * f
  {
    var v := HalfData(la57) + PAGE_SIZE * f;
    NoWrap(v);
    WholeSum(HalfData(la57) / PAGE_SIZE, f);
  }

  lemma {:induction false} WholeSum(a: int, b: int)
    ensures (PAGE_SIZE * a + PAGE_SIZE * b) % PAGE_SIZE == 0
  {
  }

  lemma {:induction false} ServedPagesOk(la57: bool, s: Frames)
    requires CanServe(s, 6) && |s.used| <= 0x8000_0000
    ensures PagesOk(PageList(la57, s, 6))
  {
    hide CanServe, PageAddress, FrameList;
    FramesDistinct(s, 6);
    UsedBound(s);
    var fs := FrameList(s, 6);
    forall k | 0 <= k < 6 ensures PageAddress(la57, fs[k]) > 0 && PageAddress(la57, fs[k]) % PAGE_SIZE == 0 {
      AddressOfFrame(la57, fs[k]);
    }
    forall k, l | 0 <= k < l < 6 ensures PageAddress(la57, fs[k]) != PageAddress(la57, fs[l]) {
      AddressOfFrame(la57, fs[k]);
      AddressOfFrame(la57, fs[l]);
    }
  }

  lemma {:induction false} UsedBound(s: Frames)
    requires CanServe(s, 6)
    ensures s.pages <= |s.used|
  {
  }

  /** Once served, a frame stays in use while more are served. */
  lemma {:induction false} FramesUsed(s: Frames, k: nat)
    requires CanServe(s, k)
    ensures FramesOk(TakenTimes(s, k)) && |TakenTimes(s, k).used| == |s.used| && TakenTimes(s, k).pages == s.pages
    ensures forall f :: 0 <= f < |s.used| && s.used[f] ==> TakenTimes(s, k).used[f]
    ensures forall i :: 0 <= i < k ==> 0 <= FrameList(s, k)[i] < |s.used| && TakenTimes(s, k).used[FrameList(s, k)[i]]
    decreases k
  {
    hide Served, Taken, CanServe, FrameList;
    Servable(s, k);
    if k > 0 {
      FirstFrame(s, k);
      ServeOne(s, k);
      FramesUsed(Taken(s, 1), k - 1);
    }
  }

  /** And no others come into use. */
  lemma {:induction false} OnlyFramesUsed(s: Frames, k: nat)
    requires CanServe(s, k)
    ensures |TakenTimes(s, k).used| == |s.used|
    ensures forall f :: 0 <= f < |s.used| && TakenTimes(s, k).used[f] ==> s.used[f] || f in FrameList(s, k)
    decreases k
  {
    hide Served, Taken, CanServe, FrameList;
    Servable(s, k);
    if k > 0 {
      FirstFrame(s, k);
      ServeOne(s, k);
      OnlyFramesUsed(Taken(s, 1), k - 1);
    }
  }

  lemma {:induction false} Servable(s: Frames, k: nat)
    requires CanServe(s, k)
    ensures FramesOk(s) && (k == 0 ==> TakenTimes(s, k) == s)
  {
  }

  // ------------------------------------------------------------------ slab_init

  /** How many pages have been taken when slab i begins. */
  function PagesTaken(i: nat): nat {
    (i + 1) / 2
  }

  /** Where the next object will be cut when slab i begins. */
  function Cursor(pages: seq<int>, i: nat): int
    requires |pages| == 6 && i <= SLAB_COUNT
  {
    if i == 0 then NULL else Base(pages, i - 1) + MAX_SLAB_SIZE
  }

  /** The end of the page being cut when slab i begins. */
  function CursorEnd(pages: seq<int>, i: nat): int
    requires |pages| == 6 && i <= SLAB_COUNT
  {
    if i == 0 then NULL else pages[(i - 1) / 2] + PAGE_SIZE
  }

  ghost predicate SlabDone(s: Slab, base: int, i: int)
    requires 0 <= i < SLAB_COUNT
  {
    s.size == SizeOf(i) && !s.isFull && Ranged(s, base) && FreshObjects(s.objects, base, i)
  }

  ghost predicate Sized(ss: seq<Slab>) {
    |ss| == SLAB_COUNT && forall k :: 0 <= k < |ss| ==> |ss[k].objects| == MAX_OBJECTS_PER_SLAB
  }

  /** After c of the six pages, the rest are those still to come. */
  ghost predicate Remaining(s0: Frames, s: Frames, c: int)
    requires CanServe(s0, 6)
  {
    0 <= c <= 6 && CanServe(s, 6 - c) && FrameList(s0, 6)[c..] == FrameList(s, 6 - c)
      && TakenTimes(s0, 6) == TakenTimes(s, 6 - c)
  }

  /** Slabs before i are done, and the rest of the pages are those still to come. */
  ghost predicate Begun(la57: bool, s0: Frames, i: nat, ss: seq<Slab>, s: Frames, ptr: int, len: int, count: int)
    requires CanServe(s0, 6)
  {
    var pages := PageList(la57, s0, 6);
    && i <= SLAB_COUNT && Sized(ss) && PagesOk(pages)
    && (forall k :: 0 <= k < i ==> SlabDone(ss[k], Base(pages, k), k))
    && count == PagesTaken(i) && |s.used| <= 0x8000_0000 && Remaining(s0, s, count)
    && ptr == Cursor(pages, i) && len == CursorEnd(pages, i)
  }

  /** The frames once slab i is being cut: the even slabs begin a page. */
  ghost function StateCut(i: nat, s1: Frames): Frames {
    if i % 2 == 0 && FramesOk(s1) && Served(s1, 1) >= 0 && Served(s1, 1) + 1 <= |s1.used| then Taken(s1, 1) else s1
  }

  /** The state while slab i is cut, with j objects done. */
  ghost predicate Cutting(la57: bool, s0: Frames, i: nat, j: nat, ss0: seq<Slab>, ss: seq<Slab>, s1: Frames, s: Frames,
                          ptr: int, len: int, count: int)
    requires CanServe(s0, 6) && i < SLAB_COUNT
  {
    var pages := PageList(la57, s0, 6);
    && PagesOk(pages) && j <= ObjectsIn(i) && Sized(ss0) && Sized(ss)
    && ss == ss0[i := ss[i]] && ss[i].size == SizeOf(i) && !ss[i].isFull
    && (forall k {:trigger ss[i].objects[k]} :: 0 <= k < j ==> ss[i].objects[k] == Object(Base(pages, i), SizeOf(i), k))
    && |s.used| <= 0x8000_0000
    && if j == 0 then Begun(la57, s0, i, ss0, s, ptr, len, count) && s == s1
       else Begun(la57, s0, i, ss0, s1, Cursor(pages, i), CursorEnd(pages, i), PagesTaken(i))
            && s == StateCut(i, s1)
            && ptr == Object(Base(pages, i), SizeOf(i), j) && len == pages[i / 2] + PAGE_SIZE
            && count == PagesTaken(i + 1)
  }

  /** What the refill test leads to. */
  ghost predicate Refilled(la57: bool, s: Frames, ptr: int, len: int, count: int, s': Frames, ptr': int, len': int,
                           count': int) {
    if ptr == NULL || ptr == len
    then FramesOk(s) && Served(s, 1) > 0 && Served(s, 1) + 1 <= |s.used| && s' == Taken(s, 1)
         && ptr' == PageAddress(la57, Served(s, 1)) && len' == ptr' + PAGE_SIZE && count' == count + 1
    else s' == s && ptr' == ptr && len' == len && count' == count
  }

  lemma {:induction false} OneServed(s: Frames)
    requires CanServe(s, 1)
    ensures FramesOk(s) && Served(s, 1) > 0 && Served(s, 1) + 1 <= |s.used|
  {
    hide ClearIn;
    ServeOne(s, 1);
  }

  class SlabAllocator {
    const slabs: array<Slab>
    const pmm: Pmm.Pmm
    var internalMemPtr: int
    var internalMemLen: int
    var pageAllocCount: int

    constructor (pmm: Pmm.Pmm)
      ensures this.pmm == pmm && fresh(slabs) && Sized(slabs[..])
      ensures internalMemPtr == NULL && internalMemLen == 0 && pageAllocCount == 0
    {
      this.pmm := pmm;
      slabs := new Slab[SLAB_COUNT](_ => Slab(0, false, NULL, NULL, seq(MAX_OBJECTS_PER_SLAB, _ => NULL)));
      internalMemPtr, internalMemLen, pageAllocCount := NULL, 0, 0;
    }

    /** A new page when there is none yet or the last is used up. */
    method Refill()
      requires pmm.Valid() && (internalMemPtr == NULL || internalMemPtr == internalMemLen ==> CanServe(pmm.State(), 1))
      modifies `internalMemPtr, `internalMemLen, `pageAllocCount, pmm`usedPages, pmm.bitmap.bytes
      ensures pmm.Valid()
      ensures Refilled(pmm.la57, old(pmm.State()), old(internalMemPtr), old(internalMemLen), old(pageAllocCount),
                       pmm.State(), internalMemPtr, internalMemLen, pageAllocCount)
    {
      hide Served, Taken, CanServe, FirstClear, PhysToHigherHalfData, FramesOk;
      if internalMemPtr == NULL || internalMemPtr == internalMemLen {
        OneServed(pmm.State());
        internalMemPtr := pmm.Alloc(1);
        internalMemLen := internalMemPtr + PAGE_SIZE;
        pageAllocCount := pageAllocCount + 1;
      }
    }

    /** The inner loop of slab_init: cutting the objects of slab i. */
    method CutSlab(i: nat, ghost s0: Frames)
      requires i < SLAB_COUNT && CanServe(s0, 6) && slabs.Length == SLAB_COUNT && pmm.Valid()
      requires slabs[i].size == SizeOf(i) && !slabs[i].isFull
      requires Begun(pmm.la57, s0, i, slabs[..], pmm.State(), internalMemPtr, internalMemLen, pageAllocCount)
      modifies slabs, `internalMemPtr, `internalMemLen, `pageAllocCount, pmm`usedPages, pmm.bitmap.bytes
      ensures pmm.Valid()
      ensures Cutting(pmm.la57, s0, i, ObjectsIn(i), old(slabs[..]), slabs[..], old(pmm.State()), pmm.State(),
                      internalMemPtr, internalMemLen, pageAllocCount)
    {
      hide Begun, Cutting, Refilled, CanServe, SizeOf, Power;
      ghost var ss0, s1 := slabs[..], pmm.State();
      CutNone(pmm.la57, s0, i, ss0, s1, internalMemPtr, internalMemLen, pageAllocCount);
      PowFits(i);
      var power := Pow(2, i + 1);
      PowIsSize(i, power);
      var objectsPerSlab := MAX_SLAB_SIZE / power;
      var j := 0;
      while j < objectsPerSlab
        invariant 0 <= j <= objectsPerSlab && pmm.Valid()
        invariant Cutting(pmm.la57, s0, i, j, ss0, slabs[..], s1, pmm.State(), internalMemPtr, internalMemLen,
                          pageAllocCount)
      {
        ghost var ss, s, ptr, len, count := slabs[..], pmm.State(), internalMemPtr, internalMemLen, pageAllocCount;
        MayRefill(pmm.la57, s0, i, j, ss0, ss, s1, s, ptr, len, count);
        Refill();
        CutOne(pmm.la57, s0, i, j, ss0, ss, s1, s, ptr, len, count, pmm.State(), internalMemPtr, internalMemLen,
               pageAllocCount);
        slabs[i] := slabs[i].(objects := slabs[i].objects[j := internalMemPtr]);
        internalMemPtr := internalMemPtr + slabs[i].size;
        assert slabs[..] == ss[i := ss[i].(objects := ss[i].objects[j := internalMemPtr - SizeOf(i)])];
        j := j + 1;
      }
    }

    /** slab_init: eleven slabs cut out of the next six pages. */
    method Init()
      requires pmm.Valid() && CanServe(pmm.State(), 6) && |pmm.State().used| <= 0x8000_0000 && Sized(slabs[..])
      requires internalMemPtr == NULL && internalMemLen == 0 && pageAllocCount == 0
      modifies slabs, `internalMemPtr, `internalMemLen, `pageAllocCount, pmm`usedPages, pmm.bitmap.bytes
      ensures pmm.Valid() && pmm.State() == TakenTimes(old(pmm.State()), 6) && pageAllocCount == 6
      ensures Fresh(slabs[..], PageList(pmm.la57, old(pmm.State()), 6))
    {
      hide Begun, Cutting, CanServe, SizeOf, Power, Sized, Fresh, TakenTimes, FrameList, PageList;
      ghost var s0 := pmm.State();
      NoneBegun(pmm.la57, s0, slabs[..]);
      for i := 0 to SLAB_COUNT
        invariant pmm.Valid()
        invariant Begun(pmm.la57, s0, i, slabs[..], pmm.State(), internalMemPtr, internalMemLen, pageAllocCount)
      {
        ghost var before := slabs[..];
        BegunSized(pmm.la57, s0, i, before, pmm.State(), internalMemPtr, internalMemLen, pageAllocCount);
        PowFits(i);
        var power := Pow(2, i + 1);
        PowIsSize(i, power);
        slabs[i] := slabs[i].(size := power, isFull := false);
        assert slabs[..] == before[i := before[i].(size := SizeOf(i), isFull := false)];
        StillBegun(pmm.la57, s0, i, before, before[i].(size := SizeOf(i), isFull := false), pmm.State(),
                   internalMemPtr, internalMemLen, pageAllocCount);
        ghost var ss0, s1 := slabs[..], pmm.State();
        CutSlab(i, s0);
        ghost var cut := slabs[..];
        CutDone(pmm.la57, s0, i, ss0, cut, s1, pmm.State(), internalMemPtr, internalMemLen, pageAllocCount);
        slabs[i] := slabs[i].(start := slabs[i].objects[0], end := slabs[i].objects[0] + 1024 - slabs[i].size);
        assert slabs[..]
            == cut[i := cut[i].(start := cut[i].objects[0], end := cut[i].objects[0] + 1024 - cut[i].size)];
      }
      AllBegun(pmm.la57, s0, slabs[..], pmm.State(), internalMemPtr, internalMemLen, pageAllocCount);
    }

    /** slab_alloc */
    method SlabAlloc(size: int) returns (returnValue: int)
      requires Shaped(slabs[..])
      modifies slabs
      ensures Shaped(slabs[..]) && (slabs[..], returnValue) == Alloc(old(slabs[..]), size)
    {
      hide SizeOf, Power, FirstFree;
      ghost var ss := slabs[..];
      returnValue := NULL;
      for i := 0 to SLAB_COUNT
        invariant slabs[..] == ss && returnValue == NULL && IndexOf(size, i) < 0
      {
        if slabs[i].size != size { continue; }
        IndexFound(size, i, SLAB_COUNT);
        if slabs[i].isFull {
          assert ss[i := ss[i]] == ss;
          return;
        }
        var freeObjectIndex := FindFreeObject(i);
        if freeObjectIndex == -1 {
          slabs[i] := slabs[i].(isFull := true);
        } else {
          returnValue := slabs[i].objects[freeObjectIndex];
          slabs[i] := slabs[i].(objects := slabs[i].objects[freeObjectIndex := NULL]);
        }
        assert slabs[..] == ss[i := Hand(ss[i], ObjectsIn(i)).0];
        return;
      }
    }

    method FindFreeObject(slabIndex: nat) returns (index: int)
      requires slabIndex < SLAB_COUNT && Shaped(slabs[..])
      ensures index == FirstFree(slabs[slabIndex].objects, ObjectsIn(slabIndex))
    {
      hide SizeOf, Power;
      PowFits(slabIndex);
      var power := Pow(2, slabIndex + 1);
      PowIsSize(slabIndex, power);
      var objectsPerSlab := MAX_SLAB_SIZE / power;
      for i := 0 to objectsPerSlab
        invariant FirstFree(slabs[slabIndex].objects, i) < 0
      {
        if slabs[slabIndex].objects[i] != NULL {
          FreeFound(slabs[slabIndex].objects, i, objectsPerSlab);
          return i;
        }
      }
      index := -1;
    }

    method FindAllocatedObject(slabIndex: nat) returns (index: int)
      requires slabIndex < SLAB_COUNT && Shaped(slabs[..])
      ensures index == FirstNull(slabs[slabIndex].objects, ObjectsIn(slabIndex))
    {
      hide SizeOf, Power;
      PowFits(slabIndex);
      var power := Pow(2, slabIndex + 1);
      PowIsSize(slabIndex, power);
      var objectsPerSlab := MAX_SLAB_SIZE / power;
      for i := 0 to objectsPerSlab
        invariant FirstNull(slabs[slabIndex].objects, i) < 0
      {
        if slabs[slabIndex].objects[i] == NULL {
          NullFound(slabs[slabIndex].objects, i, objectsPerSlab);
          return i;
        }
      }
      index := -1;
    }

    /** slab_free */
    method SlabFree(ptr: int)
      requires Shaped(slabs[..])
      modifies slabs
      ensures Shaped(slabs[..]) && slabs[..] == Free(old(slabs[..]), ptr)
    {
      hide SizeOf, Power, FirstNull, FreeFrom, Shaped;
      if ptr == NULL { return; }
      ghost var ss := slabs[..];
      for i := 0 to SLAB_COUNT
        invariant Shaped(slabs[..]) && FreeFrom(slabs[..], ptr, i) == FreeFrom(ss, ptr, 0)
      {
        ghost var before := slabs[..];
        FreeStep(before, ptr, i);
        var ptrWithoutBase := ptr - slabs[i].start + slabs[i].size;
        if ptr >= slabs[i].start && ptr <= slabs[i].end {
          if ptrWithoutBase % slabs[i].size == 0 {
            var allocatedObjectIndex := FindAllocatedObject(i);
            if allocatedObjectIndex == -1 { return; }
            slabs[i] := slabs[i].(objects := slabs[i].objects[allocatedObjectIndex := ptr]);
            assert slabs[..] == before[i := TakeBack(before[i], ObjectsIn(i), ptr)];
          }
        }
      }
      FreeEnd(slabs[..], ptr);
    }
  }

  lemma {:induction false} FreeStep(ss: seq<Slab>, p: int, i: nat)
    requires Shaped(ss) && i < SLAB_COUNT
    ensures |ss| == SLAB_COUNT && ss[i].size > 0 && ObjectsIn(i) <= |ss[i].objects|
    ensures !Accepts(ss[i], p) ==> FreeFrom(ss, p, i) == FreeFrom(ss, p, i + 1)
    ensures Accepts(ss[i], p) && FirstNull(ss[i].objects, ObjectsIn(i)) < 0 ==> FreeFrom(ss, p, i) == ss
    ensures Accepts(ss[i], p) && FirstNull(ss[i].objects, ObjectsIn(i)) >= 0 ==>
              var ss' := ss[i := TakeBack(ss[i], ObjectsIn(i), p)];
              Shaped(ss') && FreeFrom(ss, p, i) == FreeFrom(ss', p, i + 1)
  {
    hide SizeOf, FirstNull;
  }

  lemma {:induction false} FreeEnd(ss: seq<Slab>, p: int)
    requires Shaped(ss)
    ensures FreeFrom(ss, p, SLAB_COUNT) == ss
  {
  }

  lemma {:induction false} IndexFound(size: int, i: nat, n: nat)
    requires i < n <= SLAB_COUNT && IndexOf(size, i) < 0 && SizeOf(i) == size
    ensures IndexOf(size, n) == i
  {
    hide SizeOf;
    if n > i + 1 { IndexFound(size, i, n - 1); }
  }

  lemma {:induction false} FreeFound(o: seq<int>, i: nat, n: nat)
    requires i < n <= |o| && FirstFree(o, i) < 0 && o[i] != NULL
    ensures FirstFree(o, n) == i
  {
    if n > i + 1 { FreeFound(o, i, n - 1); }
  }

  lemma {:induction false} NullFound(o: seq<int>, i: nat, n: nat)
    requires i < n <= |o| && FirstNull(o, i) < 0 && o[i] == NULL
    ensures FirstNull(o, n) == i
  {
    if n > i + 1 { NullFound(o, i, n - 1); }
  }

  lemma {:induction false} NoneBegun(la57: bool, s0: Frames, ss: seq<Slab>)
    requires CanServe(s0, 6) && |s0.used| <= 0x8000_0000 && Sized(ss)
    ensures Begun(la57, s0, 0, ss, s0, NULL, 0, 0)
  {
    hide CanServe, FrameList, TakenTimes, PageList, PagesOk;
    ServedPagesOk(la57, s0);
    assert FrameList(s0, 6)[0..] == FrameList(s0, 6);
  }

  lemma {:induction false} BegunSized(la57: bool, s0: Frames, i: nat, ss: seq<Slab>, s: Frames, ptr: int, len: int,
                                      count: int)
    requires CanServe(s0, 6) && Begun(la57, s0, i, ss, s, ptr, len, count)
    ensures |ss| == SLAB_COUNT
  {
    hide CanServe, FrameList, TakenTimes, PageList, PagesOk, SlabDone;
  }

  /** Slab i may be rewritten before it is cut. */
  lemma {:induction false} StillBegun(la57: bool, s0: Frames, i: nat, ss: seq<Slab>, slab: Slab, s: Frames, ptr: int,
                                      len: int, count: int)
    requires CanServe(s0, 6) && i < SLAB_COUNT && Begun(la57, s0, i, ss, s, ptr, len, count) && |ss| == SLAB_COUNT
    requires |slab.objects| == |ss[i].objects|
    ensures Begun(la57, s0, i, ss[i := slab], s, ptr, len, count)
  {
    hide CanServe, FrameList, TakenTimes, PageList, PagesOk, SlabDone, Base;
  }

  /** With its ends set, a slab that has been cut is done. */
  lemma {:induction false} CutDone(la57: bool, s0: Frames, i: nat, ss0: seq<Slab>, ss: seq<Slab>, s1: Frames, s: Frames,
                                   ptr: int, len: int, count: int)
    requires CanServe(s0, 6) && i < SLAB_COUNT && Cutting(la57, s0, i, ObjectsIn(i), ss0, ss, s1, s, ptr, len, count)
    ensures |ss| == SLAB_COUNT && |ss[i].objects| == MAX_OBJECTS_PER_SLAB
    ensures var slab := ss[i].(start := ss[i].objects[0], end := ss[i].objects[0] + 1024 - ss[i].size);
            Begun(la57, s0, i + 1, ss[i := slab], s, ptr, len, count)
  {
    hide SizeOf, CanServe, FrameList, TakenTimes, PageList, PagesOk, Base, Object, Served, Taken;
    var pages := PageList(la57, s0, 6);
    var slab := ss[i].(start := ss[i].objects[0], end := ss[i].objects[0] + 1024 - ss[i].size);
    NextObject(Base(pages, i), SizeOf(i), 0);
    SlabLength(Base(pages, i), SizeOf(i), ObjectsIn(i));
    PagesMove(la57, s0, i, ss0, s1);
    assert ss[i := slab] == ss0[i := slab];
    assert ss[i].objects[0] == Object(Base(pages, i), SizeOf(i), 0);
    forall k | 0 <= k < i + 1 ensures SlabDone(ss[i := slab][k], Base(pages, k), k) {
      if k < i { assert SlabDone(ss0[k], Base(pages, k), k); }
    }
  }

  lemma {:induction false} SlabLength(base: int, size: int, n: int)
    requires n * size == MAX_SLAB_SIZE
    ensures Object(base, size, n) == base + MAX_SLAB_SIZE
  {
    Commute(n, size);
  }

  /** Beginning an even slab takes the next page off the list. */
  lemma {:induction false} PagesMove(la57: bool, s0: Frames, i: nat, ss: seq<Slab>, s1: Frames)
    requires CanServe(s0, 6) && i < SLAB_COUNT
    requires var pages := PageList(la57, s0, 6);
             PagesOk(pages) && Begun(la57, s0, i, ss, s1, Cursor(pages, i), CursorEnd(pages, i), PagesTaken(i))
    ensures Remaining(s0, StateCut(i, s1), PagesTaken(i + 1))
  {
    hide CanServe, Served, Taken, Sized, SlabDone, Cursor, CursorEnd, FrameList, TakenTimes, PageList, PagesOk;
    var c := PagesTaken(i);
    ServableOk(s1, 6 - c);
    if i % 2 == 0 {
      FirstFrame(s1, 6 - c);
      assert FrameList(s0, 6)[c + 1..] == FrameList(s0, 6)[c..][1..];
    }
  }

  lemma {:induction false} ServableOk(s: Frames, k: nat)
    requires CanServe(s, k)
    ensures FramesOk(s)
  {
  }

  lemma {:induction false} AllBegun(la57: bool, s0: Frames, ss: seq<Slab>, s: Frames, ptr: int, len: int, count: int)
    requires CanServe(s0, 6) && Begun(la57, s0, SLAB_COUNT, ss, s, ptr, len, count)
    ensures Fresh(ss, PageList(la57, s0, 6)) && s == TakenTimes(s0, 6) && count == 6
  {
    hide SizeOf, CanServe, FrameList, PageList, Base, FreshObjects, PagesOk;
    var pages := PageList(la57, s0, 6);
    forall k | 0 <= k < SLAB_COUNT
      ensures ss[k].size == SizeOf(k) && !ss[k].isFull && Ranged(ss[k], Base(pages, k))
           && FreshObjects(ss[k].objects, Base(pages, k), k) {
      assert SlabDone(ss[k], Base(pages, k), k);
    }
  }

  lemma {:induction false} PowFits(i: int)
    requires 0 <= i < SLAB_COUNT
    ensures -0x8000_0000 <= Power(BaseFor(2, i + 1), Abs(i + 1)) < 0x8000_0000
  {
    hide Power;
    assert SizeOf(i) == Power(2, i + 1);
  }

  lemma {:induction false} PowIsSize(i: int, power: int)
    requires 0 <= i < SLAB_COUNT && power == Power(BaseFor(2, i + 1), Abs(i + 1)) % INT_WORD
    ensures power == SizeOf(i)
  {
  }

  lemma {:induction false} CutNone(la57: bool, s0: Frames, i: nat, ss: seq<Slab>, s: Frames, ptr: int, len: int,
                                   count: int)
    requires CanServe(s0, 6) && i < SLAB_COUNT && Begun(la57, s0, i, ss, s, ptr, len, count)
    requires ss[i].size == SizeOf(i) && !ss[i].isFull
    ensures Cutting(la57, s0, i, 0, ss, ss, s, s, ptr, len, count)
  {
    hide SizeOf, CanServe, FrameList, TakenTimes, PageList, SlabDone;
    assert ss == ss[i := ss[i]];
  }

  lemma {:induction false} MayRefill(la57: bool, s0: Frames, i: nat, j: nat, ss0: seq<Slab>, ss: seq<Slab>, s1: Frames,
                                     s: Frames,
                                     ptr: int, len: int, count: int)
    requires CanServe(s0, 6) && i < SLAB_COUNT && Cutting(la57, s0, i, j, ss0, ss, s1, s, ptr, len, count)
         && j < ObjectsIn(i)
    ensures Sized(ss) && ss[i].size == SizeOf(i)
    ensures ptr == NULL || ptr == len <==> j == 0 && i % 2 == 0
    ensures j == 0 && i % 2 == 0 ==> CanServe(s, 6 - i / 2) && CanServe(s, 1)
  {
    hide SizeOf, CanServe, FrameList, TakenTimes, PageList, SlabDone, Base, Object;
    var pages := PageList(la57, s0, 6);
    PageBounds(pages, i);
    if j > 0 {
      ObjectInside(Base(pages, i), i, j);
    } else {
      if i > 0 { PageBounds(pages, i - 1); }
      FewerPages(s, 6 - count);
    }
  }

  lemma {:induction false} FewerPages(s: Frames, k: nat)
    requires CanServe(s, k)
    ensures k >= 1 ==> CanServe(s, 1)
  {
    hide ClearIn;
  }

  lemma {:induction false} PageBounds(pages: seq<int>, i: nat)
    requires PagesOk(pages) && i < SLAB_COUNT
    ensures 0 < Base(pages, i) == pages[i / 2] + (if i % 2 == 0 then 0 else MAX_SLAB_SIZE)
  {
  }

  lemma {:induction false} CutOne(la57: bool, s0: Frames, i: nat, j: nat, ss0: seq<Slab>, ss: seq<Slab>, s1: Frames,
                                  s: Frames,
                                  ptr: int, len: int, count: int, s': Frames, ptr': int, len': int, count': int)
    requires CanServe(s0, 6) && i < SLAB_COUNT && Cutting(la57, s0, i, j, ss0, ss, s1, s, ptr, len, count)
         && j < ObjectsIn(i)
    requires Refilled(la57, s, ptr, len, count, s', ptr', len', count')
    ensures j < MAX_OBJECTS_PER_SLAB && Sized(ss)
    ensures Cutting(la57, s0, i, j + 1, ss0, ss[i := ss[i].(objects := ss[i].objects[j := ptr'])], s1, s',
                    ptr' + SizeOf(i), len', count')
  {
    hide SizeOf, CanServe, FrameList, TakenTimes, SlabDone, Begun, Base, Object, PageList, Served, Taken;
    MayRefill(la57, s0, i, j, ss0, ss, s1, s, ptr, len, count);
    var pages := PageList(la57, s0, 6);
    CutAddress(la57, s0, i, j, ss0, ss, s1, s, ptr, len, count, s', ptr', len', count');
    NextObject(Base(pages, i), SizeOf(i), j);
    var ss' := ss[i := ss[i].(objects := ss[i].objects[j := ptr'])];
    assert ss' == ss0[i := ss'[i]];
  }

  lemma {:induction false} NextObject(base: int, size: int, j: int)
    ensures Object(base, size, j) + size == Object(base, size, j + 1) && Object(base, size, 0) == base
  {
    Distribute(size, j, 1);
  }

  /** The object cut next is where it should be. */
  lemma {:induction false} CutAddress(la57: bool, s0: Frames, i: nat, j: nat, ss0: seq<Slab>, ss: seq<Slab>, s1: Frames,
                                      s: Frames,
                                      ptr: int, len: int, count: int, s': Frames, ptr': int, len': int, count': int)
    requires CanServe(s0, 6) && i < SLAB_COUNT && Cutting(la57, s0, i, j, ss0, ss, s1, s, ptr, len, count)
         && j < ObjectsIn(i)
    requires Refilled(la57, s, ptr, len, count, s', ptr', len', count')
    ensures var pages := PageList(la57, s0, 6);
            ptr' == Object(Base(pages, i), SizeOf(i), j) && len' == pages[i / 2] + PAGE_SIZE
            && count' == PagesTaken(i + 1)
            && |s'.used| <= 0x8000_0000
            && s' == StateCut(i, s1)
            && Begun(la57, s0, i, ss0, s1, Cursor(pages, i), CursorEnd(pages, i), PagesTaken(i))
  {
    hide SizeOf, CanServe, TakenTimes, SlabDone, FrameList, PageList, Object, Served, Taken;
    MayRefill(la57, s0, i, j, ss0, ss, s1, s, ptr, len, count);
    var pages := PageList(la57, s0, 6);
    NextObject(Base(pages, i), SizeOf(i), 0);
    PageBounds(pages, i);
    if j == 0 && i % 2 == 0 {
      NextPage(la57, s0, s, i / 2);
      UsedKept(s);
    }
  }

  lemma {:induction false} UsedKept(s: Frames)
    requires FramesOk(s) && Served(s, 1) >= 0 && Served(s, 1) + 1 <= |s.used|
    ensures |Taken(s, 1).used| == |s.used|
  {
  }

  /** The page served now is the next on the list. */
  lemma {:induction false} NextPage(la57: bool, s0: Frames, s: Frames, c: nat)
    requires CanServe(s0, 6) && c < 6 && CanServe(s, 6 - c) && FrameList(s0, 6)[c..] == FrameList(s, 6 - c)
    ensures FramesOk(s) && PageList(la57, s0, 6)[c] == PageAddress(la57, Served(s, 1))
  {
    hide CanServe, Served, Taken, PageAddress;
    FirstFrame(s, 6 - c);
    assert FrameList(s0, 6)[c] == FrameList(s0, 6)[c..][0];
  }
}
