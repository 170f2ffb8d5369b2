/**
 A run of kmalloc and kfree that hands out a page twice: five clear pages in a row are enough.
 */
module KmallocOverlap {
  import opened Addresses
  import opened PageFrames
  import opened Powers
  import opened Slabs
  import opened Kmalloc
  import opened Runs = KmallocRuns
  import Pmm
  import PmmCapacity
  import SA = SlabAllocator

  // ------------------------------------------------------------ clear pages in a row

  /** The first clear page is f, and the m pages from it on are clear. */
  ghost predicate ClearRun(s: Frames, f: int, m: nat) {
    && FramesOk(s) && 0 < f && f + m <= s.pages && (forall p :: 0 <= p < f ==> s.used[p])
    && forall p :: f <= p < f + m ==> !s.used[p]
  }

  /** One-page requests take such pages one by one. */
  lemma {:induction false} TakeSome(s: Frames, f: int, m: nat, k: nat)
    requires ClearRun(s, f, m) && k <= m && CanServe(s, k)
    ensures ClearRun(SA.TakenTimes(s, k), f + k, m - k) && SA.TakenTimes(s, k).counter == s.counter + k
    decreases k
  {
    hide CanServe, Served;
    SA.Servable(s, k);
    if k > 0 {
      SA.FirstFrame(s, k);
      ServeOne(s, k);
      ServedFirst(s, f, m);
      Counted(s, k);
      TakeSome(Taken(s, 1), f + 1, m - 1, k - 1);
    }
  }

  lemma {:induction false} ServedFirst(s: Frames, f: int, m: nat)
    requires ClearRun(s, f, m) && m > 0
    ensures Served(s, 1) >= 0 ==> Served(s, 1) == f
  {
    assert !s.used[f];
  }

  lemma {:induction false} Counted(s: Frames, k: nat)
    requires CanServe(s, k) && k > 0
    ensures FramesOk(s) && (Served(s, 1) >= 0 ==> Served(s, 1) + 1 <= |s.used|)
    ensures Served(s, 1) >= 0 ==> Taken(s, 1).counter == s.counter + 1
  {
    hide ClearIn, Served, SetRange;
    ServeOne(s, k);
    SmallWrap32(s.counter + 1);
  }

  /** So do any requests that take the lowest clear pages: where the run ends the searched pages, k frames consumed
      are the first k of it. */
  lemma {:induction false} SpentRun(s0: Frames, s: Frames, k: int, f: int, m: nat)
    requires ClearRun(s0, f, m) && f + m == s0.pages && Spent(s0, s, k)
    ensures 0 <= k <= m && ClearRun(s, f + k, m - k)
  {
    hide ClearIn;
    var j := UsedPrefix(s, f, m);
    forall q | f + j < q < f + m ensures !s.used[q] {
      assert Lowest(s0, s) && !s0.used[f + j] && !s0.used[q];
    }
    CountRun(s0.used, s0.pages, f, f + m);
    CountRun(s.used, s0.pages, f + j, f + m);
  }

  /** How many of the m pages from f on are in use before the first clear one. */
  lemma {:induction false} UsedPrefix(s: Frames, f: int, m: nat) returns (j: nat)
    requires 0 <= f && f + m <= |s.used|
    ensures j <= m && (forall p :: f <= p < f + j ==> s.used[p]) && (j < m ==> !s.used[f + j])
  {
    j := 0;
    while j < m && s.used[f + j]
      invariant j <= m && forall p :: f <= p < f + j ==> s.used[p]
    {
      j := j + 1;
    }
  }

  lemma {:induction false} CountRun(used: seq<bool>, n: nat, g: int, h: int)
    requires n <= |used| && 0 <= g <= h && forall p :: 0 <= p < n ==> (used[p] <==> !(g <= p < h))
    ensures ClearIn(used, 0, n) == (if h <= n then h - g else if g <= n then n - g else 0)
  {
    if n > 0 { CountRun(used, n - 1, g, h); }
  }

  /** Five pages from f on, in use or not as bits says, and none below clear. */
  ghost predicate Five(s: Frames, f: int, bits: seq<bool>, c: int) {
    && FramesOk(s) && 0 < f && f + 5 <= s.pages && s.counter == c && |bits| == 5
    && (forall p :: 0 <= p < f ==> s.used[p])
    && forall i :: 0 <= i < 5 ==> s.used[f + i] == bits[i]
  }

  function Marked(bits: seq<bool>, at: nat, n: nat, b: bool): (r: seq<bool>)
    requires |bits| == 5
    ensures |r| == 5
  {
    seq(5, i requires 0 <= i < 5 => if at <= i < at + n then b else bits[i])
  }

  /** A request for n pages is served from the first of the five that is clear. */
  lemma {:induction false} TakeFive(s: Frames, f: int, bits: seq<bool>, c: int, at: nat, n: nat)
    requires Five(s, f, bits, c) && 0 < c && c + n < COUNTER && n >= 1 && at + n <= 5
    requires !bits[at] && forall i :: 0 <= i < at ==> bits[i]
    ensures Served(s, n) == f + at && f + at + n <= |s.used|
    ensures Five(Taken(s, n), f, Marked(bits, at, n, true), c + n)
    ensures RangeIs(s.used, f + at, n, false) <==> forall i :: at <= i < at + n ==> !bits[i]
  {
    hide Wrap32;
    SmallWrap32(c + n);
    assert !s.used[f + at];
    ServedAt(s, f, bits, c, at, n);
    if RangeIs(s.used, f + at, n, false) {
      forall i | at <= i < at + n ensures !bits[i] { assert !s.used[f + i]; }
    }
    if forall i :: at <= i < at + n ==> !bits[i] {
      forall p | f + at <= p < f + at + n ensures !s.used[p] { assert !bits[p - f]; }
    }
  }

  lemma {:induction false} ServedAt(s: Frames, f: int, bits: seq<bool>, c: int, at: nat, n: nat)
    requires Five(s, f, bits, c) && 0 < c && n >= 1 && at < 5
    requires !bits[at] && forall i :: 0 <= i < at ==> bits[i]
    ensures Served(s, n) == f + at
  {
    assert !s.used[f + at];
    forall p | f <= p < f + at ensures s.used[p] { assert bits[p - f]; }
  }

  lemma {:induction false} ReleaseFive(s: Frames, f: int, bits: seq<bool>, c: int, at: nat, n: nat)
    requires Five(s, f, bits, c) && n < c && at + n <= 5
    ensures f + at + n <= |s.used| && Five(Released(s, f + at, n), f, Marked(bits, at, n, false), c - n)
  {
    hide Wrap32;
    SmallWrap32(c - n);
  }

  // ----------------------------------------------------------------------- calls

  /** 4096 bytes take two pages, 8192 three. */
  lemma {:induction false} BigSizes()
    ensures NextPower(4096) == 4096 && Big(4096) && PagesOf(4096) == 2
    ensures NextPower(8192) == 8192 && Big(8192) && PagesOf(8192) == 3
  {
    hide NextPower, Doubled;
    PowerClass(4096);
    DoubledSizes();
    DoubledGrows(12);
    var k := NextPowerIs(8192);
    assert k == 12;
  }

  /** A request that is given the pages from page g on: the pointer is a page behind their address. */
  function PagesAt(la57: bool, size: int, g: int): Runs.Call {
    Malloc(size, Pointer(SA.PageAddress(la57, g) + 4096))
  }

  /** A request for whole pages where five are known. */
  lemma {:induction false} MallocFive(la57: bool, l: Live, size: int, n: nat, f: int, bits: seq<bool>, c: int, at: nat)
      returns (l': Live)
    requires LiveShaped(l) && Five(l.h.s, f, bits, c) && 0 < c && c + n < COUNTER
    requires 0 <= size <= 8192 && Big(size) && PagesOf(NextPower(size)) == n && n >= 2 && at + n <= 5
    requires !bits[at] && forall i :: 0 <= i < at ==> bits[i]
    ensures Runs.Allowed(la57, l, PagesAt(la57, size, f + at)) && Does(la57, l, PagesAt(la57, size, f + at), l'.h)
    ensures l' == LiveAfter(la57, l, PagesAt(la57, size, f + at), l'.h) && LiveShaped(l')
    ensures l'.bigs == l.bigs[f + at := n]
    ensures Five(l'.h.s, f, Marked(bits, at, n, true), c + n)
    ensures PagesClear(la57, l, PagesAt(la57, size, f + at)) <==> forall i :: at <= i < at + n ==> !bits[i]
  {
    hide NextPower, Served, Taken, Shaped, SA.PageAddress, RangeIs, Alloc;
    TakeFive(l.h.s, f, bits, c, at, n);
    var a := SA.PageAddress(la57, f + at);
    var h' := Heap(Taken(l.h.s, n), l.h.ss, l.h.headers[a := NextPower(size)]);
    assert Allocates(la57, l.h, size, h', Pointer(a + PAGE_SIZE));
    l' := LiveAfter(la57, l, PagesAt(la57, size, f + at), h');
  }

  /** A live block of whole pages may be freed. */
  lemma {:induction false} MayFree(la57: bool, l: Live, f: int)
    requires LiveOk(la57, l) && f in l.bigs
    ensures 0 < f && l.bigs[f] >= 2 && f + l.bigs[f] <= |l.h.s.used|
    ensures MayRelease(la57, l.h, PayloadOf(la57, Pages(f)))
    ensures ReleasedHeap(la57, l.h, PayloadOf(la57, Pages(f))) == l.h.(s := Released(l.h.s, f, l.bigs[f]))
    ensures LiveShaped(l)
  {
    hide SlabsOk, SA.PageAddress, Shaped, Wrap32, IndexAt, Free, Apart, RangeIs;
    assert BigOk(la57, l.h, f, l.bigs[f]);
    SA.AddressOfFrame(la57, f);
    WholeNext(SA.PageAddress(la57, f));
    PageIndex(la57, f);
    OutsCount(la57, l);
  }

  lemma {:induction false} OutsCount(la57: bool, l: Live)
    requires LiveOk(la57, l)
    ensures |l.outs| == SLAB_COUNT && HeapShaped(l.h) && |l.frames| == 6
  {
    hide SlabOk, BigOk, Apart, Shaped;
  }

  lemma {:induction false} FreeFive(la57: bool, l: Live, f: int, bits: seq<bool>, c: int, at: nat) returns (l': Live)
    requires LiveOk(la57, l) && f + at in l.bigs && at + l.bigs[f + at] <= 5
    requires Five(l.h.s, f, bits, c) && l.bigs[f + at] < c
    ensures Runs.Allowed(la57, l, FreeBlock(Pages(f + at))) && Does(la57, l, FreeBlock(Pages(f + at)), l'.h)
    ensures l' == LiveAfter(la57, l, FreeBlock(Pages(f + at)), l'.h) && LiveShaped(l') && l'.bigs == l.bigs - {f + at}
    ensures l.bigs[f + at] >= 0
    ensures Five(l'.h.s, f, Marked(bits, at, l.bigs[f + at], false), c - l.bigs[f + at])
  {
    hide LiveOk, Shaped, Released, IndexAt, SA.PageAddress, Free;
    MayFree(la57, l, f + at);
    ReleaseFive(l.h.s, f, bits, c, at, l.bigs[f + at]);
    var h' := ReleasedHeap(la57, l.h, PayloadOf(la57, Pages(f + at)));
    l' := LiveAfter(la57, l, FreeBlock(Pages(f + at)), h');
  }

  // -------------------------------------------------------------------- the run

  function Calls(la57: bool, f: int): (cs: seq<Runs.Call>)
    ensures |cs| == 5
  {
    [PagesAt(la57, 8192, f), PagesAt(la57, 4096, f + 3), FreeBlock(Pages(f)), PagesAt(la57, 4096, f),
     PagesAt(la57, 4096, f + 2)]
  }

  function Five0(): (b: seq<bool>)
    ensures |b| == 5
  {
    [false, false, false, false, false]
  }

  /** From any sound heap whose first five clear pages lie in a row: three pages are taken, two more, the three given
      back, two taken, and two asked for again. Only the last request is not served clear pages. It gets the last
      of the three and the first of the block behind, which is live: the two blocks share bytes. */
  lemma {:induction false} PageTwice(la57: bool, l: Live, reserved: set<int>, f: int, c: int) returns (ls: seq<Live>)
    requires Sound(la57, l, reserved) && Five(l.h.s, f, Five0(), c) && 0 < c && c + 6 < COUNTER
    ensures IsRun(la57, ls, Calls(la57, f)) && ls[0] == l && AllClear(la57, ls, Calls(la57, f), 4)
    ensures !PagesClear(la57, ls[4], Calls(la57, f)[4])
    ensures IsLive(ls[5], Pages(f + 2)) && IsLive(ls[5], Pages(f + 3))
    ensures ShareBytes(la57, f + 2, ls[5].bigs[f + 2], f + 3, ls[5].bigs[f + 3])
    ensures !Sound(la57, ls[5], reserved)
  {
    hide NextPower, LiveOk, Runs.Kept, Does, LiveAfter, Runs.Allowed, PagesClear, SA.PageAddress, Five, Marked,
         LiveShaped, PagesAt;
    BigSizes();
    SoundShape(la57, l, reserved);
    MarkedBits();
    var l1 := MallocFive(la57, l, 8192, 3, f, Five0(), c, 0);
    Runs.StepKeeps(la57, l, reserved, PagesAt(la57, 8192, f), l1.h);
    var l2 := MallocFive(la57, l1, 4096, 2, f, [true, true, true, false, false], c + 3, 3);
    Runs.StepKeeps(la57, l1, reserved, PagesAt(la57, 4096, f + 3), l2.h);
    var l3 := FreeFive(la57, l2, f, [true, true, true, true, true], c + 5, 0);
    FreeClear(la57, l2, Pages(f));
    Runs.StepKeeps(la57, l2, reserved, FreeBlock(Pages(f)), l3.h);
    var l4 := MallocFive(la57, l3, 4096, 2, f, [false, false, false, true, true], c + 2, 0);
    Runs.StepKeeps(la57, l3, reserved, PagesAt(la57, 4096, f), l4.h);
    var l5 := MallocFive(la57, l4, 4096, 2, f, [true, true, false, true, true], c + 4, 2);
    assert [true, true, false, true, true][3];
    Runs.StepKeeps(la57, l4, reserved, PagesAt(la57, 4096, f + 2), l5.h);
    ls := [l, l1, l2, l3, l4, l5];
    FiveInRange(l, f, c);
    Neighbours(la57, l, reserved, f);
  }

  lemma {:induction false} SoundShape(la57: bool, l: Live, reserved: set<int>)
    requires Sound(la57, l, reserved)
    ensures LiveShaped(l)
  {
    hide SlabOk, BigOk, Apart, Shaped, Runs.Kept;
  }

  lemma {:induction false} MarkedBits()
    ensures Marked(Five0(), 0, 3, true) == [true, true, true, false, false]
    ensures Marked([true, true, true, false, false], 3, 2, true) == [true, true, true, true, true]
    ensures Marked([true, true, true, true, true], 0, 3, false) == [false, false, false, true, true]
    ensures Marked([false, false, false, true, true], 0, 2, true) == [true, true, false, true, true]
  {
  }

  lemma {:induction false} FreeClear(la57: bool, l: Live, b: Block)
    requires Runs.Allowed(la57, l, FreeBlock(b))
    ensures PagesClear(la57, l, FreeBlock(b))
  {
  }

  lemma {:induction false} FiveInRange(l: Live, f: int, c: int)
    requires Five(l.h.s, f, Five0(), c)
    ensures 0 < f && f + 5 <= |l.h.s.used|
  {
  }

  lemma {:induction false} Neighbours(la57: bool, l: Live, reserved: set<int>, f: int)
    requires Sound(la57, l, reserved) && 0 < f && f + 5 <= |l.h.s.used|
    ensures ShareBytes(la57, f + 2, 2, f + 3, 2)
  {
    hide SlabsOk, BigOk, Apart, HeapShaped, Runs.Kept, SA.PageAddress;
    SA.AddressOfFrame(la57, f + 2);
    SA.AddressOfFrame(la57, f + 3);
  }

  /** After slab_init that is so as soon as the first eleven clear pages lay in a row before it. */
  lemma {:induction false} PageTwiceFromStart(la57: bool, s0: Frames, ss: seq<Slab>, headers: Headers, f: int)
      returns (ls: seq<Live>)
    requires |s0.used| <= 0x8000_0000 && ClearRun(s0, f, 11) && 0 < s0.counter && s0.counter + 12 < COUNTER
    requires CanServe(s0, 6) && Fresh(ss, SA.PageList(la57, s0, 6))
    ensures IsRun(la57, ls, Calls(la57, f + 6)) && ls[0] == Start(s0, ss, headers)
    ensures AllClear(la57, ls, Calls(la57, f + 6), 4) && !PagesClear(la57, ls[4], Calls(la57, f + 6)[4])
    ensures IsLive(ls[5], Pages(f + 8)) && IsLive(ls[5], Pages(f + 9))
    ensures ShareBytes(la57, f + 8, ls[5].bigs[f + 8], f + 9, ls[5].bigs[f + 9])
  {
    hide CanServe, Fresh, SA.PageList, SA.TakenTimes, SA.FrameList, Sound, IsRun, AllClear, PagesClear, ShareBytes;
    SoundStart(la57, s0, ss, headers);
    TakeSome(s0, f, 11, 6);
    ls := PageTwice(la57, Start(s0, ss, headers), UsedPages(s0), f + 6, s0.counter + 6);
  }

  lemma {:induction false} SmallPages(p: nat)
    requires Pmm.MapOk(PmmCapacity.SmallMachine()) && Pmm.HostOf(PmmCapacity.SmallMachine()) == 0
    requires Pmm.BitmapSize(Pmm.TopOf(PmmCapacity.SmallMachine(), 1)) == 0x1000
    ensures Pmm.Usable(PmmCapacity.SmallMachine(), 1, p) && !Pmm.InStorage(PmmCapacity.SmallMachine(), p)
         <==> 2 <= p < 16385
  {
    hide Pmm.MapOk, Pmm.HostOf, Pmm.BitmapSize, Pmm.TopOf;
    var e := PmmCapacity.SmallMachine()[0];
    if 1 <= p < 16385 { assert Pmm.Covers(e, p); }
  }

  /** On such a machine pmm_init leaves 16383 clear pages in a row, and the counter far from its ends. */
  lemma {:induction false} RunAfterInit(s: Frames)
    requires Pmm.Started(s, PmmCapacity.SmallMachine())
    ensures ClearRun(s, 2, 16383) && s.pages == 16385 && CanServe(s, 12)
  {
    hide Pmm.Usable, CanServe, Pmm.UsablePages, PmmCapacity.AllServed, Pmm.InStorage, Pmm.MapOk, Pmm.TopOf,
         Pmm.BitmapSize, Pmm.HostOf, PmmCapacity.SmallMachine, Pmm.CarvedMap;
    var es := PmmCapacity.SmallMachine();
    PmmCapacity.SmallMap();
    forall p: nat | p < |s.used| ensures !s.used[p] <==> 2 <= p < 16385 { SmallPages(p); }
    PmmCapacity.ServesBelow16G(s, es, 12);
  }
}
