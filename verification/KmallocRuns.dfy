/**
 Runs of kmalloc and kfree: when live blocks stay apart from one another and from the pages others use, and a run
 in which they do not.
 */
module KmallocRuns {
  import opened Addresses
  import opened PageFrames
  import opened Powers
  import opened Slabs
  import opened Kmalloc
  import Pmm
  import SA = SlabAllocator

  /** Pages of live big blocks, by their first page. */
  type Bigs = map<int, int>

  /** The heap, the frames under the slabs, the slab objects out and the big blocks out. */
  datatype Live = Live(h: Heap, frames: seq<int>, outs: seq<set<int>>, bigs: Bigs)

  /** The pages of the slabs. */
  function SlabPages(la57: bool, frames: seq<int>): (pages: seq<int>)
    ensures |pages| == |frames|
  {
    seq(|frames|, k requires 0 <= k < |frames| => SA.PageAddress(la57, frames[k]))
  }

  /** A live big block has its pages in use and its size in its header. */
  ghost predicate BigOk(la57: bool, h: Heap, f: int, n: int) {
    && 0 < f && n >= 2 && f + n <= |h.s.used| && RangeIs(h.s.used, f, n, true)
    && SA.PageAddress(la57, f) in h.headers && PagesOf(h.headers[SA.PageAddress(la57, f)]) == n
  }

  /** The pages from f on, n of them, are apart from page g. */
  predicate Apart(f: int, n: int, g: int, m: int) {
    f + n <= g || g + m <= f
  }

  ghost predicate LiveOk(la57: bool, l: Live) {
    && HeapShaped(l.h) && |l.h.s.used| <= 0x8000_0000 && |l.frames| == 6
    && SlabsOk(l.h.ss, SlabPages(la57, l.frames), l.outs)
    && (forall k :: 0 <= k < 6 ==> 0 <= l.frames[k] < |l.h.s.used| && l.h.s.used[l.frames[k]])
    && (forall f {:trigger l.bigs[f]} :: f in l.bigs ==> BigOk(la57, l.h, f, l.bigs[f]))
    && (forall f, k {:trigger l.bigs[f], l.frames[k]} :: f in l.bigs && 0 <= k < 6 ==>
          Apart(f, l.bigs[f], l.frames[k], 1))
    && (forall f, g {:trigger l.bigs[f], l.bigs[g]} :: f in l.bigs && g in l.bigs && f != g ==>
          Apart(f, l.bigs[f], g, l.bigs[g]))
  }

  /** The heap uses page p: it holds slabs, or lies in a live big block. */
  ghost predicate InHeap(l: Live, p: int) {
    p in l.frames || exists f :: f in l.bigs && f <= p < f + l.bigs[f]
  }

  /** Every page in use is reserved for somebody else or in the heap, and no reserved page is in both. */
  ghost predicate Kept(l: Live, reserved: set<int>) {
    (forall p {:trigger l.h.s.used[p]} :: 0 <= p < |l.h.s.used| && l.h.s.used[p] ==> p in reserved || InHeap(l, p))
    && forall p {:trigger p in reserved} :: p in reserved ==> 0 <= p < |l.h.s.used| && l.h.s.used[p] && !InHeap(l, p)
  }

  /** A sound heap: the blocks apart from one another and from the reserved pages, and nothing in use unaccounted
      for. */
  ghost predicate Sound(la57: bool, l: Live, reserved: set<int>) {
    LiveOk(la57, l) && Kept(l, reserved)
  }

  // ----------------------------------------------------------------- live blocks

  /** A block by the allocator that served it. */
  datatype Block = Small(i: int, p: int) | Pages(f: int)

  ghost predicate IsLive(l: Live, b: Block) {
    match b
    case Small(i, p) => |l.outs| == SLAB_COUNT && 0 <= i < SLAB_COUNT && p in l.outs[i]
    case Pages(f) => f in l.bigs
  }

  /** Where a live block begins, header included. */
  function Begin(la57: bool, b: Block): int {
    match b
    case Small(i, p) => p
    case Pages(f) => SA.PageAddress(la57, f)
  }

  ghost function Length(l: Live, b: Block): int
    requires IsLive(l, b)
  {
    match b
    case Small(i, p) => SizeOf(i)
    case Pages(f) => PAGE_SIZE * l.bigs[f]
  }

  /** Two different live blocks have no byte in common. */
  lemma {:induction false} LiveApart(la57: bool, l: Live, a: Block, b: Block)
    requires LiveOk(la57, l) && IsLive(l, a) && IsLive(l, b) && a != b
    ensures Begin(la57, a) + Length(l, a) <= Begin(la57, b) || Begin(la57, b) + Length(l, b) <= Begin(la57, a)
  {
    hide SlabsOk, HeapShaped, BigOk, SA.PageAddress, SlabPages, SizeOf, Apart;
    match (a, b) {
      case (Small(i, p), Small(k, q)) => SmallApart(la57, l, i, p, k, q);
      case (Small(i, p), Pages(f)) => MixedApart(la57, l, i, p, f);
      case (Pages(f), Small(i, p)) => MixedApart(la57, l, i, p, f);
      case (Pages(f), Pages(g)) => PagesApart(la57, l, f, g);
    }
  }

  lemma {:induction false} SmallApart(la57: bool, l: Live, i: int, p: int, k: int, q: int)
    requires LiveOk(la57, l) && IsLive(l, Small(i, p)) && IsLive(l, Small(k, q)) && (i != k || p != q)
    ensures p + SizeOf(i) <= q || q + SizeOf(k) <= p
  {
    hide HeapShaped, BigOk, SA.PageAddress, SizeOf, Base, Object, SlabsOk, Apart;
    var pages := SlabPages(la57, l.frames);
    SlabPagesOk(la57, l);
    OutIsMember(l.h.ss, pages, l.outs, i, p);
    OutIsMember(l.h.ss, pages, l.outs, k, q);
    var j :| 0 <= j < ObjectsIn(i) && p == Object(Base(pages, i), SizeOf(i), j);
    var m :| 0 <= m < ObjectsIn(k) && q == Object(Base(pages, k), SizeOf(k), m);
    LayoutApart(pages, i, j, k, m);
  }

  lemma {:induction false} MixedApart(la57: bool, l: Live, i: int, p: int, f: int)
    requires LiveOk(la57, l) && IsLive(l, Small(i, p)) && IsLive(l, Pages(f))
    ensures p + SizeOf(i) <= SA.PageAddress(la57, f) || SA.PageAddress(la57, f) + PAGE_SIZE * l.bigs[f] <= p
  {
    hide HeapShaped, SA.PageAddress, SizeOf, Object, SlabsOk, RangeIs, Member;
    var pages, g := SlabPages(la57, l.frames), l.frames[i / 2];
    OutIsMember(l.h.ss, pages, l.outs, i, p);
    MemberInside(Base(pages, i), i, p);
    assert BigOk(la57, l.h, f, l.bigs[f]) && Apart(f, l.bigs[f], g, 1);
    SA.AddressOfFrame(la57, g);
    SA.AddressOfFrame(la57, f);
  }

  lemma {:induction false} PagesApart(la57: bool, l: Live, f: int, g: int)
    requires LiveOk(la57, l) && f in l.bigs && g in l.bigs && f != g
    ensures SA.PageAddress(la57, f) + PAGE_SIZE * l.bigs[f] <= SA.PageAddress(la57, g)
            || SA.PageAddress(la57, g) + PAGE_SIZE * l.bigs[g] <= SA.PageAddress(la57, f)
  {
    hide HeapShaped, SA.PageAddress, SlabsOk, RangeIs;
    assert BigOk(la57, l.h, f, l.bigs[f]) && BigOk(la57, l.h, g, l.bigs[g]) && Apart(f, l.bigs[f], g, l.bigs[g]);
    SA.AddressOfFrame(la57, f);
    SA.AddressOfFrame(la57, g);
  }

  // ----------------------------------------------------------------------- steps

  /** A call of kmalloc with what it returned, or of kfree with the payload pointer of a live block. */
  datatype Call = Malloc(size: int, r: Outcome) | FreeBlock(b: Block)

  ghost predicate LiveShaped(l: Live) {
    HeapShaped(l.h) && |l.frames| == 6 && |l.outs| == SLAB_COUNT
  }

  /** What a caller must observe: sizes for which next_pow_of_two ends and whose pages stay under the bitmap;
      frees of live blocks only. */
  ghost predicate Allowed(la57: bool, l: Live, c: Call) {
    LiveShaped(l)
    && match c {
         case Malloc(size, _) =>
           0 <= size <= 0x8000_0000_0000_0000
           && (Big(size) ==> var n := PagesOf(NextPower(size)); n >= 2 && InRange(l.h.s, n))
         case FreeBlock(b) => IsLive(l, b) && (b.Small? ==> b.i >= 2)
       }
  }

  /** The pages from f on, n of them, are apart from every live big block and from the slabs. */
  ghost predicate ApartFromLive(l: Live, f: int, n: int)
    requires |l.frames| == 6
  {
    (forall g {:trigger l.bigs[g]} :: g in l.bigs ==> Apart(g, l.bigs[g], f, n))
    && forall k :: 0 <= k < 6 ==> Apart(f, n, l.frames[k], 1)
  }

  /** If the call is served whole pages, all of them are clear. The page allocator looks at the first one only. */
  ghost predicate PagesClear(la57: bool, l: Live, c: Call)
    requires Allowed(la57, l, c)
  {
    c.Malloc? && Big(c.size) ==>
      var n := PagesOf(NextPower(c.size));
      Served(l.h.s, n) >= 0 ==> RangeIs(l.h.s.used, Served(l.h.s, n), n, false)
  }

  /** The live blocks after a call that went from heap l.h to h'. */
  ghost function LiveAfter(la57: bool, l: Live, c: Call, h': Heap): Live
    requires Allowed(la57, l, c)
  {
    match c
    case Malloc(size, _) =>
      if Big(size) then
        var n := PagesOf(NextPower(size));
        var f := Served(l.h.s, n);
        Live(h', l.frames, l.outs, if f < 0 then l.bigs else l.bigs[f := n])
      else
        Live(h', l.frames, OutAfter(l.h.ss, l.outs, NextPower(size + HEADER)), l.bigs)
    case FreeBlock(Small(i, p)) =>
      Live(h', l.frames,
           if p + SizeOf(i) <= Base(SlabPages(la57, l.frames), i) + 1024 then l.outs[i := l.outs[i] - {p}] else l.outs,
           l.bigs)
    case FreeBlock(Pages(f)) =>
      Live(h', l.frames, l.outs, l.bigs - {f})
  }

  /** The payload pointer of a block. */
  function PayloadOf(la57: bool, b: Block): int {
    match b
    case Small(i, p) => p + HEADER
    case Pages(f) => SA.PageAddress(la57, f) + PAGE_SIZE
  }

  /** The call goes from l.h to h', as the contracts of Kmalloc and Kfree say. */
  ghost predicate Does(la57: bool, l: Live, c: Call, h': Heap)
    requires Allowed(la57, l, c)
  {
    match c
    case Malloc(size, r) => Allocates(la57, l.h, size, h', r)
    case FreeBlock(b) => MayRelease(la57, l.h, PayloadOf(la57, b)) && h' == ReleasedHeap(la57, l.h, PayloadOf(la57, b))
  }

  lemma {:induction false} SlabPagesOk(la57: bool, l: Live)
    requires LiveOk(la57, l)
    ensures PagesOk(SlabPages(la57, l.frames)) && |l.outs| == SLAB_COUNT
  {
    hide BigOk, SlabOk, Apart, Shaped, SA.PageAddress;
  }

  /** A block of whole pages keeps the heap sound exactly when the pages were clear. */
  lemma {:induction false} BigStep(la57: bool, l: Live, reserved: set<int>, size: int, h': Heap, r: Outcome)
    requires Sound(la57, l, reserved) && Allowed(la57, l, Malloc(size, r)) && Big(size)
    requires Allocates(la57, l.h, size, h', r)
    ensures Sound(la57, LiveAfter(la57, l, Malloc(size, r), h'), reserved) <==> PagesClear(la57, l, Malloc(size, r))
  {
    hide SlabsOk, NextPower, Served, SA.PageAddress, Shaped, Alloc, BigOk, RangeIs, SetRange, Wrap32, Apart, InHeap;
    var n := PagesOf(NextPower(size));
    var f := Served(l.h.s, n);
    if f >= 0 {
      ServedPositive(l.h.s, n);
      ServedClear(l.h.s, n);
      NewBig(la57, l.h, h', f, n, NextPower(size));
      forall g | g in l.bigs
        ensures g != f && BigOk(la57, h', g, l.bigs[g]) && (Apart(g, l.bigs[g], f, n) <==> Apart(f, n, g, l.bigs[g])) {
        OldBig(la57, l.h, h', f, n, NextPower(size), g, l.bigs[g]);
        ApartSwap(g, l.bigs[g], f, n);
      }
      var l' := LiveAfter(la57, l, Malloc(size, r), h');
      AddedBig(la57, l, l', f, n);
      TakenIs(l.h.s, n, h'.s);
      if RangeIs(l.h.s.used, f, n, false) {
        ClearApart(la57, l, f, n);
        ClearKept(la57, l, l', reserved, f, n);
      } else if Sound(la57, l', reserved) {
        UsedNotKept(la57, l, l', reserved, f, n);
      }
    } else {
      SameLive(l, LiveAfter(la57, l, Malloc(size, r), h'), reserved);
    }
  }

  lemma {:induction false} SameLive(l: Live, l': Live, reserved: set<int>)
    requires Kept(l, reserved) && l'.h.s.used == l.h.s.used && l'.frames == l.frames && l'.bigs == l.bigs
    ensures Kept(l', reserved)
  {
    forall p ensures InHeap(l', p) <==> InHeap(l, p) { SameHeap(l, l', p); }
    hide InHeap;
  }

  lemma {:induction false} SameHeap(l: Live, l': Live, p: int)
    requires l'.frames == l.frames && l'.bigs == l.bigs
    ensures InHeap(l', p) <==> InHeap(l, p)
  {
  }

  /** Taking n pages from f on puts just these in use besides. */
  lemma {:induction false} TakenIs(s: Frames, n: nat, s': Frames)
    requires FramesOk(s) && Served(s, n) >= 0 && Served(s, n) + n <= |s.used| && s' == Taken(s, n)
    ensures |s'.used| == |s.used|
    ensures forall p :: 0 <= p < |s.used| ==> (s'.used[p] <==> s.used[p] || Served(s, n) <= p < Served(s, n) + n)
  {
    hide Served, Wrap32;
  }

  /** Clear pages are apart from whatever is live. */
  lemma {:induction false} ClearApart(la57: bool, l: Live, f: int, n: int)
    requires LiveOk(la57, l) && 0 < f && n >= 1 && f + n <= |l.h.s.used| && RangeIs(l.h.s.used, f, n, false)
    ensures ApartFromLive(l, f, n)
  {
    hide SlabsOk, SA.PageAddress, HeapShaped, RangeIs, Apart;
    forall g | g in l.bigs ensures Apart(g, l.bigs[g], f, n) {
      assert BigOk(la57, l.h, g, l.bigs[g]);
      FreeApart(l.h.s.used, g, l.bigs[g], f, n);
    }
    forall k | 0 <= k < 6 ensures Apart(f, n, l.frames[k], 1) {
      SinglePage(l.h.s.used, l.frames[k]);
      FreeApart(l.h.s.used, l.frames[k], 1, f, n);
    }
  }

  /** l' is l with a big block more, whose pages are now in use. */
  ghost predicate BlockAdded(l: Live, l': Live, f: int, n: int) {
    && f !in l.bigs && l'.frames == l.frames && l'.bigs == l.bigs[f := n]
    && 0 < f && n >= 1 && f + n <= |l.h.s.used| == |l'.h.s.used|
    && forall p :: 0 <= p < |l.h.s.used| ==> (l'.h.s.used[p] <==> l.h.s.used[p] || f <= p < f + n)
  }

  lemma {:induction false} HeapWith(l: Live, l': Live, f: int, n: int, p: int)
    requires BlockAdded(l, l', f, n)
    ensures InHeap(l', p) <==> InHeap(l, p) || f <= p < f + n
  {
    if InHeap(l, p) && p !in l.frames {
      var g :| g in l.bigs && g <= p < g + l.bigs[g];
      assert g in l'.bigs && l'.bigs[g] == l.bigs[g];
    }
    assert f in l'.bigs && l'.bigs[f] == n;
    if InHeap(l', p) && p !in l'.frames && !(f <= p < f + n) {
      var g :| g in l'.bigs && g <= p < g + l'.bigs[g];
      assert g in l.bigs && l'.bigs[g] == l.bigs[g];
    }
  }

  lemma {:induction false} ClearKept(la57: bool, l: Live, l': Live, reserved: set<int>, f: int, n: int)
    requires Sound(la57, l, reserved) && BlockAdded(l, l', f, n) && RangeIs(l.h.s.used, f, n, false)
    ensures Kept(l', reserved)
  {
    hide LiveOk, InHeap;
    forall p ensures InHeap(l', p) <==> InHeap(l, p) || f <= p < f + n { HeapWith(l, l', f, n, p); }
    forall p | p in reserved ensures 0 <= p < |l'.h.s.used| && l'.h.s.used[p] && !InHeap(l', p) {
      RangeAt(l.h.s.used, f, n, false, p);
    }
  }

  /** A page that was in use belonged to somebody: with it in the new block, two blocks overlap, or the block
      overlaps a slab or a reserved page. */
  lemma {:induction false} UsedNotKept(la57: bool, l: Live, l': Live, reserved: set<int>, f: int, n: int)
    requires Sound(la57, l, reserved) && BlockAdded(l, l', f, n) && !RangeIs(l.h.s.used, f, n, false)
    ensures !(ApartFromLive(l, f, n) && Kept(l', reserved))
  {
    hide LiveOk;
    var p :| f <= p < f + n && l.h.s.used[p];
    HeapWith(l, l', f, n, p);
    assert p in reserved || InHeap(l, p);
    if p !in reserved {
      FramesSix(la57, l);
      if p in l.frames {
        var k :| 0 <= k < |l.frames| && l.frames[k] == p;
        assert !Apart(f, n, l.frames[k], 1);
      } else {
        var g :| g in l.bigs && g <= p < g + l.bigs[g];
        assert !Apart(g, l.bigs[g], f, n);
      }
    }
  }

  lemma {:induction false} FramesSix(la57: bool, l: Live)
    requires LiveOk(la57, l)
    ensures |l.frames| == 6
  {
  }

  /** With one more big block, whose pages and header are right, soundness is a matter of where it lies. */
  lemma {:induction false} AddedBig(la57: bool, l: Live, l': Live, f: int, n: int)
    requires LiveOk(la57, l) && l' == Live(l'.h, l.frames, l.outs, l.bigs[f := n])
    requires HeapShaped(l'.h) && |l'.h.s.used| == |l.h.s.used| && l'.h.ss == l.h.ss && BigOk(la57, l'.h, f, n)
    requires forall k :: 0 <= k < |l.h.s.used| && l.h.s.used[k] ==> l'.h.s.used[k]
    requires forall g {:trigger l.bigs[g]} :: g in l.bigs ==>
               g != f && BigOk(la57, l'.h, g, l.bigs[g]) && (Apart(g, l.bigs[g], f, n) <==> Apart(f, n, g, l.bigs[g]))
    ensures LiveOk(la57, l') <==> ApartFromLive(l, f, n)
  {
    hide SlabsOk, HeapShaped, BigOk, Apart, SlabPages;
    if ApartFromLive(l, f, n) {
      forall g, k | g in l'.bigs && 0 <= k < 6 ensures Apart(g, l'.bigs[g], l'.frames[k], 1) {
        assert g != f ==> g in l.bigs && l'.bigs[g] == l.bigs[g];
      }
      forall g, k | g in l'.bigs && k in l'.bigs && g != k ensures Apart(g, l'.bigs[g], k, l'.bigs[k]) {
        assert g != f ==> g in l.bigs && l'.bigs[g] == l.bigs[g];
        assert k != f ==> k in l.bigs && l'.bigs[k] == l.bigs[k];
      }
    } else if g :| g in l.bigs && !Apart(g, l.bigs[g], f, n) {
      assert g in l'.bigs && l'.bigs[g] == l.bigs[g] && l'.bigs[f] == n;
    } else {
      var k :| 0 <= k < 6 && !Apart(f, n, l.frames[k], 1);
      assert l'.bigs[f] == n && l'.frames[k] == l.frames[k];
    }
  }

  /** h' is h with pages f to f + n taken and the header of f written. */
  ghost predicate TookBig(la57: bool, h: Heap, h': Heap, f: int, n: int, size: int) {
    && 0 < f && n >= 2 && f + n <= |h.s.used| <= 0x8000_0000
    && h'.s.used == SetRange(h.s.used, f, n, true) && h'.headers == h.headers[SA.PageAddress(la57, f) := size]
  }

  lemma {:induction false} NewBig(la57: bool, h: Heap, h': Heap, f: int, n: int, size: int)
    requires TookBig(la57, h, h', f, n, size) && PagesOf(size) == n
    ensures BigOk(la57, h', f, n) && forall k :: 0 <= k < |h.s.used| && h.s.used[k] ==> h'.s.used[k]
  {
    hide SA.PageAddress;
  }

  lemma {:induction false} OldBig(la57: bool, h: Heap, h': Heap, f: int, n: int, size: int, g: int, m: int)
    requires TookBig(la57, h, h', f, n, size) && BigOk(la57, h, g, m) && !h.s.used[f]
    ensures BigOk(la57, h', g, m) && g != f
  {
    hide SA.PageAddress, Apart;
    RangeAt(h.s.used, g, m, true, f);
    AddressesDiffer(la57, f, g);
  }

  lemma {:induction false} ApartSwap(g: int, m: int, f: int, n: int)
    ensures Apart(g, m, f, n) <==> Apart(f, n, g, m)
  {
  }

  lemma {:induction false} ServedClear(s: Frames, n: nat)
    requires FramesOk(s) && Served(s, n) >= 0
    ensures !s.used[Served(s, n)]
  {
  }

  /** The stretches of n and m pages from frames f and g on have a byte in common. */
  predicate ShareBytes(la57: bool, f: int, n: int, g: int, m: int) {
    SA.PageAddress(la57, f) < SA.PageAddress(la57, g) + PAGE_SIZE * m
    && SA.PageAddress(la57, g) < SA.PageAddress(la57, f) + PAGE_SIZE * n
  }

  /** What a call gets that is served a page in use: bytes of a live block, of a slab, or of a reserved page. */
  lemma {:induction false} OverlapShares(la57: bool, l: Live, reserved: set<int>, size: int, r: Outcome)
    requires Sound(la57, l, reserved) && Allowed(la57, l, Malloc(size, r)) && !PagesClear(la57, l, Malloc(size, r))
    ensures var n := PagesOf(NextPower(size));
            var f := Served(l.h.s, n);
            (exists g :: g in l.bigs && ShareBytes(la57, f, n, g, l.bigs[g]))
            || exists p :: (p in l.frames || p in reserved) && ShareBytes(la57, f, n, p, 1)
  {
    hide SlabsOk, NextPower, Served, SA.PageAddress, Shaped, Apart;
    var n := PagesOf(NextPower(size));
    var f := Served(l.h.s, n);
    var p :| f <= p < f + n && l.h.s.used[p];
    SA.AddressOfFrame(la57, f);
    SA.AddressOfFrame(la57, p);
    if p in l.frames || p in reserved {
      assert ShareBytes(la57, f, n, p, 1);
    } else {
      var g :| g in l.bigs && g <= p < g + l.bigs[g];
      assert BigOk(la57, l.h, g, l.bigs[g]);
      SA.AddressOfFrame(la57, g);
      assert ShareBytes(la57, f, n, g, l.bigs[g]);
    }
  }

  lemma {:induction false} SinglePage(used: seq<bool>, k: nat)
    requires k < |used| && used[k]
    ensures RangeIs(used, k, 1, true)
  {
  }

  lemma {:induction false} ServedPositive(s: Frames, n: nat)
    requires FramesOk(s) && Served(s, n) >= 0
    ensures Served(s, n) > 0
  {
  }

  lemma {:induction false} AddressesDiffer(la57: bool, f: int, g: int)
    requires 0 <= f < 0x8000_0000 && 0 <= g < 0x8000_0000
    ensures SA.PageAddress(la57, f) == SA.PageAddress(la57, g) <==> f == g
  {
    hide SA.PageAddress;
    SA.AddressOfFrame(la57, f);
    SA.AddressOfFrame(la57, g);
  }

  /** A stretch of pages in use and a stretch of free ones are apart. */
  lemma {:induction false} FreeApart(used: seq<bool>, g: int, m: int, f: int, n: int)
    requires 0 <= g && m >= 1 && g + m <= |used| && 0 <= f && n >= 1 && f + n <= |used|
    requires RangeIs(used, g, m, true) && RangeIs(used, f, n, false)
    ensures Apart(g, m, f, n) && Apart(f, n, g, m)
  {
    hide RangeIs;
    RangeAt(used, g, m, true, f);
    RangeAt(used, g, m, true, g);
    RangeAt(used, f, n, false, f);
    RangeAt(used, f, n, false, g);
  }

  lemma {:induction false} RangeAt(used: seq<bool>, from: nat, n: nat, b: bool, k: nat)
    requires from + n <= |used| && RangeIs(used, from, n, b)
    ensures from <= k < from + n ==> used[k] == b
  {
  }

  lemma {:induction false} SmallStep(la57: bool, l: Live, size: int, h': Heap, r: Outcome)
    requires LiveOk(la57, l) && Allowed(la57, l, Malloc(size, r)) && !Big(size) && Allocates(la57, l.h, size, h', r)
    ensures LiveOk(la57, LiveAfter(la57, l, Malloc(size, r), h'))
  {
    hide SlabsOk, NextPower, SA.PageAddress, Shaped, Wrap32, Alloc, BigOk, Served, Member, Base, Apart, SlabPages,
         OutAfter;
    var pages := SlabPages(la57, l.frames);
    var k := NextPower(size + HEADER);
    SlabPagesOk(la57, l);
    AllocKeeps(l.h.ss, pages, l.outs, k);
    AllocShape(l.h.ss, k);
    SmallBigs(la57, l, size, h', r);
  }

  lemma {:induction false} SmallBigs(la57: bool, l: Live, size: int, h': Heap, r: Outcome)
    requires LiveOk(la57, l) && Allowed(la57, l, Malloc(size, r)) && !Big(size) && Allocates(la57, l.h, size, h', r)
    ensures forall g {:trigger l.bigs[g]} :: g in l.bigs ==> BigOk(la57, h', g, l.bigs[g])
  {
    hide SlabsOk, NextPower, SA.PageAddress, Shaped, Wrap32, Alloc, RangeIs, Served, Member, Base, Apart, SlabPages,
         OutAfter;
    var pages := SlabPages(la57, l.frames);
    var k := NextPower(size + HEADER);
    SlabPagesOk(la57, l);
    AllocKeeps(l.h.ss, pages, l.outs, k);
    var p := Alloc(l.h.ss, k).1;
    forall g | g in l.bigs ensures BigOk(la57, h', g, l.bigs[g]) {
      assert BigOk(la57, l.h, g, l.bigs[g]);
      if p != NULL { SmallHeader(la57, l, IndexOf(k, SLAB_COUNT), p, g); }
    }
  }

  lemma {:induction false} AllocShape(ss: seq<Slab>, size: int)
    requires Shaped(ss)
    ensures Shaped(Alloc(ss, size).0)
  {
    hide SizeOf, FirstFree;
  }

  /** The header of a slab block is not the header of a live big block. */
  lemma {:induction false} SmallHeader(la57: bool, l: Live, i: int, p: int, g: int)
    requires LiveOk(la57, l) && 0 <= i < SLAB_COUNT && Member(Base(SlabPages(la57, l.frames), i), i, p) && g in l.bigs
    ensures p != SA.PageAddress(la57, g)
  {
    hide HeapShaped, SA.PageAddress, SizeOf, Object, SlabsOk, RangeIs, Member;
    var pages, f := SlabPages(la57, l.frames), l.frames[i / 2];
    MemberInside(Base(pages, i), i, p);
    assert BigOk(la57, l.h, g, l.bigs[g]) && Apart(g, l.bigs[g], f, 1);
    SA.AddressOfFrame(la57, g);
    SA.AddressOfFrame(la57, f);
  }

  lemma {:induction false} FreeSmallStep(la57: bool, l: Live, i: int, p: int, h': Heap)
    requires LiveOk(la57, l) && Allowed(la57, l, FreeBlock(Small(i, p))) && Does(la57, l, FreeBlock(Small(i, p)), h')
    ensures LiveOk(la57, LiveAfter(la57, l, FreeBlock(Small(i, p)), h'))
  {
    hide SlabOk, SA.PageAddress, SizeOf, Wrap32, Free, RangeIs, Member, Base, Apart, SlabPages, PagesOk, Ranged,
         IndexAt;
    SmallFreed(la57, l.h, SlabPages(la57, l.frames), l.outs, i, p);
    var h1 := ReleasedHeap(la57, l.h, p + HEADER);
    HeadersKept(la57, l.h, p + HEADER);
    forall g | g in l.bigs ensures BigOk(la57, h', g, l.bigs[g]) { assert BigOk(la57, l.h, g, l.bigs[g]); }
  }

  lemma {:induction false} HeadersKept(la57: bool, h: Heap, ptr: int)
    requires MayRelease(la57, h, ptr)
    ensures ReleasedHeap(la57, h, ptr).headers == h.headers
  {
    hide IndexAt, Free, Wrap32, SetRange;
  }

  lemma {:induction false} FreeBigStep(la57: bool, l: Live, f: int, h': Heap)
    requires LiveOk(la57, l) && Allowed(la57, l, FreeBlock(Pages(f))) && Does(la57, l, FreeBlock(Pages(f)), h')
    ensures LiveOk(la57, LiveAfter(la57, l, FreeBlock(Pages(f)), h'))
  {
    hide SlabsOk, SA.PageAddress, Shaped, Wrap32, IndexAt, Free;
    assert BigOk(la57, l.h, f, l.bigs[f]);
    SA.AddressOfFrame(la57, f);
    WholeNext(SA.PageAddress(la57, f));
    PageIndex(la57, f);
    forall g | g in l.bigs && g != f ensures BigOk(la57, h', g, l.bigs[g]) {
      assert BigOk(la57, l.h, g, l.bigs[g]) && Apart(f, l.bigs[f], g, l.bigs[g]);
    }
    forall k | 0 <= k < 6 ensures h'.s.used[l.frames[k]] { assert Apart(f, l.bigs[f], l.frames[k], 1); }
  }

  lemma {:induction false} ShapedHeap(la57: bool, l: Live)
    requires LiveOk(la57, l)
    ensures HeapShaped(l.h)
  {
    hide SlabsOk, BigOk, Apart, Shaped;
  }

  lemma {:induction false} FreedKept(la57: bool, l: Live, l': Live, reserved: set<int>, f: int)
    requires Kept(l, reserved) && f in l.bigs && l'.frames == l.frames && l'.bigs == l.bigs - {f}
    requires |l'.h.s.used| == |l.h.s.used|
    requires forall p :: 0 <= p < |l.h.s.used| ==> (l'.h.s.used[p] <==> l.h.s.used[p] && !(f <= p < f + l.bigs[f]))
    ensures Kept(l', reserved)
  {
    forall p | 0 <= p < |l'.h.s.used| && l'.h.s.used[p] ensures p in reserved || InHeap(l', p) {
      if p !in reserved && p !in l.frames {
        var g :| g in l.bigs && g <= p < g + l.bigs[g];
        assert g in l'.bigs && l'.bigs[g] == l.bigs[g];
      }
    }
    forall p | p in reserved ensures 0 <= p < |l'.h.s.used| && l'.h.s.used[p] && !InHeap(l', p) {
      assert f <= p < f + l.bigs[f] ==> InHeap(l, p);
      HeapWithout(l, l', f, p);
    }
  }

  lemma {:induction false} HeapWithout(l: Live, l': Live, f: int, p: int)
    requires l'.frames == l.frames && l'.bigs == l.bigs - {f}
    ensures InHeap(l', p) ==> InHeap(l, p)
  {
    if InHeap(l', p) && p !in l'.frames {
      var g :| g in l'.bigs && g <= p < g + l'.bigs[g];
      assert g in l.bigs && l.bigs[g] == l'.bigs[g];
    }
  }

  /** A step keeps the heap sound, whichever allocator serves it, exactly if it is served only clear pages. */
  lemma {:induction false} StepKeeps(la57: bool, l: Live, reserved: set<int>, c: Call, h': Heap)
    requires Sound(la57, l, reserved) && Allowed(la57, l, c) && Does(la57, l, c, h')
    ensures Sound(la57, LiveAfter(la57, l, c, h'), reserved) <==> PagesClear(la57, l, c)
  {
    hide LiveOk, Allocates, LiveAfter, NextPower, HeapShaped, Kept;
    ShapedHeap(la57, l);
    match c {
      case Malloc(size, r) =>
        if Big(size) {
          BigStep(la57, l, reserved, size, h', r);
        } else {
          SmallStep(la57, l, size, h', r);
          SmallKept(la57, l, reserved, size, h', r);
        }
      case FreeBlock(Small(i, p)) =>
        FreeSmallStep(la57, l, i, p, h');
        FreeSmallKept(la57, l, reserved, i, p, h');
      case FreeBlock(Pages(f)) =>
        FreeBigStep(la57, l, f, h');
        FreeBigKept(la57, l, reserved, f, h');
    }
  }

  lemma {:induction false} SmallKept(la57: bool, l: Live, reserved: set<int>, size: int, h': Heap, r: Outcome)
    requires Kept(l, reserved) && Allowed(la57, l, Malloc(size, r)) && !Big(size) && Allocates(la57, l.h, size, h', r)
    ensures Kept(LiveAfter(la57, l, Malloc(size, r), h'), reserved)
  {
    hide Kept, NextPower, Alloc, OutAfter, Shaped;
    SameLive(l, LiveAfter(la57, l, Malloc(size, r), h'), reserved);
  }

  lemma {:induction false} FreeSmallKept(la57: bool, l: Live, reserved: set<int>, i: int, p: int, h': Heap)
    requires Sound(la57, l, reserved) && Allowed(la57, l, FreeBlock(Small(i, p)))
    requires Does(la57, l, FreeBlock(Small(i, p)), h')
    ensures Kept(LiveAfter(la57, l, FreeBlock(Small(i, p)), h'), reserved)
  {
    hide Kept, SlabOk, SA.PageAddress, SizeOf, Wrap32, Free, RangeIs, Member, Base, Apart, SlabPages, PagesOk, Ranged,
         IndexAt;
    SmallFreed(la57, l.h, SlabPages(la57, l.frames), l.outs, i, p);
    SameLive(l, LiveAfter(la57, l, FreeBlock(Small(i, p)), h'), reserved);
  }

  lemma {:induction false} FreeBigKept(la57: bool, l: Live, reserved: set<int>, f: int, h': Heap)
    requires Sound(la57, l, reserved) && Allowed(la57, l, FreeBlock(Pages(f))) && Does(la57, l, FreeBlock(Pages(f)), h')
    ensures Kept(LiveAfter(la57, l, FreeBlock(Pages(f)), h'), reserved)
  {
    hide Kept, SlabsOk, SA.PageAddress, Shaped, Wrap32, IndexAt, Free, Apart;
    assert BigOk(la57, l.h, f, l.bigs[f]);
    SA.AddressOfFrame(la57, f);
    WholeNext(SA.PageAddress(la57, f));
    PageIndex(la57, f);
    FreedKept(la57, l, LiveAfter(la57, l, FreeBlock(Pages(f)), h'), reserved, f);
  }

  // --------------------------------------------------------------- what is returned

  /** b is a block of l' that l did not have, and the only one: no other came, went, moved or changed its size. */
  ghost predicate OneMore(l: Live, l': Live, b: Block) {
    && IsLive(l', b) && !IsLive(l, b)
    && (forall a {:trigger IsLive(l', a)} {:trigger IsLive(l, a)} :: IsLive(l', a) <==> IsLive(l, a) || a == b)
    && forall a {:trigger IsLive(l, a)} :: IsLive(l, a) && IsLive(l', a) ==> Length(l', a) == Length(l, a)
  }

  /** ptr points behind the header of b, 8 bytes before it in a slab object and a page before it in a block of pages;
      the header is there, and size bytes from ptr on lie in the block. */
  ghost predicate PointsInto(la57: bool, l: Live, b: Block, ptr: int, size: int)
    requires IsLive(l, b)
  {
    && ptr == PayloadOf(la57, b) && ptr == Begin(la57, b) + (if b.Small? then 8 else 4096)
    && ptr + size <= Begin(la57, b) + Length(l, b)
    && Begin(la57, b) in l.h.headers && l.h.headers[Begin(la57, b)] >= size
  }

  /** A call of kmalloc that is served makes one block live that was not, and returns a pointer to its payload, with
      room for all the bytes asked for. */
  lemma {:induction false} ServedBlock(la57: bool, l: Live, size: int, ptr: int, h': Heap) returns (b: Block)
    requires LiveOk(la57, l) && Allowed(la57, l, Malloc(size, Pointer(ptr)))
    requires Does(la57, l, Malloc(size, Pointer(ptr)), h')
    ensures var l' := LiveAfter(la57, l, Malloc(size, Pointer(ptr)), h');
            OneMore(l, l', b) && PointsInto(la57, l', b, ptr, size)
  {
    hide LiveOk, Allocates, LiveAfter, OneMore, PointsInto, NextPower, Shaped;
    if Big(size) {
      b := ServedPages(la57, l, size, ptr, h');
    } else {
      b := ServedObject(la57, l, size, ptr, h');
    }
  }

  lemma {:induction false} ServedPages(la57: bool, l: Live, size: int, ptr: int, h': Heap) returns (b: Block)
    requires LiveOk(la57, l) && Allowed(la57, l, Malloc(size, Pointer(ptr))) && Big(size)
    requires Allocates(la57, l.h, size, h', Pointer(ptr))
    ensures var l' := LiveAfter(la57, l, Malloc(size, Pointer(ptr)), h');
            OneMore(l, l', b) && PointsInto(la57, l', b, ptr, size)
  {
    hide SlabsOk, NextPower, Served, SA.PageAddress, Shaped, Taken, Alloc, RangeIs, Apart, SizeOf;
    var f := Served(l.h.s, PagesOf(NextPower(size)));
    b := Pages(f);
    ServedClear(l.h.s, PagesOf(NextPower(size)));
    SizeCases(size);
    PowerClass(size);
    if f in l.bigs {
      assert BigOk(la57, l.h, f, l.bigs[f]);
      RangeAt(l.h.s.used, f, l.bigs[f], true, f);
    }
  }

  lemma {:induction false} ServedObject(la57: bool, l: Live, size: int, ptr: int, h': Heap) returns (b: Block)
    requires LiveOk(la57, l) && Allowed(la57, l, Malloc(size, Pointer(ptr))) && !Big(size)
    requires Allocates(la57, l.h, size, h', Pointer(ptr))
    ensures var l' := LiveAfter(la57, l, Malloc(size, Pointer(ptr)), h');
            OneMore(l, l', b) && PointsInto(la57, l', b, ptr, size)
  {
    hide LiveOk, NextPower, SA.PageAddress, Shaped, Alloc, SizeOf, OneMore;
    var i, p := IndexOf(NextPower(size + HEADER), SLAB_COUNT), Alloc(l.h.ss, NextPower(size + HEADER)).1;
    ObjectHanded(la57, l, size);
    ObjectRoom(size, i);
    b := Small(i, p);
    ObjectAdded(l, LiveAfter(la57, l, Malloc(size, Pointer(ptr)), h'), i, p);
  }

  lemma {:induction false} ObjectHanded(la57: bool, l: Live, size: int)
    requires LiveOk(la57, l)
    ensures HeapShaped(l.h) && |l.outs| == SLAB_COUNT
    ensures var i, p := IndexOf(NextPower(size + HEADER), SLAB_COUNT), Alloc(l.h.ss, NextPower(size + HEADER)).1;
            p != NULL ==> i >= 0 && p !in l.outs[i]
  {
    hide SlabsOk, NextPower, SA.PageAddress, Shaped, Alloc, BigOk, Member, Base, Apart, SlabPages, SizeOf, IndexOf;
    SlabPagesOk(la57, l);
    AllocKeeps(l.h.ss, SlabPages(la57, l.frames), l.outs, NextPower(size + HEADER));
  }

  lemma {:induction false} ObjectRoom(size: int, i: int)
    requires 0 <= size <= 0x8000_0000_0000_0000 && !Big(size) && i == IndexOf(NextPower(size + HEADER), SLAB_COUNT)
    ensures i >= 0 ==> SizeOf(i) == NextPower(size + HEADER) >= size + HEADER
  {
    hide NextPower, SizeOf;
    SizeCases(size);
    PowerClass(size + HEADER);
  }

  lemma {:induction false} ObjectAdded(l: Live, l': Live, i: int, p: int)
    requires |l.outs| == SLAB_COUNT && 0 <= i < SLAB_COUNT && p !in l.outs[i]
    requires l'.outs == l.outs[i := l.outs[i] + {p}] && l'.bigs == l.bigs
    ensures OneMore(l, l', Small(i, p))
  {
    hide SizeOf;
    forall a ensures IsLive(l', a) <==> IsLive(l, a) || a == Small(i, p) { LiveObject(l, l', i, p, a); }
  }

  lemma {:induction false} LiveObject(l: Live, l': Live, i: int, p: int, a: Block)
    requires |l.outs| == SLAB_COUNT && 0 <= i < SLAB_COUNT
    requires l'.outs == l.outs[i := l.outs[i] + {p}] && l'.bigs == l.bigs
    ensures IsLive(l', a) <==> IsLive(l, a) || a == Small(i, p)
  {
  }

  /** A call of kmalloc that is not served leaves the live blocks as they were. */
  lemma {:induction false} RefusedCall(la57: bool, l: Live, size: int, h': Heap)
    requires LiveOk(la57, l) && Allowed(la57, l, Malloc(size, Fault)) && Does(la57, l, Malloc(size, Fault), h')
    ensures var l' := LiveAfter(la57, l, Malloc(size, Fault), h');
            l'.outs == l.outs && l'.bigs == l.bigs && l'.frames == l.frames && h'.headers == l.h.headers
  {
    hide SlabsOk, NextPower, SA.PageAddress, Shaped, Wrap32, Alloc, BigOk, Served, Taken, Apart, SizeOf;
  }

  // ------------------------------------------------------------------------ runs

  /** The pages in use. */
  ghost function UsedPages(s: Frames): set<int> {
    set p: int | 0 <= p < |s.used| && s.used[p]
  }

  /** The heap after slab_init took six pages from s0, with nothing allocated. */
  ghost function Start(s0: Frames, ss: seq<Slab>, headers: Headers): Live
    requires CanServe(s0, 6)
  {
    Live(Heap(SA.TakenTimes(s0, 6), ss, headers), SA.FrameList(s0, 6), seq(SLAB_COUNT, k => {}), map[])
  }

  /** It is sound, all pages that were in use before being reserved. */
  lemma {:induction false} SoundStart(la57: bool, s0: Frames, ss: seq<Slab>, headers: Headers)
    requires CanServe(s0, 6) && |s0.used| <= 0x8000_0000 && Fresh(ss, SA.PageList(la57, s0, 6))
    ensures Sound(la57, Start(s0, ss, headers), UsedPages(s0))
  {
    hide CanServe, SA.TakenTimes, SA.FrameList, SlabOk, FreshObjects, SizeOf, PagesOk, Base, Ranged, SA.PageAddress;
    SA.FramesUsed(s0, 6);
    SA.OnlyFramesUsed(s0, 6);
    SA.FramesDistinct(s0, 6);
    FreshOk(ss, SA.PageList(la57, s0, 6));
    assert SlabPages(la57, SA.FrameList(s0, 6)) == SA.PageList(la57, s0, 6);
  }

  /** A run: the states of live blocks, each got from the one before by an allowed call. */
  ghost predicate IsRun(la57: bool, ls: seq<Live>, cs: seq<Call>) {
    |ls| == |cs| + 1
    && forall k {:trigger cs[k]} :: 0 <= k < |cs| ==>
         Allowed(la57, ls[k], cs[k]) && Does(la57, ls[k], cs[k], ls[k + 1].h)
         && ls[k + 1] == LiveAfter(la57, ls[k], cs[k], ls[k + 1].h)
  }

  /** The first n calls of a run are served only clear pages. */
  ghost predicate AllClear(la57: bool, ls: seq<Live>, cs: seq<Call>, n: nat)
    requires IsRun(la57, ls, cs) && n <= |cs|
  {
    forall k {:trigger cs[k]} :: 0 <= k < n ==> PagesClear(la57, ls[k], cs[k])
  }

  /** A run of kmalloc and kfree from a sound heap stays sound up to, and not beyond, the first call that is served
      a page in use. */
  lemma {:induction false} RunSound(la57: bool, ls: seq<Live>, cs: seq<Call>, reserved: set<int>, n: nat)
    requires IsRun(la57, ls, cs) && Sound(la57, ls[0], reserved) && n <= |cs|
    ensures (forall k {:trigger ls[k]} :: 0 <= k <= n ==> Sound(la57, ls[k], reserved)) <==> AllClear(la57, ls, cs, n)
  {
    hide Sound, Does, LiveAfter, PagesClear, Allowed;
    if n > 0 {
      RunSound(la57, ls, cs, reserved, n - 1);
      if Sound(la57, ls[n - 1], reserved) {
        var c := cs[n - 1];
        StepKeeps(la57, ls[n - 1], reserved, c, ls[n].h);
      } else {
        assert !AllClear(la57, ls, cs, n - 1);
      }
    }
  }

  /** In such a run no two live blocks ever overlap. */
  lemma {:induction false} RunApart(la57: bool, ls: seq<Live>, cs: seq<Call>, reserved: set<int>, n: nat, a: Block,
                                    b: Block)
    requires IsRun(la57, ls, cs) && Sound(la57, ls[0], reserved) && n <= |cs| && AllClear(la57, ls, cs, n)
    ensures Sound(la57, ls[n], reserved)
    ensures IsLive(ls[n], a) && IsLive(ls[n], b) && a != b ==>
              Begin(la57, a) + Length(ls[n], a) <= Begin(la57, b) || Begin(la57, b) + Length(ls[n], b) <= Begin(la57, a)
  {
    hide LiveOk, Kept, Does, LiveAfter, IsLive, Length, Begin, AllClear;
    RunSound(la57, ls, cs, reserved, n);
    if IsLive(ls[n], a) && IsLive(ls[n], b) && a != b { LiveApart(la57, ls[n], a, b); }
  }

  /** In such a run each pointer kmalloc returns is to a block that was not live before, and the bytes asked for, from
      it on, belong to no other live block. */
  lemma {:induction false} ReturnedApart(la57: bool, ls: seq<Live>, cs: seq<Call>, reserved: set<int>, k: nat,
                                         size: int, ptr: int)
      returns (b: Block)
    requires IsRun(la57, ls, cs) && Sound(la57, ls[0], reserved) && k < |cs| && AllClear(la57, ls, cs, k + 1)
    requires cs[k] == Malloc(size, Pointer(ptr))
    ensures OneMore(ls[k], ls[k + 1], b) && PointsInto(la57, ls[k + 1], b, ptr, size)
    ensures forall a :: IsLive(ls[k + 1], a) && a != b ==>
              Begin(la57, a) + Length(ls[k + 1], a) <= ptr || ptr + size <= Begin(la57, a)
  {
    hide LiveOk, Kept, Does, LiveAfter, AllClear, Allowed, Length, Begin, OneMore, PointsInto, PayloadOf, IsLive;
    RunSound(la57, ls, cs, reserved, k + 1);
    ClearSooner(la57, ls, cs, k);
    RunSound(la57, ls, cs, reserved, k);
    b := ServedBlock(la57, ls[k], size, ptr, ls[k + 1].h);
    OneMoreLive(ls[k], ls[k + 1], b);
    Within(la57, ls[k + 1], b, ptr, size);
    forall a | IsLive(ls[k + 1], a) && a != b
      ensures Begin(la57, a) + Length(ls[k + 1], a) <= ptr || ptr + size <= Begin(la57, a)
    {
      LiveApart(la57, ls[k + 1], a, b);
    }
  }

  lemma {:induction false} ClearSooner(la57: bool, ls: seq<Live>, cs: seq<Call>, k: nat)
    requires IsRun(la57, ls, cs) && k < |cs| && AllClear(la57, ls, cs, k + 1)
    ensures AllClear(la57, ls, cs, k)
  {
    hide PagesClear, Does, LiveAfter, Allowed;
  }

  lemma {:induction false} OneMoreLive(l: Live, l': Live, b: Block)
    requires OneMore(l, l', b)
    ensures IsLive(l', b)
  {
  }

  lemma {:induction false} Within(la57: bool, l: Live, b: Block, ptr: int, size: int)
    requires IsLive(l, b) && PointsInto(la57, l, b, ptr, size)
    ensures Begin(la57, b) <= ptr && ptr + size <= Begin(la57, b) + Length(l, b)
  {
    hide SA.PageAddress, SizeOf;
  }

  /** The block has bytes in page p. */
  ghost predicate InPage(l: Live, b: Block, p: int)
    requires |l.frames| == 6 && IsLive(l, b)
  {
    match b
    case Small(i, _) => p == l.frames[i / 2]
    case Pages(f) => f <= p < f + l.bigs[f]
  }

  /** What is allocated after slab_init lies in pages that were clear before it, whatever they held. */
  lemma {:induction false} NeverReserved(la57: bool, s0: Frames, ss: seq<Slab>, headers: Headers, ls: seq<Live>,
                                         cs: seq<Call>, n: nat, b: Block, p: int)
    requires CanServe(s0, 6) && |s0.used| <= 0x8000_0000 && Fresh(ss, SA.PageList(la57, s0, 6))
    requires IsRun(la57, ls, cs) && ls[0] == Start(s0, ss, headers) && n <= |cs| && AllClear(la57, ls, cs, n)
    requires |ls[n].frames| == 6 && IsLive(ls[n], b) && InPage(ls[n], b, p)
    ensures 0 <= p < |s0.used| && !s0.used[p]
  {
    hide LiveOk, Kept, IsRun, AllClear, CanServe, Fresh, UsedPages, InPage;
    RunLength(la57, ls, cs);
    SoundStart(la57, s0, ss, headers);
    SoundAt(la57, ls, cs, UsedPages(s0), n);
    BlockNotReserved(la57, ls[n], UsedPages(s0), b, p);
    SizeKept(la57, ls, cs, n);
    SA.FramesUsed(s0, 6);
    NotUsed(s0, p);
  }

  /** After pmm_init that is usable memory, not page 0 and not the bitmap, whatever else took pages in between. */
  lemma {:induction false} LiveUsable(la57: bool, es: seq<Pmm.Entry>, s: Frames, s0: Frames, ss: seq<Slab>,
                                      headers: Headers, ls: seq<Live>, cs: seq<Call>, n: nat, b: Block, p: int)
    requires Pmm.Started(s, es) && |s0.used| == |s.used|
    requires forall q :: 0 <= q < |s.used| && s.used[q] ==> s0.used[q]
    requires CanServe(s0, 6) && |s0.used| <= 0x8000_0000 && Fresh(ss, SA.PageList(la57, s0, 6))
    requires IsRun(la57, ls, cs) && ls[0] == Start(s0, ss, headers) && n <= |cs| && AllClear(la57, ls, cs, n)
    requires |ls[n].frames| == 6 && IsLive(ls[n], b) && InPage(ls[n], b, p)
    ensures p != 0 && Pmm.Usable(es, |es|, p) && !Pmm.InStorage(es, p)
  {
    hide IsRun, AllClear, CanServe, Fresh, Pmm.MapOk, Pmm.Usable, Pmm.InStorage, InPage, Pmm.TopOf, Pmm.BitmapSize,
         Pmm.CarvedMap, Pmm.UsablePages;
    NeverReserved(la57, s0, ss, headers, ls, cs, n, b, p);
  }

  lemma {:induction false} SoundAt(la57: bool, ls: seq<Live>, cs: seq<Call>, reserved: set<int>, n: nat)
    requires IsRun(la57, ls, cs) && Sound(la57, ls[0], reserved) && n <= |cs| && AllClear(la57, ls, cs, n)
    ensures Sound(la57, ls[n], reserved)
  {
    hide Sound, Does, LiveAfter, PagesClear, Allowed, AllClear;
    RunSound(la57, ls, cs, reserved, n);
  }

  lemma {:induction false} RunLength(la57: bool, ls: seq<Live>, cs: seq<Call>)
    requires IsRun(la57, ls, cs)
    ensures |ls| == |cs| + 1
  {
  }

  /** No call changes the number of pages. */
  lemma {:induction false} SizeKept(la57: bool, ls: seq<Live>, cs: seq<Call>, n: nat)
    requires IsRun(la57, ls, cs) && n <= |cs|
    ensures |ls[n].h.s.used| == |ls[0].h.s.used|
  {
    hide LiveAfter, Allowed, IndexAt, Free, NextPower, Alloc, Served, SetRange, Wrap32;
    if n > 0 {
      SizeKept(la57, ls, cs, n - 1);
      var c := cs[n - 1];
    }
  }

  lemma {:induction false} NotUsed(s: Frames, p: int)
    requires 0 <= p < |s.used| && p !in UsedPages(s)
    ensures !s.used[p]
  {
  }

  /** The pages of a live block are the heap's, so not reserved. */
  lemma {:induction false} BlockNotReserved(la57: bool, l: Live, reserved: set<int>, b: Block, p: int)
    requires Sound(la57, l, reserved) && IsLive(l, b) && |l.frames| == 6 && InPage(l, b, p)
    ensures p !in reserved && 0 <= p < |l.h.s.used|
  {
    hide SlabsOk, HeapShaped, SA.PageAddress, Apart, RangeIs;
    match b {
      case Small(i, _) => assert l.frames[i / 2] in l.frames && InHeap(l, p);
      case Pages(f) => assert BigOk(la57, l.h, f, l.bigs[f]) && InHeap(l, p);
    }
  }
}
