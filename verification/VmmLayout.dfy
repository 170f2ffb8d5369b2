/**
 Where vmm_init maps memory: three regions of consecutive pages, the indices that select their
 pages, and how many tables the first n pages of a region need.
 */
module VmmLayout {
  import opened Addresses
  import opened PageTables
  import opened VirtualAddresses

  const IDENTITY: int := 0
  const HIGHER_HALF: int := 1
  const CODE: int := 2

  predicate IsRegion(r: int) { 0 <= r < 3 }

  /** Pages in a region: 4 GiB, 4 GiB, 2 GiB. */
  function Size(r: int): nat {
    if r == CODE then 0x80000 else 0x100000
  }

  /** The virtual address page n of a region is mapped at. */
  function VaOf(la57: bool, r: int, n: nat): (va: nat)
  {
    if r == IDENTITY then PAGE_SIZE * n
    else if r == HIGHER_HALF then PhysToHigherHalfData(la57, PAGE_SIZE * n)
    else PhysToHigherHalfCode(PAGE_SIZE * n)
  }

  /** Present, and writable except in the code region. */
  function FlagsFor(r: int): int {
    if r == CODE then 1 else 3
  }

  /** The indices that select page n of a region. */
  function PathIn(la57: bool, r: int, n: nat): (q: Path)
    ensures |q| == Levels(la57) && PathOk(q)
  {
    PathOf(la57, VaOf(la57, r, n))
  }

  /** The top-level index of all pages of a region. */
  function Top(r: int): int {
    if r == IDENTITY then 0 else if r == HIGHER_HALF then 256 else 511
  }

  /** The page number of page n, without the bits above the top-level index. */
  function Slot(la57: bool, r: int, n: nat): int {
    (if r == IDENTITY then 0
     else if r == HIGHER_HALF then (if la57 then 0x1000_0000_0000 else 0x8_0000_0000)
     else (if la57 then 0x2000_0000_0000 else 0x10_0000_0000) - 0x80000) + n
  }

  lemma {:induction false} PathPeriod(page: int, levels: nat, k: int)
    ensures PathOfPage(page + Pages(levels) * k, levels) == PathOfPage(page, levels)
    decreases levels
  {
    if levels > 0 {
      var m := Pages(levels - 1) * k;
      Reassociate(Pages(levels - 1), k);
      AddHigh(page, m);
      PathPeriod(page / 512, levels - 1, k);
    }
  }

  lemma {:induction false} Reassociate(p: int, k: int)
    ensures 512 * p * k == 512 * (p * k)
  {
  }

  lemma {:induction false} AddHigh(v: int, m: int)
    ensures (v + 512 * m) / 512 == v / 512 + m && (v + 512 * m) % 512 == v % 512
  {
  }

  lemma {:induction false} PagesAre()
    ensures Pages(4) == 0x10_0000_0000 && Pages(5) == 0x2000_0000_0000
  {
    assert Pages(1) == 512 * Pages(0);
    assert Pages(2) == 512 * Pages(1);
    assert Pages(3) == 512 * Pages(2);
    assert Pages(4) == 512 * Pages(3);
    assert Pages(5) == 512 * Pages(4);
  }

  lemma {:induction false} VaIs(la57: bool, r: int, n: nat)
    requires IsRegion(r) && n < Size(r)
    ensures VaOf(la57, r, n) / 4096
         == Slot(la57, r, n) + (if r == IDENTITY then 0 else if la57 then 0x2000_0000_0000 * 127
                                else 0x10_0000_0000 * 0xFFFF)
  {
    if r == HIGHER_HALF {
      NoWrap(HalfData(la57) + PAGE_SIZE * n);
    } else if r == CODE {
      NoWrap(HALF_CODE + PAGE_SIZE * n);
    }
  }

  lemma {:induction false} PathIsSlot(la57: bool, r: int, n: nat)
    requires IsRegion(r) && n < Size(r)
    ensures PathIn(la57, r, n) == PathOfPage(Slot(la57, r, n), Levels(la57))
    ensures 0 <= Slot(la57, r, n) < Pages(Levels(la57))
  {
    hide VaOf, Pages, PathOfPage;
    VaIs(la57, r, n);
    PagesAre();
    if r != IDENTITY {
      PathPeriod(Slot(la57, r, n), Levels(la57), if la57 then 127 else 0xFFFF);
    }
  }

  /** The groups of nine bits above the last two: the same for all pages of a region. */
  function High(la57: bool, r: int): int {
    if r == IDENTITY then 0
    else if r == HIGHER_HALF then (if la57 then 0x2_0000 else 0x100)
    else (if la57 then 0x4_0000 else 0x200) - 1
  }

  lemma {:induction false} SlotParts(la57: bool, r: int, n: nat)
    requires IsRegion(r) && n < Size(r)
    ensures Slot(la57, r, n) / 512 == Slot(la57, r, 0) / 512 + n / 512
    ensures Slot(la57, r, n) / 512 / 512 == Slot(la57, r, 0) / 512 / 512 + n / 0x40000
    ensures Slot(la57, r, n) / 512 / 512 / 512 == High(la57, r)
  {
    hide Slot, High, Size;
    var base := SlotBase(la57, r, n);
    var h, m, l := Groups(n);
    GroupOf(0x40000 * base + n, base + h, m, l);
    GroupOf(0x40000 * base, base, 0, 0);
    TopGroup(la57, r, n, base, h);
  }

  lemma {:induction false} SlotBase(la57: bool, r: int, n: nat) returns (base: nat)
    requires IsRegion(r)
    ensures Slot(la57, r, 0) == 0x40000 * base && Slot(la57, r, n) == 0x40000 * base + n
  {
    base := Slot(la57, r, 0) / 0x40000;
  }

  lemma {:induction false} TopGroup(la57: bool, r: int, n: nat, base: int, h: int)
    requires IsRegion(r) && n < Size(r) && Slot(la57, r, 0) == 0x40000 * base && h == n / 0x40000
    ensures (base + h) / 512 == High(la57, r)
  {
  }

  /** A number of pages by groups of nine bits. */
  lemma {:induction false} Groups(n: nat) returns (h: nat, m: nat, l: nat)
    ensures n == 0x40000 * h + 512 * m + l && m < 512 && l < 512 && h == n / 0x40000 && 512 * h + m == n / 512
  {
    h, m, l := n / 0x40000, n / 512 % 512, n % 512;
    assert n == 512 * (n / 512) + l;
    assert n / 512 == 512 * (n / 512 / 512) + m;
    GroupOf(n, n / 512 / 512, m, l);
    assert h == n / 512 / 512;
  }

  lemma {:induction false} GroupOf(v: int, h: int, m: int, l: int)
    requires v == 0x40000 * h + 512 * m + l && 0 <= m < 512 && 0 <= l < 512
    ensures v / 512 == 512 * h + m && v / 512 / 512 == h
  {
    Group(512 * h + m, l);
    Group(h, m);
  }

  lemma {:induction false} TopIs(la57: bool, r: int, n: nat)
    requires IsRegion(r) && n < Size(r)
    ensures PathIn(la57, r, n)[0] == Top(r)
  {
    hide PathIn, Slot, Pages, PathOfPage;
    PathIsSlot(la57, r, n);
    SlotParts(la57, r, n);
    var s := Slot(la57, r, n);
    TopIndex(s, Levels(la57));
    AboveThree(s, Levels(la57) - 1);
    AboveOne(High(la57, r));
    SmallTop(la57, r);
  }

  lemma {:induction false} AboveThree(s: int, k: nat)
    requires k >= 3
    ensures Above(s, k) == Above(s / 512 / 512 / 512, k - 3)
  {
    assert Above(s, k) == Above(s / 512, k - 1);
    assert Above(s / 512, k - 1) == Above(s / 512 / 512, k - 2);
    assert Above(s / 512 / 512, k - 2) == Above(s / 512 / 512 / 512, k - 3);
  }

  lemma {:induction false} AboveOne(h: int)
    ensures Above(h, 0) == h && Above(h, 1) == h / 512
  {
    assert Above(h / 512, 0) == h / 512;
  }

  lemma {:induction false} SmallTop(la57: bool, r: int)
    requires IsRegion(r)
    ensures (if la57 then High(la57, r) / 512 else High(la57, r)) == Top(r)
  {
  }

  /** Shortened by k indices, the path of a page is the path of a group of pages. */
  lemma {:induction false} ShortPath(page: int, levels: nat, k: nat)
    requires k <= levels
    ensures PathOfPage(page, levels)[..levels - k] == PathOfPage(Above(page, k), levels - k)
    decreases k
  {
    if k == 0 {
      assert PathOfPage(page, levels)[..levels] == PathOfPage(page, levels);
    } else {
      var q := PathOfPage(page, levels);
      ShortPath(page / 512, levels - 1, k - 1);
      assert q[..levels - 1] == PathOfPage(page / 512, levels - 1);
      assert q[..levels - 1][..levels - k] == q[..levels - k];
    }
  }

  lemma {:induction false} AboveTwo(s: int)
    ensures Above(s, 1) == s / 512 && Above(s, 2) == s / 512 / 512 && Above(s, 3) == s / 512 / 512 / 512
  {
    AboveOne(s);
    AboveOne(s / 512);
    AboveOne(s / 512 / 512);
    assert Above(s, 2) == Above(s / 512, 1);
    assert Above(s, 3) == Above(s / 512, 2) == Above(s / 512 / 512, 1);
  }

  /** How far two pages of a region share their tables: the last one, the last but one, and all above. */
  lemma {:induction false} Shared(la57: bool, r: int, m: nat, n: nat)
    requires IsRegion(r) && m < Size(r) && n < Size(r)
    ensures var p, q, l := PathIn(la57, r, m), PathIn(la57, r, n), Levels(la57);
            (p[..l - 1] == q[..l - 1] <==> m / 512 == n / 512)
            && (p[..l - 2] == q[..l - 2] <==> m / 0x40000 == n / 0x40000)
            && p[..l - 3] == q[..l - 3]
            && (p == q <==> m == n)
  {
    hide PathIn, Slot, Pages, PathOfPage, Above, High;
    var s, t, l := Slot(la57, r, m), Slot(la57, r, n), Levels(la57);
    SlotsAre(la57, r, m);
    SlotsAre(la57, r, n);
    SameSlots(s, t, l);
  }

  lemma {:induction false} SlotsAre(la57: bool, r: int, n: nat)
    requires IsRegion(r) && n < Size(r)
    ensures var s := Slot(la57, r, n);
            s == Slot(la57, r, 0) + n && s / 512 == Slot(la57, r, 0) / 512 + n / 512
            && s / 512 / 512 == Slot(la57, r, 0) / 512 / 512 + n / 0x40000 && s / 512 / 512 / 512 == High(la57, r)
            && PathIn(la57, r, n) == PathOfPage(s, Levels(la57)) && 0 <= s < Pages(Levels(la57))
  {
    hide High, Pages, PathOfPage, PathIn;
    SlotParts(la57, r, n);
    PathIsSlot(la57, r, n);
  }

  lemma {:induction false} SameSlots(s: int, t: int, l: nat)
    requires 0 <= s < Pages(l) && 0 <= t < Pages(l) && l >= 4 && s / 512 / 512 / 512 == t / 512 / 512 / 512
    ensures var p, q := PathOfPage(s, l), PathOfPage(t, l);
            (p[..l - 1] == q[..l - 1] <==> s / 512 == t / 512)
            && (p[..l - 2] == q[..l - 2] <==> s / 512 / 512 == t / 512 / 512)
            && p[..l - 3] == q[..l - 3]
            && (p == q <==> s == t)
  {
    hide PathOfPage, Above, Pages;
    AboveTwo(s);
    AboveTwo(t);
    ShortPath(s, l, 1);
    ShortPath(t, l, 1);
    ShortPath(s, l, 2);
    ShortPath(t, l, 2);
    ShortPath(s, l, 3);
    ShortPath(t, l, 3);
    PagesDown(s, l);
    PagesDown(t, l);
    if PathOfPage(s, l) == PathOfPage(t, l) { PathsDiffer(s, t, l); }
    if PathOfPage(s / 512, l - 1) == PathOfPage(t / 512, l - 1) { PathsDiffer(s / 512, t / 512, l - 1); }
    if PathOfPage(s / 512 / 512, l - 2) == PathOfPage(t / 512 / 512, l - 2) {
      PathsDiffer(s / 512 / 512, t / 512 / 512, l - 2);
    }
  }

  lemma {:induction false} PagesDown(s: int, l: nat)
    requires 0 <= s < Pages(l) && l >= 2
    ensures 0 <= s / 512 < Pages(l - 1) && 0 <= s / 512 / 512 < Pages(l - 2)
  {
    assert Pages(l) == 512 * Pages(l - 1) && Pages(l - 1) == 512 * Pages(l - 2);
    hide Pages;
    Down(s, Pages(l - 1));
    Down(s / 512, Pages(l - 2));
  }

  lemma {:induction false} Down(s: int, n: int)
    requires 0 <= s < 512 * n
    ensures 0 <= s / 512 < n
  {
  }

  // ------------------------------------------------------------- counting tables

  /** The tables the first n pages of a region take, on top of the root. */
  function Cost(la57: bool, n: nat): nat {
    if n == 0 then 0 else (Levels(la57) - 3) + ((n - 1) / 0x40000 + 1) + ((n - 1) / 512 + 1)
  }

  /** The tables page n adds. */
  function Adds(la57: bool, n: nat): nat {
    if n == 0 then Levels(la57) - 1 else if n % 0x40000 == 0 then 2 else if n % 512 == 0 then 1 else 0
  }

  lemma {:induction false} CostStep(la57: bool, n: nat)
    ensures Cost(la57, n + 1) == Cost(la57, n) + Adds(la57, n)
  {
    if n > 0 {
      DivStep(n);
    }
  }

  lemma {:induction false} DivStep(n: nat)
    requires n > 0
    ensures n / 512 == (n - 1) / 512 + if n % 512 == 0 then 1 else 0
    ensures n / 0x40000 == (n - 1) / 0x40000 + if n % 0x40000 == 0 then 1 else 0
    ensures n % 0x40000 == 0 ==> n % 512 == 0
  {
    var h := n / 0x40000;
    if n % 0x40000 == 0 {
      assert n == 512 * (512 * h) + 0;
      Group(512 * h, 0);
    }
  }

  /** The tables of all three regions: 5133 with four levels, 5136 with five. */
  lemma {:induction false} TotalCost(la57: bool)
    ensures Cost(la57, Size(IDENTITY)) + Cost(la57, Size(HIGHER_HALF)) + Cost(la57, Size(CODE))
         == if la57 then 5136 else 5133
  {
  }
}
