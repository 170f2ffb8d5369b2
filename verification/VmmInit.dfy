/**
 vmm_init: a cleared root table and three loops of mappings. The state between two steps is
 described exactly: what every page translates to, which tables exist, and the frames they took.
 */
module VmmInit {
  import opened Addresses
  import opened Arithmetic
  import opened PageFrames
  import opened PageTables
  import opened VirtualAddresses
  import opened VmmLayout
  import opened VmmState
  import opened Vmm

  /** Page m of region k is mapped when the loops have come to page n of region r. */
  predicate Done(r: int, n: nat, k: int, m: nat) {
    IsRegion(k) && m < Size(k) && (k < r || (k == r && m < n))
  }

  /** q selects, or is on the way to, a page that is mapped. */
  ghost predicate OnWay(la57: bool, r: int, n: nat, q: Path) {
    exists k, m :: Done(r, n, k, m) && q <= PathIn(la57, k, m)
  }

  /** What a mapped page translates to: its frame and flags, with the read/write bit set in all of
      the entries on the way or, for the code region, in none. */
  function Target(k: int, m: nat): Translation {
    Page(m, FlagsFor(k), Rights(k != CODE, k != CODE))
  }

  /** Exactly the pages mapped so far are mapped. */
  ghost predicate WalksAre(la57: bool, root: int, mem: Memory, r: int, n: nat) {
    && MemoryOk(mem)
    && (forall k, m {:trigger Done(r, n, k, m)} :: Done(r, n, k, m) ==>
          Walk(mem, root, PathIn(la57, k, m), NO_ENTRIES) == Target(k, m))
    && (forall q {:trigger OnWay(la57, r, n, q)} :: PathOk(q) && |q| == Levels(la57) && !OnWay(la57, r, n, q) ==>
          Walk(mem, root, q, NO_ENTRIES) == NotPresent)
  }

  /** Exactly the tables on the way to them exist, hung in with the flags of their region. */
  ghost predicate TablesAre(la57: bool, mem: Memory, tree: Tree, r: int, n: nat) {
    && MemoryOk(mem)
    && (forall p {:trigger p in tree} :: p in tree && p != [] ==>
          |p| < Levels(la57) && OnWay(la57, r, n, p) && LinkFlags(mem, tree, p) == if p[0] == Top(CODE) then 1 else 3)
    && (n > 0 && IsRegion(r) && n <= Size(r) ==> PathIn(la57, r, n - 1)[..Levels(la57) - 1] in tree)
  }

  /** The tables taken so far, with the root. */
  function TablesSoFar(la57: bool, r: int, n: nat): nat {
    1 + (if r > IDENTITY then Cost(la57, Size(IDENTITY)) else 0)
      + (if r > HIGHER_HALF then Cost(la57, Size(HIGHER_HALF)) else 0)
      + Cost(la57, n)
  }

  function AllTables(la57: bool): nat {
    if la57 then 5137 else 5134
  }

  function Left(la57: bool, spare: nat, r: int, n: nat): nat {
    if TablesSoFar(la57, r, n) <= AllTables(la57) then AllTables(la57) - TablesSoFar(la57, r, n) + spare else spare
  }

  ghost predicate Laid(la57: bool, root: int, mem: Memory, tree: Tree, s: Frames, s0: Frames, spare: nat, r: int,
                       n: nat) {
    && VmOk(mem, tree, Levels(la57), root, s)
    && WalksAre(la57, root, mem, r, n)
    && TablesAre(la57, mem, tree, r, n)
    && |tree| == TablesSoFar(la57, r, n)
    && Spent(s0, s, |tree|)
    && CanServe(s, Left(la57, spare, r, n))
  }

  // ------------------------------------------------------------------- the root

  /** A cleared root maps nothing. */
  lemma {:induction false} RootLaid(la57: bool, mem: Memory, s: Frames, spare: nat)
    requires MemoryOk(mem) && FreeFramesClean(mem, s) && s.pages <= |mem| <= 0x100_0000_0000
    requires FramesOk(s) && CanServe(s, AllTables(la57) + spare)
    ensures var g := Served(s, 1);
            0 < g < |mem| && g + 1 <= |s.used|
            && Laid(la57, g, mem[g := Zeros()], map[[] := g], Taken(s, 1), s, spare, IDENTITY, 0)
  {
    hide CanServe, FreeFramesClean, Served, Taken, Spent, VmOk, WalksAre, TablesAre, Walk, Cost;
    var g := Served(s, 1);
    SpendOne(s, AllTables(la57) + spare);
    var tree: Tree := map[[] := g];
    RootOk(la57, mem, s, g);
    RootWalks(la57, mem, g);
    NoCost(la57);
    assert |tree| == 1;
  }

  lemma {:induction false} NoCost(la57: bool)
    ensures Cost(la57, 0) == 0
  {
  }

  lemma {:induction false} RootOk(la57: bool, mem: Memory, s: Frames, g: int)
    requires MemoryOk(mem) && FreeFramesClean(mem, s) && s.pages <= |mem| <= 0x100_0000_0000
    requires CanServe(s, 1) && g == Served(s, 1) && 0 < g < s.pages
    ensures VmOk(mem[g := Zeros()], map[[] := g], Levels(la57), g, Taken(s, 1))
  {
    hide Served, CanServe, Taken, ClearIn;
    ServeOne(s, 1);
    RootTree(la57, mem, g);
    var mem', s' := mem[g := Zeros()], Taken(s, 1);
    hide IsTree, PathOk;
    forall f | 0 <= f < s'.pages && !s'.used[f] ensures Clean(mem', f) {
      assert f != g && !s.used[f];
      assert Clean(mem, f);
    }
  }

  lemma {:induction false} RootTree(la57: bool, mem: Memory, g: int)
    requires MemoryOk(mem) && 0 <= g < |mem| <= 0x100_0000_0000
    ensures IsTree(mem[g := Zeros()], map[[] := g], Levels(la57), g)
  {
  }

  lemma {:induction false} RootWalks(la57: bool, mem: Memory, g: int)
    requires MemoryOk(mem) && 0 <= g < |mem|
    ensures WalksAre(la57, g, mem[g := Zeros()], IDENTITY, 0)
    ensures TablesAre(la57, mem[g := Zeros()], map[[] := g], IDENTITY, 0)
  {
    hide PathIn, OnWay, Cost, PathOk, LinkFlags;
    var mem' := mem[g := Zeros()];
    forall q | PathOk(q) && |q| == Levels(la57) ensures Walk(mem', g, q, NO_ENTRIES) == NotPresent {
      CleanWalk(mem', g, q, NO_ENTRIES);
    }
  }

  // ------------------------------------------------------------------- one page

  /** How many tables page n of region r still lacks. */
  lemma {:induction false} MissingIs(la57: bool, root: int, mem: Memory, tree: Tree, s: Frames, s0: Frames, spare: nat,
                                     r: int,
                                     n: nat)
    requires Laid(la57, root, mem, tree, s, s0, spare, r, n) && IsRegion(r) && n < Size(r)
    ensures Missing(tree, PathIn(la57, r, n), 0) == Adds(la57, n)
  {
    hide WalksAre, Spent, CanServe, Missing, PathIn, PathOk, TablesAre, Walk, Cost, VmOk, Clean;
    var q, l := PathIn(la57, r, n), Levels(la57);
    VmMemory(mem, tree, s, root, l);
    if n > 0 {
      PreviousTables(la57, root, mem, tree, s, r, n);
    }
    NewTables(la57, mem, tree, r, n);
    assert q[..0] == [];
    if n == 0 {
      MissingBelow(mem, tree, l, root, q, 0);
    } else if n % 0x40000 == 0 {
      MissingBelow(mem, tree, l, root, q, l - 3);
    } else if n % 512 == 0 {
      MissingBelow(mem, tree, l, root, q, l - 2);
    } else {
      MissingBelow(mem, tree, l, root, q, l - 1);
    }
  }

  /** If the tables to depth d exist and the next does not, all below are missing. */
  lemma {:induction false} MissingBelow(mem: Memory, tree: Tree, levels: nat, root: int, q: Path, d: nat)
    requires IsTree(mem, tree, levels, root) && |q| == levels && d < levels
    requires q[..d] in tree && (d + 1 < levels ==> q[..d + 1] !in tree)
    ensures Missing(tree, q, 0) == levels - 1 - d
  {
    hide IsTree, Missing;
    if d + 1 < levels {
      AllMissing(mem, tree, levels, root, q, d + 1);
      MissingAt(tree, q, d);
    } else {
      MissingEnd(tree, q, d);
    }
    NoneMissing(mem, tree, levels, root, q, d, 0);
  }

  lemma {:induction false} NoneMissing(mem: Memory, tree: Tree, levels: nat, root: int, q: Path, d: nat, k: nat)
    requires IsTree(mem, tree, levels, root) && k <= d < |q| && q[..d] in tree
    ensures Missing(tree, q, k) == Missing(tree, q, d)
    decreases d - k
  {
    hide IsTree;
    if k < d {
      PrefixInTree(mem, tree, levels, root, q[..d], k + 1);
      assert q[..d][..k + 1] == q[..k + 1];
      NoneMissing(mem, tree, levels, root, q, d, k + 1);
    }
  }

  /** The previous page has brought in the tables it shares with this one. */
  lemma {:induction false} PreviousTables(la57: bool, root: int, mem: Memory, tree: Tree, s: Frames, r: int, n: nat)
    requires VmOk(mem, tree, Levels(la57), root, s) && TablesAre(la57, mem, tree, r, n)
    requires IsRegion(r) && 0 < n < Size(r)
    ensures var q, l := PathIn(la57, r, n), Levels(la57);
            q[..l - 3] in tree && (n % 0x40000 != 0 ==> q[..l - 2] in tree) && (n % 512 != 0 ==> q[..l - 1] in tree)
  {
    hide PathIn, LinkFlags, OnWay, VmOk, PathOk;
    var p, q, l := PathIn(la57, r, n - 1), PathIn(la57, r, n), Levels(la57);
    Shared(la57, r, n - 1, n);
    DivStep(n);
    assert p[..l - 1][..l - 2] == p[..l - 2] && p[..l - 1][..l - 3] == p[..l - 3];
    VmMemory(mem, tree, s, root, l);
    PrefixInTree(mem, tree, l, root, p[..l - 1], l - 2);
    PrefixInTree(mem, tree, l, root, p[..l - 1], l - 3);
  }

  /** Tables not shared with an earlier page are not there. */
  lemma {:induction false} NewTables(la57: bool, mem: Memory, tree: Tree, r: int, n: nat)
    requires TablesAre(la57, mem, tree, r, n) && IsRegion(r) && n < Size(r)
    ensures var q, l := PathIn(la57, r, n), Levels(la57);
            (n % 512 == 0 ==> q[..l - 1] !in tree) && (n % 0x40000 == 0 ==> q[..l - 2] !in tree)
            && (n == 0 ==> q[..1] !in tree)
  {
    hide LinkFlags, PathIn, PathOk, OnWay;
    var l := Levels(la57);
    if n % 512 == 0 { NewTable(la57, r, n, l - 1); }
    if n % 0x40000 == 0 { NewTable(la57, r, n, l - 2); }
    if n == 0 { NewTable(la57, r, n, 1); }
  }

  lemma {:induction false} NewTable(la57: bool, r: int, n: nat, d: nat)
    requires IsRegion(r) && n < Size(r) && 1 <= d < Levels(la57)
    requires (d == Levels(la57) - 1 && n % 512 == 0) || (d == Levels(la57) - 2 && n % 0x40000 == 0) || n == 0
    ensures !OnWay(la57, r, n, PathIn(la57, r, n)[..d]) && PathIn(la57, r, n)[..d] != []
  {
    hide PathIn, PathOk;
    forall k, m | Done(r, n, k, m) ensures !(PathIn(la57, r, n)[..d] <= PathIn(la57, k, m)) {
      NotShared(la57, r, n, k, m, d);
    }
  }

  lemma {:induction false} NotShared(la57: bool, r: int, n: nat, k: int, m: nat, d: nat)
    requires IsRegion(r) && n < Size(r) && 1 <= d < Levels(la57) && Done(r, n, k, m)
    requires (d == Levels(la57) - 1 && n % 512 == 0) || (d == Levels(la57) - 2 && n % 0x40000 == 0) || n == 0
    ensures !(PathIn(la57, r, n)[..d] <= PathIn(la57, k, m))
  {
    hide PathIn, PathOk;
    TopIs(la57, r, n);
    TopIs(la57, k, m);
    Apart(r, k);
    if k == r {
      Shared(la57, r, m, n);
      DivSmaller(m, n);
    }
    PrefixCut(PathIn(la57, k, m), PathIn(la57, r, n), d);
  }

  lemma {:induction false} PrefixCut(p: Path, q: Path, d: nat)
    requires 1 <= d <= |q| == |p|
    ensures q[..d] <= p ==> p[..d] == q[..d] && p[0] == q[0]
  {
    if q[..d] <= p { assert q[..d][0] == p[0]; }
  }

  lemma {:induction false} DivSmaller(m: nat, n: nat)
    requires m < n
    ensures n % 512 == 0 ==> m / 512 != n / 512
    ensures n % 0x40000 == 0 ==> m / 0x40000 != n / 0x40000
  {
  }

  lemma {:induction false} Apart(r: int, k: int)
    requires IsRegion(r) && IsRegion(k)
    ensures Top(r) == Top(k) <==> r == k
  {
  }

  /** Mapping page n of region r carries the description on to the next page. */
  lemma {:induction false} StepLaid(la57: bool, root: int, mem: Memory, tree: Tree, s: Frames, s0: Frames, spare: nat,
                                    r: int,
                                    n: nat,
                                    mem': Memory, tree': Tree, s': Frames)
    requires Laid(la57, root, mem, tree, s, s0, spare, r, n) && IsRegion(r) && n < Size(r)
    requires Mapped(root, PathIn(la57, r, n), n, FlagsFor(r), Left(la57, spare, r, n + 1),
                    mem, tree, s, mem', tree', s')
    ensures Laid(la57, root, mem', tree', s', s0, spare, r, n + 1)
  {
    hide VmOk, WalksAre, TablesAre, Spent, CanServe, PathIn, Tables, Grown, OnlyPage, Walk, PathRights, Cost, Adds,
         PathOk;
    var q := PathIn(la57, r, n);
    MissingIs(la57, root, mem, tree, s, s0, spare, r, n);
    CostStep(la57, n);
    TreeSize(la57, root, mem, tree, s, tree', q);
    GrownSpent(mem, tree, s, mem', tree', s', FlagsFor(r));
    SpentTrans(s0, s, s', |tree|, |tree'| - |tree|);
    TablesStep(la57, mem, tree, s, r, n, mem', tree', s');
    RightsStep(la57, root, mem', tree', s', r, n);
    WalksStep(la57, root, mem, r, n, mem');
  }

  lemma {:induction false} TreeSize(la57: bool, root: int, mem: Memory, tree: Tree, s: Frames, tree': Tree, q: Path)
    requires VmOk(mem, tree, Levels(la57), root, s) && |q| == Levels(la57) && tree'.Keys == tree.Keys + Tables(q)
    ensures |tree'| == |tree| + Missing(tree, q, 0)
  {
    hide VmOk, Tables, Missing;
    VmMemory(mem, tree, s, root, Levels(la57));
    RootAlong(mem, tree, Levels(la57), root, q);
    MissingCount(tree, q, 0);
    CountIs(tree, tree', q);
  }

  lemma {:induction false} RootAlong(mem: Memory, tree: Tree, levels: nat, root: int, q: Path)
    requires IsTree(mem, tree, levels, root) && |q| == levels
    ensures Along(tree, q, 0)
  {
    assert q[..0] == [];
  }

  lemma {:induction false} CountIs(tree: Tree, tree': Tree, q: Path)
    requires tree'.Keys == tree.Keys + Tables(q)
    ensures |tree'| == CountWith(tree, q)
  {
    hide Tables;
  }

  lemma {:induction false} GrownSpent(mem: Memory, tree: Tree, s: Frames, mem': Memory, tree': Tree, s': Frames,
                                      flags: int)
    requires Grown(mem, tree, s, mem', tree', s', flags)
    ensures Spent(s, s', |tree'| - |tree|)
  {
    hide LinkFlags, ClearIn;
  }

  /** A path on the way stays on the way; the new page's tables come on it. */
  lemma {:induction false} WayGrows(la57: bool, r: int, n: nat, p: Path)
    requires IsRegion(r) && n < Size(r)
    ensures OnWay(la57, r, n, p) ==> OnWay(la57, r, n + 1, p)
    ensures p <= PathIn(la57, r, n) ==> OnWay(la57, r, n + 1, p)
    ensures OnWay(la57, r, n + 1, p) ==> OnWay(la57, r, n, p) || p <= PathIn(la57, r, n)
  {
    hide PathIn;
    assert Done(r, n + 1, r, n);
    if OnWay(la57, r, n, p) {
      var k, m :| Done(r, n, k, m) && p <= PathIn(la57, k, m);
      assert Done(r, n + 1, k, m);
    }
    if OnWay(la57, r, n + 1, p) {
      var k, m :| Done(r, n + 1, k, m) && p <= PathIn(la57, k, m);
      if !(k == r && m == n) { assert Done(r, n, k, m); }
    }
  }

  lemma {:induction false} TablesStep(la57: bool, mem: Memory, tree: Tree, s: Frames, r: int, n: nat,
                                      mem': Memory, tree': Tree, s': Frames)
    requires TablesAre(la57, mem, tree, r, n) && IsRegion(r) && n < Size(r)
    requires Grown(mem, tree, s, mem', tree', s', FlagsFor(r))
    requires tree'.Keys == tree.Keys + Tables(PathIn(la57, r, n))
    ensures TablesAre(la57, mem', tree', r, n + 1)
  {
    hide LinkFlags, PathIn, Tables, OnWay, PathOk, ClearIn;
    var q, l := PathIn(la57, r, n), Levels(la57);
    TablesHas(q, l - 1);
    TopIs(la57, r, n);
    Apart(r, CODE);
    forall p | p in tree' && p != []
      ensures |p| < l && OnWay(la57, r, n + 1, p) && LinkFlags(mem', tree', p) == if p[0] == Top(CODE) then 1 else 3
    {
      WayGrows(la57, r, n, p);
      if p !in tree { TablesPrefix(q, p); }
    }
  }

  lemma {:induction false} TablesPrefix(q: Path, p: Path)
    requires p in Tables(q)
    ensures p <= q && |p| < |q| && (p != [] ==> p[0] == q[0])
  {
  }

  /** All tables on the way of the new page are hung in with its region's flags. */
  lemma {:induction false} RightsStep(la57: bool, root: int, mem: Memory, tree: Tree, s: Frames, r: int, n: nat)
    requires VmOk(mem, tree, Levels(la57), root, s) && TablesAre(la57, mem, tree, r, n + 1) && IsRegion(r)
         && n < Size(r)
    ensures IsTree(mem, tree, Levels(la57), root)
    ensures PathRights(mem, tree, Levels(la57), root, PathIn(la57, r, n), FlagsFor(r)) == Rights(r != CODE, r != CODE)
  {
    hide VmOk, IsTree, LinkFlags, PathIn, OnWay, PassedRw, PathOk;
    var q, l := PathIn(la57, r, n), Levels(la57);
    VmMemory(mem, tree, s, root, l);
    TopIs(la57, r, n);
    Apart(r, CODE);
    forall k | 0 <= k < l ensures q[..k] in tree {
      PrefixInTree(mem, tree, l, root, q[..l - 1], k);
      assert q[..l - 1][..k] == q[..k];
    }
    forall k | 1 <= k < l ensures LinkFlags(mem, tree, q[..k]) == FlagsFor(r) {
      assert q[..k][0] == q[0];
    }
    UniformRights(mem, tree, l, root, q, l - 1, FlagsFor(r));
    WritableIn(r);
  }

  lemma {:induction false} WritableIn(r: int)
    ensures Writable(FlagsFor(r)) <==> r != CODE
    ensures IsFlags(FlagsFor(r)) && Present(FlagsFor(r)) && !LargeBit(FlagsFor(r))
  {
  }

  lemma {:induction false} WalksStep(la57: bool, root: int, mem: Memory, r: int, n: nat, mem': Memory)
    requires WalksAre(la57, root, mem, r, n) && IsRegion(r) && n < Size(r)
    requires OnlyPage(mem, mem', Levels(la57), root, PathIn(la57, r, n))
    requires Walk(mem', root, PathIn(la57, r, n), NO_ENTRIES) == Target(r, n)
    ensures WalksAre(la57, root, mem', r, n + 1)
  {
    hide Walk, PathIn, OnWay, PathOk, Target;
    var l := Levels(la57);
    forall k, m | Done(r, n + 1, k, m) ensures Walk(mem', root, PathIn(la57, k, m), NO_ENTRIES) == Target(k, m) {
      if !(k == r && m == n) {
        assert Done(r, n, k, m);
        OtherPage(la57, r, n, k, m);
      }
    }
    forall q | PathOk(q) && |q| == l && !OnWay(la57, r, n + 1, q)
      ensures Walk(mem', root, q, NO_ENTRIES) == NotPresent {
      WayGrows(la57, r, n, q);
    }
  }

  /** Different pages are at different addresses. */
  lemma {:induction false} OtherPage(la57: bool, r: int, n: nat, k: int, m: nat)
    requires IsRegion(r) && n < Size(r) && IsRegion(k) && m < Size(k)
    ensures PathIn(la57, k, m) == PathIn(la57, r, n) <==> k == r && m == n
  {
    hide PathIn;
    TopIs(la57, r, n);
    TopIs(la57, k, m);
    Apart(r, k);
    if k == r { Shared(la57, r, m, n); }
  }

  /** A finished region is where the next one starts. */
  lemma {:induction false} NextRegion(la57: bool, root: int, mem: Memory, tree: Tree, s: Frames, s0: Frames, spare: nat,
                                      r: int)
    requires Laid(la57, root, mem, tree, s, s0, spare, r, Size(r)) && 0 <= r < CODE
    ensures Laid(la57, root, mem, tree, s, s0, spare, r + 1, 0)
  {
    hide VmOk, Spent, CanServe, WalksAre, TablesAre, Cost;
    NoCost(la57);
    NextWalks(la57, root, mem, r);
    NextTables(la57, mem, tree, r);
  }

  lemma {:induction false} NextWalks(la57: bool, root: int, mem: Memory, r: int)
    requires WalksAre(la57, root, mem, r, Size(r)) && 0 <= r < CODE
    ensures WalksAre(la57, root, mem, r + 1, 0)
  {
    hide Walk, PathIn, OnWay, PathOk, Target;
    forall k, m | Done(r + 1, 0, k, m) ensures Walk(mem, root, PathIn(la57, k, m), NO_ENTRIES) == Target(k, m) {
      assert Done(r, Size(r), k, m);
    }
    forall q | PathOk(q) && |q| == Levels(la57) && !OnWay(la57, r + 1, 0, q)
      ensures Walk(mem, root, q, NO_ENTRIES) == NotPresent {
      SameWay(la57, r, q);
    }
  }

  lemma {:induction false} NextTables(la57: bool, mem: Memory, tree: Tree, r: int)
    requires TablesAre(la57, mem, tree, r, Size(r)) && 0 <= r < CODE
    ensures TablesAre(la57, mem, tree, r + 1, 0)
  {
    hide LinkFlags, PathIn, OnWay, PathOk;
    forall p | p in tree && p != []
      ensures |p| < Levels(la57) && OnWay(la57, r + 1, 0, p)
           && LinkFlags(mem, tree, p) == if p[0] == Top(CODE) then 1 else 3
    {
      SameWay(la57, r, p);
    }
  }

  lemma {:induction false} SameWay(la57: bool, r: int, q: Path)
    requires 0 <= r < CODE
    ensures OnWay(la57, r, Size(r), q) <==> OnWay(la57, r + 1, 0, q)
  {
    hide PathIn;
    if OnWay(la57, r, Size(r), q) {
      var k, m :| Done(r, Size(r), k, m) && q <= PathIn(la57, k, m);
      assert Done(r + 1, 0, k, m);
    }
    if OnWay(la57, r + 1, 0, q) {
      var k, m :| Done(r + 1, 0, k, m) && q <= PathIn(la57, k, m);
      assert Done(r, Size(r), k, m);
    }
  }

  /** The frames page n needs are there, and enough are left after it. */
  lemma {:induction false} MayMapNext(la57: bool, root: int, mem: Memory, tree: Tree, s: Frames, s0: Frames, spare: nat,
                                      r: int,
                                      n: nat)
    requires Laid(la57, root, mem, tree, s, s0, spare, r, n) && IsRegion(r) && n < Size(r)
    ensures TablesSoFar(la57, r, n + 1) <= AllTables(la57)
    ensures MayMap(la57, tree, s, PathIn(la57, r, n), FlagsFor(r), Left(la57, spare, r, n + 1)) && Present(FlagsFor(r))
  {
    hide VmOk, WalksAre, TablesAre, Spent, CanServe, PathIn, Missing, Cost, Adds;
    MissingIs(la57, root, mem, tree, s, s0, spare, r, n);
    CostStep(la57, n);
    WritableIn(r);
    Enough(la57, r, n + 1);
  }

  lemma {:induction false} Enough(la57: bool, r: int, n: nat)
    requires IsRegion(r) && n <= Size(r)
    ensures TablesSoFar(la57, r, n) <= AllTables(la57)
  {
    hide Cost;
    TotalCost(la57);
    CostGrows(la57, n, Size(r));
  }

  lemma {:induction false} CostGrows(la57: bool, m: nat, n: nat)
    requires m <= n
    ensures Cost(la57, m) <= Cost(la57, n)
  {
    if m > 0 {
      DivMonotone(m - 1, n - 1, 0x40000);
      DivMonotone(m - 1, n - 1, 512);
    }
  }

  // ----------------------------------------------------------------- the loops

  const GB: int := 0x4000_0000

  lemma {:induction false} PageAddress(la57: bool, r: int, n: nat, i: int)
    requires IsRegion(r) && n < Size(r) && i == PAGE_SIZE * n
    ensures Aligned(i) && PageOf(i) == n && IsFrame(n)
    ensures PathIn(la57, r, n) == PathOf(la57, VaOf(la57, r, n))
  {
    hide VaOf, PathOf;
  }

  lemma {:induction false} RootAt(v: Vmm)
    ensures FrameAt(v.la57, v.rootPageDirectory) == v.Root()
  {
  }

  lemma {:induction false} StateThere(v: Vmm)
    requires v.Valid()
    ensures v.pmm.Valid()
  {
  }

  /** The body of the loop for region r: one page more. */
  method MapNext(v: Vmm, i: nat, va: nat, flags: int, ghost r: int, ghost n: nat, ghost s0: Frames, ghost spare: nat)
    requires v.Valid() && IsRegion(r) && n < Size(r) && i == PAGE_SIZE * n && va == VaOf(v.la57, r, n)
         && flags == FlagsFor(r)
    requires Laid(v.la57, v.Root(), v.memory, v.tree, v.pmm.State(), s0, spare, r, n)
    modifies v`memory, v`tree, v.pmm`usedPages, v.pmm.bitmap.bytes
    ensures v.Valid()
    ensures Laid(v.la57, v.Root(), v.memory, v.tree, v.pmm.State(), s0, spare, r, n + 1)
  {
    hide *;
    StateThere(v);
    ghost var mem, t, s := v.memory, v.tree, v.pmm.State();
    MayMapNext(v.la57, v.Root(), mem, t, s, s0, spare, r, n);
    PageAddress(v.la57, r, n, i);
    RootAt(v);
    v.MapPage(v.rootPageDirectory, i, va, flags, Left(v.la57, spare, r, n + 1));
    StateThere(v);
    StepLaid(v.la57, v.Root(), mem, t, s, s0, spare, r, n, v.memory, v.tree, v.pmm.State());
  }

  /** The first loop: the first 4 GiB at their own addresses. */
  method MapLowMemory(v: Vmm, ghost s0: Frames, ghost spare: nat)
    requires v.Valid() && Laid(v.la57, v.Root(), v.memory, v.tree, v.pmm.State(), s0, spare, IDENTITY, 0)
    modifies v`memory, v`tree, v.pmm`usedPages, v.pmm.bitmap.bytes
    ensures v.Valid() && Laid(v.la57, v.Root(), v.memory, v.tree, v.pmm.State(), s0, spare, IDENTITY, Size(IDENTITY))
  {
    hide Laid, PhysToHigherHalfData, PhysToHigherHalfCode, Vmm.Valid;
    StateThere(v);
    var i := 0;
    while i < 4 * GB
      invariant i % PAGE_SIZE == 0 && 0 <= i <= 4 * GB && v.Valid() && v.pmm.Valid()
      invariant Laid(v.la57, v.Root(), v.memory, v.tree, v.pmm.State(), s0, spare, IDENTITY, i / PAGE_SIZE)
    {
      MapNext(v, i, i, PTE_PRESENT + PTE_READ_WRITE, IDENTITY, i / PAGE_SIZE, s0, spare);
      StateThere(v);
      i := i + PAGE_SIZE;
    }
  }

  /** The second loop: the same in the higher half. */
  method MapHigherHalf(v: Vmm, ghost s0: Frames, ghost spare: nat)
    requires v.Valid() && Laid(v.la57, v.Root(), v.memory, v.tree, v.pmm.State(), s0, spare, HIGHER_HALF, 0)
    modifies v`memory, v`tree, v.pmm`usedPages, v.pmm.bitmap.bytes
    ensures v.Valid() && Laid(v.la57, v.Root(), v.memory, v.tree, v.pmm.State(), s0, spare, HIGHER_HALF,
                              Size(HIGHER_HALF))
  {
    hide Laid, PhysToHigherHalfData, PhysToHigherHalfCode, Vmm.Valid;
    StateThere(v);
    var i := 0;
    while i < 4 * GB
      invariant i % PAGE_SIZE == 0 && 0 <= i <= 4 * GB && v.Valid() && v.pmm.Valid()
      invariant Laid(v.la57, v.Root(), v.memory, v.tree, v.pmm.State(), s0, spare, HIGHER_HALF, i / PAGE_SIZE)
    {
      assert VaOf(v.la57, HIGHER_HALF, i / PAGE_SIZE) == PhysToHigherHalfData(v.la57, i);
      MapNext(v, i, PhysToHigherHalfData(v.la57, i), PTE_PRESENT
              + PTE_READ_WRITE, HIGHER_HALF, i / PAGE_SIZE, s0, spare);
      StateThere(v);
      i := i + PAGE_SIZE;
    }
  }

  /** The third loop: the first 2 GiB at the code base, not writable. */
  method MapCode(v: Vmm, ghost s0: Frames, ghost spare: nat)
    requires v.Valid() && Laid(v.la57, v.Root(), v.memory, v.tree, v.pmm.State(), s0, spare, CODE, 0)
    modifies v`memory, v`tree, v.pmm`usedPages, v.pmm.bitmap.bytes
    ensures v.Valid() && Laid(v.la57, v.Root(), v.memory, v.tree, v.pmm.State(), s0, spare, CODE, Size(CODE))
  {
    hide Laid, PhysToHigherHalfData, PhysToHigherHalfCode, Vmm.Valid;
    StateThere(v);
    var i := 0;
    while i < 0x80000000
      invariant i % PAGE_SIZE == 0 && 0 <= i <= 0x80000000 && v.Valid() && v.pmm.Valid()
      invariant Laid(v.la57, v.Root(), v.memory, v.tree, v.pmm.State(), s0, spare, CODE, i / PAGE_SIZE)
    {
      assert VaOf(v.la57, CODE, i / PAGE_SIZE) == PhysToHigherHalfCode(i);
      MapNext(v, i, PhysToHigherHalfCode(i), PTE_PRESENT, CODE, i / PAGE_SIZE, s0, spare);
      StateThere(v);
      i := i + PAGE_SIZE;
    }
  }

  /** vmm_init, from frames that hold no present entries: the page tables it leaves behind. The ghost argument counts
      free frames the caller still needs afterwards. */
  method Init(v: Vmm, ghost spare: nat)
    requires v.pmm.Valid() && v.Ready() && MemoryOk(v.memory) && FreeFramesClean(v.memory, v.pmm.State())
    requires v.pmm.State().pages <= |v.memory| <= 0x100_0000_0000 && CanServe(v.pmm.State(), AllTables(v.la57) + spare)
    modifies v, v.pmm`usedPages, v.pmm.bitmap.bytes
    ensures v.Valid()
    ensures Finished(v.la57, v.Root(), v.memory, v.tree, old(v.pmm.State()), v.pmm.State())
    ensures CanServe(v.pmm.State(), spare)
  {
    hide *;
    ghost var s0 := v.pmm.State();
    FramesReady(v.la57, s0, spare);
    RootLaid(v.la57, v.memory, s0, spare);
    v.rootPageDirectory := v.CreatePageDirectory();
    v.tree := map[[] := Served(s0, 1)];
    RootAt(v);
    RootValid(v, s0, spare);
    MapLowMemory(v, s0, spare);
    StateThere(v);
    ToHigherHalf(v.la57, v.Root(), v.memory, v.tree, v.pmm.State(), s0, spare);
    MapHigherHalf(v, s0, spare);
    StateThere(v);
    ToCode(v.la57, v.Root(), v.memory, v.tree, v.pmm.State(), s0, spare);
    MapCode(v, s0, spare);
    StateThere(v);
    AllLaid(v.la57, v.Root(), v.memory, v.tree, v.pmm.State(), s0, spare);
  }

  lemma {:induction false} FramesReady(la57: bool, s: Frames, spare: nat)
    requires CanServe(s, AllTables(la57) + spare)
    ensures FramesOk(s) && CanServe(s, 1)
  {
    hide ClearIn;
  }

  lemma {:induction false} ToHigherHalf(la57: bool, root: int, mem: Memory, tree: Tree, s: Frames, s0: Frames,
                                        spare: nat)
    requires Laid(la57, root, mem, tree, s, s0, spare, IDENTITY, Size(IDENTITY))
    ensures Laid(la57, root, mem, tree, s, s0, spare, HIGHER_HALF, 0)
  {
    hide Laid, Size;
    NextRegion(la57, root, mem, tree, s, s0, spare, IDENTITY);
  }

  lemma {:induction false} ToCode(la57: bool, root: int, mem: Memory, tree: Tree, s: Frames, s0: Frames, spare: nat)
    requires Laid(la57, root, mem, tree, s, s0, spare, HIGHER_HALF, Size(HIGHER_HALF))
    ensures Laid(la57, root, mem, tree, s, s0, spare, CODE, 0)
  {
    hide Laid, Size;
    NextRegion(la57, root, mem, tree, s, s0, spare, HIGHER_HALF);
  }

  lemma {:induction false} RootValid(v: Vmm, s0: Frames, spare: nat)
    requires v.pmm.Valid() && v.Ready() && Laid(v.la57, v.Root(), v.memory, v.tree, v.pmm.State(), s0, spare, IDENTITY,
                                                0)
    ensures v.Valid()
  {
    hide VmOk, WalksAre, TablesAre, CanServe, Spent;
  }

  /** After vmm_init: every page below 4 GiB is mapped at its own address and in the higher half,
      writable; every page below 2 GiB at the code base, with no read/write bit set on the way; no
      other page is mapped; and the tables took 5134 frames, 5137 with five levels. */
  ghost predicate Finished(la57: bool, root: int, mem: Memory, tree: Tree, s0: Frames, s: Frames) {
    && MemoryOk(mem)
    && (forall n: nat {:trigger VaOf(la57, IDENTITY, n)} :: n < 0x100000 ==>
          Walk(mem, root, PathOf(la57, PAGE_SIZE * n), NO_ENTRIES) == Page(n, 3, Rights(true, true))
          && Walk(mem, root, PathOf(la57, PhysToHigherHalfData(la57, PAGE_SIZE * n)), NO_ENTRIES)
             == Page(n, 3, Rights(true, true)))
    && (forall n: nat {:trigger VaOf(la57, CODE, n)} :: n < 0x80000 ==>
          Walk(mem, root, PathOf(la57, PhysToHigherHalfCode(PAGE_SIZE * n)), NO_ENTRIES)
            == Page(n, 1, Rights(false, false)))
    && (forall q {:trigger OnWay(la57, CODE, Size(CODE), q)} ::
          PathOk(q) && |q| == Levels(la57) && !OnWay(la57, CODE, Size(CODE), q) ==>
          Walk(mem, root, q, NO_ENTRIES) == NotPresent)
    && |tree| == (if la57 then 5137 else 5134) && Spent(s0, s, |tree|)
  }

  lemma {:induction false} AllLaid(la57: bool, root: int, mem: Memory, tree: Tree, s: Frames, s0: Frames, spare: nat)
    requires Laid(la57, root, mem, tree, s, s0, spare, CODE, Size(CODE))
    ensures Finished(la57, root, mem, tree, s0, s) && CanServe(s, spare)
  {
    hide VmOk, TablesAre, Spent, CanServe, Cost, Walk, OnWay, PathOf, PathOk, PhysToHigherHalfData,
         PhysToHigherHalfCode;
    TotalCost(la57);
    forall n: nat | n < 0x100000
      ensures Walk(mem, root, PathOf(la57, PAGE_SIZE * n), NO_ENTRIES) == Page(n, 3, Rights(true, true))
      ensures Walk(mem, root, PathOf(la57, PhysToHigherHalfData(la57, PAGE_SIZE * n)), NO_ENTRIES)
           == Page(n, 3, Rights(true, true))
    {
      assert Done(CODE, Size(CODE), IDENTITY, n) && Done(CODE, Size(CODE), HIGHER_HALF, n);
    }
    forall n: nat | n < 0x80000
      ensures Walk(mem, root, PathOf(la57, PhysToHigherHalfCode(PAGE_SIZE * n)), NO_ENTRIES)
           == Page(n, 1, Rights(false, false))
    {
      assert Done(CODE, Size(CODE), CODE, n);
    }
  }
}
