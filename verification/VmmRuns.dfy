/**
 What whole runs of mappings and unmappings do: the page tables behave as a plain map from
 pages to frames with flags, and the tables take one frame for each distinct way to a last-level
 table. Two conditions the kernel relies on without checking are shown to be exact.
 */
module VmmRuns {
  import opened PageFrames
  import opened PageTables
  import opened VmmState
  import opened Vmm

  /** A call by the indices of its virtual page: vmm_map_page with the present flag, which writes the word w in the
      end, or vmm_unmap_page, as which vmm_map_page acts when neither flags nor word say present. */
  datatype Call = MapTo(q: Path, w: int, flags: int) | Drop(q: Path)

  datatype View = View(mem: Memory, tree: Tree, s: Frames)

  type PageMap = map<Path, (int, int)>

  /** The contracts of MapPage and UnmapPage, as a step from one state to the next. */
  ghost predicate Does(c: Call, levels: nat, root: int, v: View, v': View) {
    |c.q| == levels
    && match c {
         case MapTo(q, w, flags) => MappedWord(root, q, w, flags, 0, v.mem, v.tree, v.s, v'.mem, v'.tree, v'.s)
         case Drop(q) => v'.tree == v.tree && Unmapped(root, q, 0, v.mem, v.tree, v.s, v'.mem, v'.s)
       }
  }

  ghost predicate IsRun(cs: seq<Call>, vs: seq<View>, levels: nat, root: int) {
    |vs| == |cs| + 1 && forall i {:trigger cs[i]} :: 0 <= i < |cs| ==> Does(cs[i], levels, root, vs[i], vs[i + 1])
  }

  function Updated(pm: PageMap, c: Call): PageMap {
    match c
    case MapTo(q, w, flags) => pm[q := (FrameOf(w), FlagsOf(w))]
    case Drop(q) => pm - {q}
  }

  /** The map the first n calls make of pm. */
  function After(pm: PageMap, cs: seq<Call>, n: nat): PageMap
    requires n <= |cs|
  {
    if n == 0 then pm else Updated(After(pm, cs, n - 1), cs[n - 1])
  }

  /** The walk of q finds what the map says. */
  ghost predicate Agrees(t: Translation, pm: PageMap, q: Path) {
    match t
    case NotPresent => q !in pm
    case Large => false
    case Reserved => false
    case Page(frame, flags, rw) => q in pm && pm[q] == (frame, flags)
  }

  ghost predicate Refines(mem: Memory, levels: nat, root: int, pm: PageMap) {
    MemoryOk(mem) && forall q :: PathOk(q) && |q| == levels && q != [] ==> Agrees(Walk(mem, root, q, NO_ENTRIES), pm, q)
  }

  lemma {:induction false} StepRefines(c: Call, levels: nat, root: int, v: View, v': View, pm: PageMap)
    requires Does(c, levels, root, v, v') && Refines(v.mem, levels, root, pm)
    ensures Refines(v'.mem, levels, root, Updated(pm, c))
  {
    hide VmOk, Grown, Missing, Tables, CanServe, Spent, PathRights, Walk, PathOk, MemoryOk;
    forall q | PathOk(q) && |q| == levels && q != []
      ensures Agrees(Walk(v'.mem, root, q, NO_ENTRIES), Updated(pm, c), q) {
      if q != c.q { assert Agrees(Walk(v.mem, root, q, NO_ENTRIES), pm, q); }
    }
  }

  /** Over every run the page tables refine the map the calls describe, for every page at once. */
  lemma {:induction false} RunRefines(cs: seq<Call>, vs: seq<View>, levels: nat, root: int, pm: PageMap, n: nat)
    requires IsRun(cs, vs, levels, root) && n <= |cs| && Refines(vs[0].mem, levels, root, pm)
    ensures Refines(vs[n].mem, levels, root, After(pm, cs, n))
  {
    hide Refines, Does, Updated;
    if n > 0 {
      RunRefines(cs, vs, levels, root, pm, n - 1);
      StepRefines(cs[n - 1], levels, root, vs[n - 1], vs[n], After(pm, cs, n - 1));
    }
  }

  /** The tables on the way to the pages of the first n calls. */
  ghost function TablesOf(cs: seq<Call>, n: nat): set<Path>
    requires n <= |cs|
  {
    if n == 0 then {} else TablesOf(cs, n - 1) + Tables(cs[n - 1].q)
  }

  ghost function Count(tree: Tree): nat {
    |tree.Keys|
  }

  ghost predicate OnlyMaps(cs: seq<Call>) {
    forall i :: 0 <= i < |cs| ==> cs[i].MapTo?
  }

  /** A run of mappings keeps the tables a tree of frames used once, makes it exactly the tables on
      the way to its pages, and takes one frame for each new one. */
  lemma {:induction false} RunTables(cs: seq<Call>, vs: seq<View>, levels: nat, root: int, n: nat)
    requires IsRun(cs, vs, levels, root) && OnlyMaps(cs) && n <= |cs|
    requires VmOk(vs[0].mem, vs[0].tree, levels, root, vs[0].s)
    ensures VmOk(vs[n].mem, vs[n].tree, levels, root, vs[n].s)
    ensures vs[n].tree.Keys == vs[0].tree.Keys + TablesOf(cs, n)
    ensures Spent(vs[0].s, vs[n].s, Count(vs[n].tree) - Count(vs[0].tree))
  {
    hide VmOk, Spent, Does, Tables, TablesOf, Count;
    if n == 0 {
      FramesOfVm(vs[0].mem, vs[0].tree, levels, root, vs[0].s);
      SpendNone(vs[0].s);
      NoTables(cs);
    } else {
      RunTables(cs, vs, levels, root, n - 1);
      StepTables(cs[n - 1], levels, root, vs[n - 1], vs[n]);
      SpentTrans(vs[0].s, vs[n - 1].s, vs[n].s, Count(vs[n - 1].tree) - Count(vs[0].tree),
                 Count(vs[n].tree) - Count(vs[n - 1].tree));
      MoreTables(cs, n, vs[0].tree.Keys);
    }
  }

  lemma {:induction false} FramesOfVm(mem: Memory, tree: Tree, levels: nat, root: int, s: Frames)
    requires VmOk(mem, tree, levels, root, s)
    ensures FramesOk(s)
  {
  }

  lemma {:induction false} NoTables(cs: seq<Call>)
    ensures TablesOf(cs, 0) == {}
  {
  }

  lemma {:induction false} MoreTables(cs: seq<Call>, n: nat, keys: set<Path>)
    requires 0 < n <= |cs|
    ensures keys + TablesOf(cs, n - 1) + Tables(cs[n - 1].q) == keys + TablesOf(cs, n)
  {
  }

  lemma {:induction false} StepTables(c: Call, levels: nat, root: int, v: View, v': View)
    requires Does(c, levels, root, v, v') && c.MapTo?
    ensures VmOk(v'.mem, v'.tree, levels, root, v'.s)
    ensures v'.tree.Keys == v.tree.Keys + Tables(c.q)
    ensures Spent(v.s, v'.s, Count(v'.tree) - Count(v.tree))
  {
    hide VmOk, LinkFlags, ClearIn, Tables, OnlyPage, CanServe, Walk, PathRights;
  }

  /** Starting from an empty root, the frames taken by a run of mappings, with the root's own, are as
      many as there are distinct prefixes of its pages' indices. */
  lemma {:induction false} FramesConsumed(cs: seq<Call>, vs: seq<View>, levels: nat, root: int, s0: Frames)
    requires IsRun(cs, vs, levels, root) && OnlyMaps(cs) && cs != []
    requires vs[0].tree == map[[] := root] && VmOk(vs[0].mem, vs[0].tree, levels, root, vs[0].s)
    requires Spent(s0, vs[0].s, 1)
    ensures vs[|cs|].tree.Keys == TablesOf(cs, |cs|)
    ensures Spent(s0, vs[|cs|].s, |TablesOf(cs, |cs|)|)
  {
    hide VmOk, Spent, Tables, Does, TablesOf, Count;
    var n := |cs|;
    RunTables(cs, vs, levels, root, n);
    RootOnTheWay(cs, vs, levels, root);
    OnlyRoot(vs[0].tree, root, vs[n].tree, TablesOf(cs, n));
    SpentTrans(s0, vs[0].s, vs[n].s, 1, Count(vs[n].tree) - Count(vs[0].tree));
  }

  lemma {:induction false} OnlyRoot(tree: Tree, root: int, tree': Tree, tables: set<Path>)
    requires tree == map[[] := root] && [] in tables && tree'.Keys == tree.Keys + tables
    ensures tree'.Keys == tables && Count(tree) == 1 && Count(tree') == |tables|
  {
    assert tree.Keys == {[]};
    assert tree'.Keys == tables;
  }

  lemma {:induction false} RootOnTheWay(cs: seq<Call>, vs: seq<View>, levels: nat, root: int)
    requires IsRun(cs, vs, levels, root) && OnlyMaps(cs) && cs != []
    ensures [] in TablesOf(cs, |cs|)
  {
    hide VmOk, Grown, OnlyPage, Walk, PathRights, CanServe;
    var c := cs[|cs| - 1];
    assert Does(c, levels, root, vs[|cs| - 1], vs[|cs|]);
    assert c.q[..0] == [];
    TablesHas(c.q, 0);
  }

  // ---------------------------------------------------------- unchecked conditions

  /** New tables are not cleared. Hanging frame g in as a last-level table, every page below it reads
      whatever g held, so no page changes exactly when g holds no present entry. */
  lemma {:induction false} StaleTable(mem: Memory, tree: Tree, levels: nat, root: int, p: Path, i: int, g: int,
                                      flags: int)
    requires IsTree(mem, tree, levels, root) && p in tree && |p| == levels - 2 && 0 <= i < 512
    requires 0 <= tree[p] < |mem| && !Present(Word(mem, tree[p], i)) && 0 <= g < |mem| && Outside(tree, g)
    requires IsFlags(flags) && Present(flags) && !LargeBit(flags)
    ensures SameWalks(mem, Write(mem, tree[p], i, Entry(g, flags)), levels, root) <==> Clean(mem, g)
  {
    var mem' := Write(mem, tree[p], i, Entry(g, flags));
    if Clean(mem, g) {
      AttachWrite(mem, tree, levels, root, p, i, g, flags);
    } else {
      var k :| 0 <= k < 512 && Present(mem[g][k]);
      var q := p + [i, k];
      StaleWalk(mem, tree, levels, root, p, i, g, flags, k);
      assert Walk(mem, root, q, NO_ENTRIES) != Walk(mem', root, q, NO_ENTRIES);
    }
  }

  /** The page at slot k of the new table is found in g's old word, and was not mapped before. */
  lemma {:induction false} StaleWalk(mem: Memory, tree: Tree, levels: nat, root: int, p: Path, i: int, g: int,
                                     flags: int, k: int)
    requires IsTree(mem, tree, levels, root) && p in tree && |p| == levels - 2 && 0 <= i < 512
    requires 0 <= tree[p] < |mem| && !Present(Word(mem, tree[p], i)) && 0 <= g < |mem| && Outside(tree, g)
    requires IsFlags(flags) && Present(flags) && !LargeBit(flags) && 0 <= k < 512 && Present(mem[g][k])
    ensures PathOk(p + [i, k]) && Walk(mem, root, p + [i, k], NO_ENTRIES) == NotPresent
    ensures var mem' := Write(mem, tree[p], i, Entry(g, flags));
            MemoryOk(mem') && Walk(mem', root, p + [i, k], NO_ENTRIES).Page?
            && Walk(mem', root, p + [i, k], NO_ENTRIES).frame == FrameOf(mem[g][k])
  {
    var q, mem', d := p + [i, k], Write(mem, tree[p], i, Entry(g, flags)), |p|;
    assert PathOk(q) by { assert PathOk(p); }
    assert q[..d] == p && q[d..] == [i, k] && q[d..][1..] == [k];
    forall j | 0 <= j <= d ensures q[..j] in tree {
      PrefixInTree(mem, tree, levels, root, p, j);
      assert p[..j] == q[..j];
    }
    WalkReaches(mem, tree, levels, root, q, d);
    EntryParts(g, flags);
    WriteWord(mem, tree[p], i, Entry(g, flags), tree[p], i);
    WriteWord(mem, tree[p], i, Entry(g, flags), g, k);
    ReachAfterWrite(mem, tree, levels, root, p, i, Entry(g, flags), q, d);
    hide Entry;
  }

  /** A write to slot i of table p leaves the way to p as it was. */
  lemma {:induction false} ReachAfterWrite(mem: Memory, tree: Tree, levels: nat, root: int, p: Path, i: int, w: int,
                                           q: Path, d: nat)
    requires IsTree(mem, tree, levels, root) && p in tree && 0 <= i < 512 && 0 <= tree[p] < |mem|
    requires PathOk(q) && |q| == levels && d <= |p| < |q| && p <= q
    ensures MemoryOk(Write(mem, tree[p], i, w)) && forall k :: 0 <= k <= d ==> q[..k] in tree
    ensures Walk(Write(mem, tree[p], i, w), root, q, NO_ENTRIES)
         == Walk(Write(mem, tree[p], i, w), tree[q[..d]], q[d..], PassedRw(mem, tree, q, d))
  {
    hide Covered, LargeBit, Present, FrameOf, Writable;
    var mem' := Write(mem, tree[p], i, w);
    if d == 0 {
      assert q[0..] == q && q[..0] == [];
    } else {
      ReachAfterWrite(mem, tree, levels, root, p, i, w, q, d - 1);
      PrefixInTree(mem, tree, levels, root, p, d);
      assert p[..d] == q[..d];
      WalkOne(mem, tree, levels, root, p, i, w, q, d - 1, PassedRw(mem, tree, q, d - 1));
    }
  }

  lemma {:induction false} WalkOne(mem: Memory, tree: Tree, levels: nat, root: int, p: Path, i: int, w: int, q: Path,
                                   d: nat, rw: Rights)
    requires IsTree(mem, tree, levels, root) && p in tree && 0 <= i < 512 && 0 <= tree[p] < |mem|
    requires PathOk(q) && |q| == levels && d < |p| < |q| && q[..d] in tree && q[..d + 1] in tree
    ensures MemoryOk(Write(mem, tree[p], i, w)) && 0 <= tree[q[..d]] < |mem|
    ensures Walk(Write(mem, tree[p], i, w), tree[q[..d]], q[d..], rw)
         == Walk(Write(mem, tree[p], i, w), tree[q[..d + 1]], q[d + 1..], Pass(rw, Word(mem, tree[q[..d]], q[d])))
  {
    assert Hung(mem, tree, q[..d + 1]) && Parent(q[..d + 1]) == q[..d] && Last(q[..d + 1]) == q[d];
    assert tree[q[..d]] != tree[p];
    WriteWord(mem, tree[p], i, w, tree[q[..d]], q[d]);
    assert q[d..][0] == q[d] && q[d..][1..] == q[d + 1..];
  }

  /** The same flags go into every entry on the way, and in an upper level bit 7 ends the walk, at a large page
      in the second and third level from the bottom and at a reserved bit above: hanging a table in, the
      pages below it can be reached through it exactly when the flags leave that bit clear. */
  lemma {:induction false} LargeLink(mem: Memory, tree: Tree, levels: nat, root: int, p: Path, i: int, g: int,
                                     flags: int, q: Path)
    requires IsTree(mem, tree, levels, root) && p in tree && |p| < levels - 1 && 0 <= i < 512 && 0 <= tree[p] < |mem|
    requires IsFrame(g) && IsFlags(flags) && Present(flags) && PathOk(q) && |q| == levels && p + [i] <= q
    ensures MemoryOk(Write(mem, tree[p], i, Entry(g, flags))) && forall k :: 0 <= k <= |p| ==> q[..k] in tree
    ensures Walk(Write(mem, tree[p], i, Entry(g, flags)), root, q, NO_ENTRIES)
         == if LargeBit(flags) then LargeAt(levels - |p|)
            else Walk(Write(mem, tree[p], i, Entry(g, flags)), g, q[|p| + 1..],
                      Pass(PassedRw(mem, tree, q, |p|), flags))
  {
    var d := |p|;
    EntryParts(g, flags);
    ReachAfterWrite(mem, tree, levels, root, p, i, Entry(g, flags), q, d);
    WriteWord(mem, tree[p], i, Entry(g, flags), tree[p], i);
    assert q[..d] == p && q[d] == i && q[d..][0] == q[d] && q[d..][1..] == q[d + 1..];
    hide Entry;
  }
}
