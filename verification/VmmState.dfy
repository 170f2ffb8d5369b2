/**
 The page tables together with the frames they are allocated from: the invariant the virtual
 memory manager keeps, and what hanging in one table, or writing one entry, does to it.
 */
module VmmState {
  import opened PageTables
  import opened PageFrames

  /** Frames not in use hold no present entry. New tables are not cleared by the kernel, so this is
      what it relies on. */
  ghost predicate FreeFramesClean(mem: Memory, s: Frames) {
    FramesOk(s) && forall f :: 0 <= f < s.pages && !s.used[f] ==> Clean(mem, f)
  }

  /** The tables form a tree of frames in use. */
  ghost predicate VmOk(mem: Memory, tree: Tree, levels: nat, root: int, s: Frames) {
    && IsTree(mem, tree, levels, root) && s.pages <= |mem|
    && FreeFramesClean(mem, s)
    && (forall p {:trigger tree[p]} :: p in tree ==> tree[p] < |s.used| && s.used[tree[p]])
  }

  /** The flags in the entry a table hangs off. */
  ghost function LinkFlags(mem: Memory, tree: Tree, p: Path): int
    requires MemoryOk(mem)
  {
    if p != [] && Parent(p) in tree && 0 <= tree[Parent(p)] < |mem| && 0 <= Last(p) < 512
    then FlagsOf(Word(mem, tree[Parent(p)], Last(p))) else 0
  }

  /** The tree grew by new tables hung in with the given flags, one frame each; nothing else about it changed. */
  ghost predicate Grown(mem: Memory, tree: Tree, s: Frames, mem': Memory, tree': Tree, s': Frames, flags: int) {
    && MemoryOk(mem) && MemoryOk(mem') && |mem| == |mem'|
    && (forall p {:trigger p in tree} :: p in tree ==>
          p in tree' && tree'[p] == tree[p] && LinkFlags(mem', tree', p) == LinkFlags(mem, tree, p))
    && (forall p {:trigger p in tree'} :: p in tree' && p !in tree ==> LinkFlags(mem', tree', p) == flags)
    && Spent(s, s', |tree'| - |tree|)
  }

  lemma {:induction false} GrownRefl(mem: Memory, tree: Tree, s: Frames, flags: int)
    requires MemoryOk(mem) && FramesOk(s)
    ensures Grown(mem, tree, s, mem, tree, s, flags)
  {
    hide Spent, LinkFlags;
    SpendNone(s);
  }

  lemma {:induction false} GrownTrans(mem: Memory, tree: Tree, s: Frames, mem1: Memory, tree1: Tree, s1: Frames,
                                      mem2: Memory, tree2: Tree, s2: Frames, flags: int)
    requires Grown(mem, tree, s, mem1, tree1, s1, flags) && Grown(mem1, tree1, s1, mem2, tree2, s2, flags)
    ensures Grown(mem, tree, s, mem2, tree2, s2, flags)
  {
    hide LinkFlags, Spent;
    SpentTrans(s, s1, s2, |tree1| - |tree|, |tree2| - |tree1|);
  }

  lemma {:induction false} SameWalksTrans(mem: Memory, mem1: Memory, mem2: Memory, levels: nat, root: int)
    requires SameWalks(mem, mem1, levels, root) && SameWalks(mem1, mem2, levels, root)
    ensures SameWalks(mem, mem2, levels, root)
  {
    hide Walk;
  }

  /** The frame the allocator serves next is clean and in no table. */
  lemma {:induction false} ServedFrame(mem: Memory, tree: Tree, levels: nat, root: int, s: Frames)
    requires VmOk(mem, tree, levels, root, s) && CanServe(s, 1)
    ensures var f := Served(s, 1);
            0 < f < s.pages && f + 1 <= |s.used| && !s.used[f]
            && Clean(mem, f) && (forall r :: r in tree ==> tree[r] != f)
            && Taken(s, 1).used == s.used[f := true] && FramesOk(Taken(s, 1))
  {
    ServeOne(s, 1);
  }

  /** Frames in use may be written freely: free ones stay clean. */
  lemma {:induction false} StillClean(mem: Memory, s: Frames, f: int, i: int, w: int, s': Frames)
    requires FreeFramesClean(mem, s) && MemoryOk(mem) && s.pages <= |mem| && 0 <= f < |mem| && 0 <= i < 512
    requires FramesOk(s') && s'.pages == s.pages && |s'.used| == |s.used|
    requires forall g :: 0 <= g < |s.used| && s.used[g] ==> s'.used[g]
    requires f < |s.used| && s'.used[f]
    ensures FreeFramesClean(Write(mem, f, i, w), s')
  {
    forall g | 0 <= g < s'.pages && !s'.used[g] ensures Clean(Write(mem, f, i, w), g) {
      assert Clean(mem, g);
    }
  }

  /** Hanging the served frame into an empty upper-level entry. */
  lemma {:induction false} AttachOk(mem: Memory, tree: Tree, levels: nat, root: int, s: Frames, p: Path, i: int,
                                    flags: int)
    requires VmOk(mem, tree, levels, root, s) && CanServe(s, 1)
    requires p in tree && |p| < levels - 1 && 0 <= i < 512 && !Present(Word(mem, tree[p], i))
    requires IsFlags(flags) && Present(flags) && !LargeBit(flags)
    ensures var f := Served(s, 1);
            f >= 0 && f + 1 <= |s.used| && p + [i] !in tree
            && var mem', tree' := Write(mem, tree[p], i, Entry(f, flags)), tree[p + [i] := f];
            VmOk(mem', tree', levels, root, Taken(s, 1))
            && SameWalks(mem, mem', levels, root)
            && Grown(mem, tree, s, mem', tree', Taken(s, 1), flags)
  {
    ServedFrame(mem, tree, levels, root, s);
    var f := Served(s, 1);
    var mem', tree', s' := Write(mem, tree[p], i, Entry(f, flags)), tree[p + [i] := f], Taken(s, 1);
    assert s'.pages == s.pages;
    AttachWrite(mem, tree, levels, root, p, i, f, flags);
    StillClean(mem, s, tree[p], i, Entry(f, flags), s');
    assert VmOk(mem', tree', levels, root, s') by { hide FreeFramesClean, IsTree, Served, Taken; }
    AttachGrows(mem, tree, levels, root, s, p, i, flags, f);
  }

  lemma {:induction false} AttachGrows(mem: Memory, tree: Tree, levels: nat, root: int, s: Frames, p: Path, i: int,
                                       flags: int, f: int)
    requires VmOk(mem, tree, levels, root, s) && CanServe(s, 1) && f == Served(s, 1) && f >= 0 && f + 1 <= |s.used|
    requires p in tree && |p| < levels - 1 && 0 <= i < 512 && p + [i] !in tree && IsFrame(f) && IsFlags(flags)
    ensures Grown(mem, tree, s, Write(mem, tree[p], i, Entry(f, flags)), tree[p + [i] := f], Taken(s, 1), flags)
  {
    hide LinkFlags, ClearIn, Served, Taken, Entry, IsTree, CanServe, FreeFramesClean;
    TreeAt(mem, tree, levels, root, s, p);
    var mem', n := Write(mem, tree[p], i, Entry(f, flags)), p + [i];
    OneMoreTable(tree, n, f);
    OneSpent(s);
    AttachLinks(mem, tree, levels, root, p, i, flags, f);
  }

  lemma {:induction false} TreeAt(mem: Memory, tree: Tree, levels: nat, root: int, s: Frames, p: Path)
    requires VmOk(mem, tree, levels, root, s) && p in tree
    ensures IsTree(mem, tree, levels, root) && MemoryOk(mem) && FramesOk(s) && 0 <= tree[p] < |mem|
    ensures |mem[tree[p]]| == 512
  {
  }

  lemma {:induction false} OneSpent(s: Frames)
    requires CanServe(s, 1)
    ensures FramesOk(s) && Served(s, 1) >= 0 && Served(s, 1) + 1 <= |s.used| && Spent(s, Taken(s, 1), 1)
  {
    hide CanServe, Served, Taken, Spent;
    SpendOne(s, 1);
  }

  lemma {:induction false} OneMoreTable(tree: Tree, n: Path, f: int)
    requires n !in tree
    ensures |tree[n := f]| == |tree| + 1 && tree[n := f].Keys == tree.Keys + {n}
  {
    assert tree[n := f].Keys == tree.Keys + {n};
  }

  lemma {:induction false} AttachLinks(mem: Memory, tree: Tree, levels: nat, root: int, p: Path, i: int, flags: int,
                                       f: int)
    requires IsTree(mem, tree, levels, root)
    requires p in tree && 0 <= i < 512 && p + [i] !in tree && IsFrame(f) && IsFlags(flags)
    ensures var mem', n := Write(mem, tree[p], i, Entry(f, flags)), p + [i];
            MemoryOk(mem') && LinkFlags(mem', tree[n := f], n) == flags
            && forall r :: r in tree ==> LinkFlags(mem', tree[n := f], r) == LinkFlags(mem, tree, r)
  {
    var w, n := Entry(f, flags), p + [i];
    var mem', tree' := Write(mem, tree[p], i, w), tree[n := f];
    WriteWord(mem, tree[p], i, w, tree[p], i);
    assert Parent(n) == p && Last(n) == i;
    EntryParts(f, flags);
    hide Entry, Links;
    forall r | r in tree ensures LinkFlags(mem', tree', r) == LinkFlags(mem, tree, r) {
      assert Hung(mem, tree, r);
      if r != [] {
        assert r == Parent(r) + [Last(r)];
        WriteWord(mem, tree[p], i, w, tree[Parent(r)], Last(r));
      }
    }
  }

  /** Writing a last-level entry leaves the invariant, the tree and every other page alone. */
  lemma {:induction false} LeafOk(mem: Memory, tree: Tree, levels: nat, root: int, s: Frames, q: Path, w: int,
                                  flags: int)
    requires VmOk(mem, tree, levels, root, s) && PathOk(q) && |q| == levels && q[..levels - 1] in tree
    ensures var mem' := Write(mem, tree[q[..levels - 1]], q[levels - 1], w);
            VmOk(mem', tree, levels, root, s) && Grown(mem, tree, s, mem', tree, s, flags)
            && OnlyPage(mem, mem', levels, root, q)
            && Walk(mem', root, q, NO_ENTRIES)
               == (if Present(w) then Page(FrameOf(w), FlagsOf(w), PathRights(mem', tree, levels, root, q, w))
                   else NotPresent)
  {
    var p, i := q[..levels - 1], q[levels - 1];
    var mem' := Write(mem, tree[p], i, w);
    LeafWrite(mem, tree, levels, root, q, w);
    StillClean(mem, s, tree[p], i, w, s);
    RwKept(mem, tree, levels, root, p, i, w, q, levels - 1);
    LeafLinks(mem, tree, levels, root, p, i, w);
    hide Walk, PassedRw, IsTree, LinkFlags, FreeFramesClean, Clean;
  }

  /** All walks but the one along q are the same. */
  ghost predicate OnlyPage(mem: Memory, mem': Memory, levels: nat, root: int, q: Path) {
    MemoryOk(mem) && MemoryOk(mem')
    && forall q' :: PathOk(q') && |q'| == levels && q' != q && q' != [] ==>
         Walk(mem', root, q', NO_ENTRIES) == Walk(mem, root, q', NO_ENTRIES)
  }

  /** The read/write bits of all tables on the way along q and of the entry w at its end. */
  ghost function PathRights(mem: Memory, tree: Tree, levels: nat, root: int, q: Path, w: int): Rights
    requires IsTree(mem, tree, levels, root) && PathOk(q) && |q| == levels
  {
    if forall k :: 0 <= k < levels ==> q[..k] in tree then Pass(PassedRw(mem, tree, q, levels - 1), w) else NO_ENTRIES
  }

  lemma {:induction false} LeafLinks(mem: Memory, tree: Tree, levels: nat, root: int, p: Path, i: int, w: int)
    requires IsTree(mem, tree, levels, root) && p in tree && |p| == levels - 1 && 0 <= i < 512
    ensures MemoryOk(Write(mem, tree[p], i, w))
    ensures forall r :: r in tree ==> LinkFlags(Write(mem, tree[p], i, w), tree, r) == LinkFlags(mem, tree, r)
  {
    WriteWord(mem, tree[p], i, w, tree[p], i);
    forall r | r in tree ensures LinkFlags(Write(mem, tree[p], i, w), tree, r) == LinkFlags(mem, tree, r) {
      assert Hung(mem, tree, r);
      if r != [] {
        assert |Parent(r)| == |r| - 1 && tree[r] >= 0;
        WriteWord(mem, tree[p], i, w, tree[Parent(r)], Last(r));
      }
    }
  }

  /** If all tables on the way are hung in with the same read/write bit, the walk passes just that bit. */
  lemma {:induction false} UniformRights(mem: Memory, tree: Tree, levels: nat, root: int, q: Path, d: nat, flags: int)
    requires IsTree(mem, tree, levels, root) && PathOk(q) && |q| == levels && 1 <= d < levels
    requires forall k :: 0 <= k < levels ==> q[..k] in tree
    requires forall k :: 1 <= k < levels ==> LinkFlags(mem, tree, q[..k]) == flags
    ensures PassedRw(mem, tree, q, d) == Rights(Writable(flags), Writable(flags))
  {
    var w := Word(mem, tree[q[..d - 1]], q[d - 1]);
    assert Parent(q[..d]) == q[..d - 1] && Last(q[..d]) == q[d - 1];
    assert LinkFlags(mem, tree, q[..d]) == flags;
    WritableFlags(w);
    if d > 1 { UniformRights(mem, tree, levels, root, q, d - 1, flags); }
  }

  lemma {:induction false} WritableFlags(w: int)
    ensures Writable(FlagsOf(w)) == Writable(w)
  {
    var h, l := w / 512, w % 512;
    assert w / 2 == 256 * h + l / 2;
    LowBit(128 * h, l / 2);
  }

  /** Filling an empty upper-level entry with a word that is not present, in frames newly taken. */
  lemma {:induction false} IdleOk(mem: Memory, tree: Tree, levels: nat, root: int, s: Frames, p: Path, i: int, w: int)
    requires VmOk(mem, tree, levels, root, s) && CanServe(s, 1)
    requires p in tree && |p| < levels - 1 && 0 <= i < 512 && !Present(Word(mem, tree[p], i)) && !Present(w)
    ensures var mem', f := Write(mem, tree[p], i, w), Served(s, 1);
            f >= 0 && f + 1 <= |s.used| && VmOk(mem', tree, levels, root, Taken(s, 1))
            && SameWalks(mem, mem', levels, root)
            && Clean(mem', f) && Outside(tree, f) && f < |Taken(s, 1).used| && Taken(s, 1).used[f]
  {
    ServedFrame(mem, tree, levels, root, s);
    IdleWrite(mem, tree, levels, root, p, i, w);
    assert Taken(s, 1).pages == s.pages;
    StillClean(mem, s, tree[p], i, w, Taken(s, 1));
    hide Served, IsTree, FreeFramesClean, Walk, Taken;
  }

  ghost predicate Outside(tree: Tree, f: int) {
    forall r {:trigger tree[r]} :: r in tree ==> tree[r] != f
  }

  /** The same in a frame that is in no table, where nothing can be seen of it. */
  lemma {:induction false} OutsideOk(mem: Memory, tree: Tree, levels: nat, root: int, s: Frames, g: int, i: int, w: int)
    requires VmOk(mem, tree, levels, root, s) && CanServe(s, 1)
    requires Outside(tree, g) && 0 <= g < |mem| && g < |s.used| && s.used[g] && 0 <= i < 512
    ensures var mem', f := Write(mem, g, i, w), Served(s, 1);
            f >= 0 && f + 1 <= |s.used| && VmOk(mem', tree, levels, root, Taken(s, 1))
            && SameWalks(mem, mem', levels, root)
            && Clean(mem', f) && Outside(tree, f) && f < |Taken(s, 1).used| && Taken(s, 1).used[f]
  {
    ServedFrame(mem, tree, levels, root, s);
    OutsideWrite(mem, tree, levels, root, g, i, w);
    assert Taken(s, 1).pages == s.pages;
    StillClean(mem, s, g, i, w, Taken(s, 1));
    hide Served, IsTree, FreeFramesClean, Walk, Taken;
  }

  /** A write outside the tree that takes no frame. */
  lemma {:induction false} LostOk(mem: Memory, tree: Tree, levels: nat, root: int, s: Frames, g: int, i: int, w: int)
    requires VmOk(mem, tree, levels, root, s)
    requires Outside(tree, g) && 0 <= g < |mem| && g < |s.used| && s.used[g] && 0 <= i < 512
    ensures VmOk(Write(mem, g, i, w), tree, levels, root, s) && SameWalks(mem, Write(mem, g, i, w), levels, root)
  {
    OutsideWrite(mem, tree, levels, root, g, i, w);
    StillClean(mem, s, g, i, w, s);
    hide IsTree, FreeFramesClean, Walk;
  }

  /** A page whose tables do not all exist is not mapped. */
  lemma {:induction false} MissingTable(mem: Memory, tree: Tree, levels: nat, root: int, q: Path, d: nat)
    requires IsTree(mem, tree, levels, root) && PathOk(q) && |q| == levels
    requires d < levels - 1 && q[..d] in tree && q[..d + 1] !in tree
    ensures Walk(mem, root, q, NO_ENTRIES) == NotPresent
  {
    forall k | 0 <= k <= d ensures q[..k] in tree {
      PrefixInTree(mem, tree, levels, root, q[..d], k);
      assert q[..d][..k] == q[..k];
    }
    WalkReaches(mem, tree, levels, root, q, d);
    assert Covered(mem, tree, levels, q[..d]);
    assert q[..d] + [q[d]] == q[..d + 1];
    assert q[d..][0] == q[d];
  }

  /** How many tables from depth d + 1 on are missing along q. */
  ghost function Missing(tree: Tree, q: Path, d: nat): (n: nat)
    decreases |q| - d
  {
    if d + 1 >= |q| then 0 else (if q[..d + 1] in tree then 0 else 1) + Missing(tree, q, d + 1)
  }

  lemma {:induction false} MissingKept(tree: Tree, tree': Tree, q: Path, d: nat, p: Path)
    requires tree'.Keys == tree.Keys + {p} && |p| <= d
    ensures Missing(tree', q, d) == Missing(tree, q, d)
    decreases |q| - d
  {
    if d + 1 < |q| { MissingKept(tree, tree', q, d + 1, p); }
  }

  lemma {:induction false} ShorterPrefix(mem: Memory, tree: Tree, levels: nat, root: int, q: Path, d: nat)
    requires IsTree(mem, tree, levels, root) && d < |q|
    ensures q[..d + 1] in tree ==> q[..d] in tree
  {
    if q[..d + 1] in tree {
      PrefixInTree(mem, tree, levels, root, q[..d + 1], d);
      assert q[..d + 1][..d] == q[..d];
    }
  }

  /** Below a missing table everything is missing. */
  lemma {:induction false} AllMissing(mem: Memory, tree: Tree, levels: nat, root: int, q: Path, d: nat)
    requires IsTree(mem, tree, levels, root) && |q| == levels && d < levels && q[..d] !in tree
    ensures Missing(tree, q, d) == levels - 1 - d
    decreases levels - d
  {
    if d + 1 < |q| {
      ShorterPrefix(mem, tree, levels, root, q, d);
      AllMissing(mem, tree, levels, root, q, d + 1);
    }
  }

  /** The tables along q. */
  ghost function Tables(q: Path): set<Path> {
    set k | 0 <= k < |q| :: q[..k]
  }

  /** The number of tables once all those along q are there. */
  ghost function CountWith(tree: Tree, q: Path): nat {
    |tree.Keys + Tables(q)|
  }

  /** The tables along q down to depth d are there. */
  ghost predicate Along(tree: Tree, q: Path, d: nat) {
    d < |q| && forall k :: 0 <= k <= d ==> q[..k] in tree
  }

  lemma {:induction false} AlongNext(tree: Tree, q: Path, d: nat)
    requires Along(tree, q, d) && d + 1 < |q|
    ensures if q[..d + 1] in tree then Along(tree, q, d + 1) else Along(tree[q[..d + 1] := 0], q, d + 1)
  {
  }

  /** Adding the tables along q to a tree adds exactly the missing ones. */
  lemma {:induction false} MissingCount(tree: Tree, q: Path, d: nat)
    requires Along(tree, q, d)
    ensures CountWith(tree, q) == |tree| + Missing(tree, q, d)
    decreases |q| - d
  {
    assert d < |q|;
    hide *;
    if d + 1 >= |q| {
      TablesThere(tree, q, d);
      MissingEnd(tree, q, d);
    } else {
      MissingAt(tree, q, d);
      AlongNext(tree, q, d);
      if q[..d + 1] in tree {
        MissingCount(tree, q, d + 1);
      } else {
        OneMore(tree, q, d + 1);
        MissingCount(tree[q[..d + 1] := 0], q, d + 1);
        MissingKept(tree, tree[q[..d + 1] := 0], q, d + 1, q[..d + 1]);
      }
    }
  }

  lemma {:induction false} OneMore(tree: Tree, q: Path, d: nat)
    requires d < |q| && q[..d] !in tree
    ensures |tree[q[..d] := 0]| == |tree| + 1
    ensures tree[q[..d] := 0].Keys == tree.Keys + {q[..d]}
    ensures CountWith(tree[q[..d] := 0], q) == CountWith(tree, q)
  {
    var n := q[..d];
    var tree' := tree[n := 0];
    assert n in Tables(q) by { TablesHas(q, d); }
    hide Tables;
    OneMoreTable(tree, n, 0);
    assert tree'.Keys + Tables(q) == tree.Keys + Tables(q);
  }

  lemma {:induction false} TablesThere(tree: Tree, q: Path, d: nat)
    requires Along(tree, q, d) && d + 1 >= |q|
    ensures CountWith(tree, q) == |tree|
  {
    assert tree.Keys + Tables(q) == tree.Keys;
  }

  lemma {:induction false} MissingEnd(tree: Tree, q: Path, d: nat)
    requires d + 1 >= |q|
    ensures Missing(tree, q, d) == 0
  {
  }

  lemma {:induction false} TablesHas(q: Path, d: nat)
    requires d < |q|
    ensures q[..d] in Tables(q)
  {
  }

  lemma {:induction false} MissingAt(tree: Tree, q: Path, d: nat)
    requires d + 1 < |q|
    ensures Missing(tree, q, d) == (if q[..d + 1] in tree then 0 else 1) + Missing(tree, q, d + 1)
  {
  }

  function Zeros(): (z: seq<int>)
    ensures |z| == 512 && forall i :: 0 <= i < 512 ==> z[i] == 0
  {
    seq(512, i => 0)
  }
}
