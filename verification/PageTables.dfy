/**
 Page tables as the processor reads them (Intel SDM Vol. 3A section 4.5): a radix tree of
 512-entry tables, walked one index a level. The tree invariant says which frames hold the
 tables, and the lemmas say what one write to a table does to every walk.
 */
module PageTables {

  /** Physical memory, frame by frame, each frame as 512 words. */
  type Memory = seq<seq<int>>

  /** The indices that select an entry at each level, top level first. */
  type Path = seq<int>

  /** The read/write bits met on the way: are they all set, is any set? */
  datatype Rights = Rights(all: bool, any: bool)

  /** What the processor finds: nothing, a large page, a reserved bit that makes it fault, or a frame with its
      flags and the read/write bits on the way to it. A page can be written only if all of them are set. */
  datatype Translation = NotPresent | Large | Reserved | Page(frame: int, flags: int, rw: Rights)

  const NO_ENTRIES: Rights := Rights(true, false)

  function Pass(rw: Rights, w: int): Rights {
    Rights(rw.all && Writable(w), rw.any || Writable(w))
  }

  // ---------------------------------------------------------------- table entries

  predicate Present(w: int) { w % 2 == 1 }

  predicate Writable(w: int) { w / 2 % 2 == 1 }

  /** Bit 7. In the second and third level from the bottom it makes an entry map a large page; above those it is
      reserved. */
  predicate LargeBit(w: int) { w / 128 % 2 == 1 }

  /** Bits 51 to 12. */
  function FrameOf(w: int): int { w / 4096 % 0x100_0000_0000 }

  function FlagsOf(w: int): int { w % 512 }

  /** An entry for a frame: frame address plus nine flag bits. */
  function Entry(frame: int, flags: int): int { 4096 * frame + flags }

  predicate IsFrame(f: int) { 0 <= f < 0x100_0000_0000 }

  predicate IsFlags(fl: int) { 0 <= fl < 512 }

  lemma {:induction false} EntryParts(frame: int, flags: int)
    requires IsFrame(frame) && IsFlags(flags)
    ensures FrameOf(Entry(frame, flags)) == frame && FlagsOf(Entry(frame, flags)) == flags
    ensures Present(Entry(frame, flags)) == Present(flags)
    ensures Writable(Entry(frame, flags)) == Writable(flags)
    ensures LargeBit(Entry(frame, flags)) == LargeBit(flags)
  {
    EntryFrame(frame, flags);
    EntryLow(frame, flags);
  }

  /** Bit 0 makes an entry present, bit 1 writable, bit 7 large; bits 51 to 12 are its frame. */
  lemma {:induction false} EntryBits()
    ensures Present(0x1) && !Writable(0x1) && !LargeBit(0x1) && FrameOf(0x1) == 0
    ensures !Present(0x2) && Writable(0x2) && !LargeBit(0x2) && FrameOf(0x2) == 0
    ensures !Present(0x80) && !Writable(0x80) && LargeBit(0x80) && FrameOf(0x80) == 0
    ensures !Present(0xF_FFFF_FFFF_F000) && FrameOf(0xF_FFFF_FFFF_F000) == 0xFF_FFFF_FFFF
    ensures FrameOf(0xFFF0_0000_0000_0FFF) == 0
  {
  }

  lemma {:induction false} EntryFrame(frame: int, flags: int)
    requires IsFrame(frame) && IsFlags(flags)
    ensures Entry(frame, flags) / 4096 == frame && FrameOf(Entry(frame, flags)) == frame
    ensures Entry(frame, flags) % 4096 == flags
  {
  }

  lemma {:induction false} EntryLow(frame: int, flags: int)
    requires IsFrame(frame) && IsFlags(flags)
    ensures var w := Entry(frame, flags);
            w % 512 == flags && w % 2 == flags % 2 && w / 2 % 2 == flags / 2 % 2 && w / 128 % 2 == flags / 128 % 2
  {
    var w := Entry(frame, flags);
    LowBit(2048 * frame, flags);
    assert w / 2 == 2048 * frame + flags / 2;
    LowBit(1024 * frame, flags / 2);
    assert w / 128 == 32 * frame + flags / 128;
    LowBit(16 * frame, flags / 128);
    LowNineBits(8 * frame, flags);
  }

  lemma {:induction false} LowBit(h: int, v: int)
    ensures (2 * h + v) % 2 == v % 2
  {
    assert 2 * h + v == 2 * (h + v / 2) + v % 2;
  }

  lemma {:induction false} LowNineBits(h: int, v: int)
    ensures (512 * h + v) % 512 == v % 512
  {
    assert 512 * h + v == 512 * (h + v / 512) + v % 512;
  }

  // ------------------------------------------------------------------------ walks

  ghost predicate MemoryOk(mem: Memory) {
    forall f :: 0 <= f < |mem| ==> |mem[f]| == 512
  }

  predicate PathOk(q: Path) {
    forall k :: 0 <= k < |q| ==> 0 <= q[k] < 512
  }

  /** The word a table holds at an index. */
  function Word(mem: Memory, frame: int, i: int): int
    requires 0 <= frame < |mem| && |mem[frame]| == 512 && 0 <= i < 512
  {
    mem[frame][i]
  }

  /** What bit 7 means in an entry with the given number of levels from it down, its own included. */
  function LargeAt(levels: nat): Translation {
    if levels <= 3 then Large else Reserved
  }

  /** The processor's walk along q from the table in frame, rw being met so far. */
  ghost function Walk(mem: Memory, frame: int, q: Path, rw: Rights): Translation
    requires MemoryOk(mem) && PathOk(q) && q != []
    decreases |q|
  {
    if !(0 <= frame < |mem|) then NotPresent
    else
      var w := Word(mem, frame, q[0]);
      if !Present(w) then NotPresent
      else if |q| == 1 then Page(FrameOf(w), FlagsOf(w), Pass(rw, w))
      else if LargeBit(w) then LargeAt(|q|)
      else Walk(mem, FrameOf(w), q[1..], Pass(rw, w))
  }

  // ------------------------------------------------------------------- the invariant

  /** The frames of the tables, by the indices that lead to them. */
  type Tree = map<Path, int>

  /** w is the entry of a table in frame g. */
  predicate Links(w: int, g: int) {
    FrameOf(w) == g && w / 4096 == g && w % 4096 < 512 && Present(w) && !LargeBit(w)
  }

  function Parent(p: Path): Path
    requires p != []
  {
    p[..|p| - 1]
  }

  function Last(p: Path): int
    requires p != []
  {
    p[|p| - 1]
  }

  /** Every table but the root hangs off the entry its last index selects in its parent. */
  ghost predicate Hung(mem: Memory, tree: Tree, p: Path)
    requires MemoryOk(mem)
  {
    p != [] ==> Parent(p) in tree && 0 <= Last(p) < 512 && 0 <= tree[Parent(p)] < |mem|
                && p in tree && Links(Word(mem, tree[Parent(p)], Last(p)), tree[p])
  }

  /** Every present entry of an upper-level table leads to a table of the tree. */
  ghost predicate Covered(mem: Memory, tree: Tree, levels: nat, p: Path)
    requires MemoryOk(mem)
  {
    p in tree && 0 <= tree[p] < |mem| && |p| < levels - 1 ==>
      forall i :: 0 <= i < 512 && Present(Word(mem, tree[p], i)) ==> p + [i] in tree
  }

  /** The tables form a tree of the given number of levels in which no frame occurs twice. */
  ghost predicate IsTree(mem: Memory, tree: Tree, levels: nat, root: int) {
    && MemoryOk(mem) && |mem| <= 0x100_0000_0000 && levels >= 2
    && [] in tree && tree[[]] == root
    && (forall p {:trigger tree[p]} :: p in tree ==> |p| < levels && PathOk(p) && 0 <= tree[p] < |mem|)
    && (forall p {:trigger Hung(mem, tree, p)} :: p in tree ==> Hung(mem, tree, p))
    && (forall p {:trigger Covered(mem, tree, levels, p)} :: p in tree ==> Covered(mem, tree, levels, p))
    && (forall p, p' {:trigger tree[p], tree[p']} :: p in tree && p' in tree && tree[p] == tree[p'] ==> p == p')
  }

  /** A frame no entry of which is present. */
  ghost predicate Clean(mem: Memory, f: int) {
    0 <= f < |mem| && |mem[f]| == 512 && forall i :: 0 <= i < 512 ==> !Present(mem[f][i])
  }

  function Write(mem: Memory, f: int, i: int, w: int): (m: Memory)
    requires 0 <= f < |mem| && |mem[f]| == 512 && 0 <= i < 512
    ensures |m| == |mem|
  {
    mem[f := mem[f][i := w]]
  }

  lemma {:induction false} WriteWord(mem: Memory, f: int, i: int, w: int, g: int, k: int)
    requires MemoryOk(mem) && 0 <= f < |mem| && 0 <= i < 512 && 0 <= g < |mem| && 0 <= k < 512
    ensures MemoryOk(Write(mem, f, i, w))
    ensures Word(Write(mem, f, i, w), g, k) == if g == f && k == i then w else Word(mem, g, k)
  {
  }

  // ------------------------------------------------------------- walks in the tree

  /** The read/write bits of the first d entries on the way along q. */
  ghost function PassedRw(mem: Memory, tree: Tree, q: Path, d: nat): Rights
    requires MemoryOk(mem) && PathOk(q) && d <= |q|
    requires forall k :: 0 <= k < d ==> q[..k] in tree && 0 <= tree[q[..k]] < |mem|
  {
    if d == 0 then NO_ENTRIES else Pass(PassedRw(mem, tree, q, d - 1), Word(mem, tree[q[..d - 1]], q[d - 1]))
  }

  /** Prefixes of a path in the tree are in the tree. */
  lemma {:induction false} PrefixInTree(mem: Memory, tree: Tree, levels: nat, root: int, p: Path, k: nat)
    requires IsTree(mem, tree, levels, root) && p in tree && k <= |p|
    ensures p[..k] in tree
    decreases |p| - k
  {
    if k == |p| {
      assert p[..k] == p;
    } else {
      PrefixInTree(mem, tree, levels, root, p, k + 1);
      assert Hung(mem, tree, p[..k + 1]);
      assert Parent(p[..k + 1]) == p[..k];
    }
  }

  /** A walk reaches every table on its way. */
  lemma {:induction false} WalkReaches(mem: Memory, tree: Tree, levels: nat, root: int, q: Path, d: nat)
    requires IsTree(mem, tree, levels, root) && PathOk(q) && d < |q|
    requires forall k :: 0 <= k <= d ==> q[..k] in tree
    ensures Walk(mem, root, q, NO_ENTRIES) == Walk(mem, tree[q[..d]], q[d..], PassedRw(mem, tree, q, d))
  {
    if d == 0 {
      assert q[..0] == [] && q[0..] == q;
    } else {
      WalkReaches(mem, tree, levels, root, q, d - 1);
      var p := q[..d];
      assert Hung(mem, tree, p) && Parent(p) == q[..d - 1] && Last(p) == q[d - 1];
      assert q[d - 1..][1..] == q[d..];
    }
  }

  // ------------------------------------------------------------- one write, all walks

  /** Following w with steps still to go finds nothing. */
  ghost predicate LeadsNowhere(mem: Memory, w: int, steps: nat) {
    !Present(w) || (steps >= 1 && !LargeBit(w) && Clean(mem, FrameOf(w)))
  }

  /** A write to slot i of table p changes no walk but those through the slot, and not even
      those if nothing was there and nothing can be found there now. */
  lemma {:induction false} WalkUnchanged(mem: Memory, tree: Tree, levels: nat, root: int, p: Path, i: int, w: int,
                                         q: Path, d: nat, rw: Rights)
    requires IsTree(mem, tree, levels, root) && p in tree && 0 <= i < 512
    requires PathOk(q) && |q| == levels && d < levels && q[..d] in tree
    requires !(p + [i] <= q)
             || (!Present(Word(mem, tree[p], i)) && LeadsNowhere(Write(mem, tree[p], i, w), w, levels - |p| - 1))
    ensures MemoryOk(Write(mem, tree[p], i, w))
    ensures Walk(Write(mem, tree[p], i, w), tree[q[..d]], q[d..], rw) == Walk(mem, tree[q[..d]], q[d..], rw)
    decreases levels - d
  {
    hide Present, LargeBit, FrameOf, FlagsOf, Pass;
    var mem', f := Write(mem, tree[p], i, w), tree[q[..d]];
    WriteWord(mem, tree[p], i, w, f, q[d]);
    assert q[d..][0] == q[d] && q[d..][1..] == q[d + 1..];
    var v := Word(mem, f, q[d]);
    if f == tree[p] && q[d] == i {
      assert q[..d] == p && p + [i] == q[..d + 1] <= q;
      if Present(w) {
        CleanWalk(mem', FrameOf(w), q[d + 1..], Pass(rw, w));
      }
    } else if Present(v) && d < levels - 1 {
      assert Covered(mem, tree, levels, q[..d]);
      assert q[..d] + [q[d]] == q[..d + 1];
      assert Hung(mem, tree, q[..d + 1]) && Parent(q[..d + 1]) == q[..d];
      WalkUnchanged(mem, tree, levels, root, p, i, w, q, d + 1, Pass(rw, v));
    }
  }

  lemma {:induction false} CleanWalk(mem: Memory, f: int, q: Path, rw: Rights)
    requires MemoryOk(mem) && PathOk(q) && q != [] && Clean(mem, f)
    ensures Walk(mem, f, q, rw) == NotPresent
  {
  }

  /** Filling the last-level entry of a page whose tables exist maps that page and no other. */
  lemma {:induction false} LeafWrite(mem: Memory, tree: Tree, levels: nat, root: int, q: Path, w: int)
    requires IsTree(mem, tree, levels, root) && PathOk(q) && |q| == levels && q[..levels - 1] in tree
    ensures forall k :: 0 <= k < levels ==> q[..k] in tree
    ensures var mem' := Write(mem, tree[q[..levels - 1]], q[levels - 1], w);
            IsTree(mem', tree, levels, root)
            && Walk(mem', root, q, NO_ENTRIES)
               == (if Present(w) then Page(FrameOf(w), FlagsOf(w), Pass(PassedRw(mem, tree, q, levels - 1), w))
                   else NotPresent)
            && forall q' :: PathOk(q') && |q'| == levels && q' != q ==>
                 Walk(mem', root, q', NO_ENTRIES) == Walk(mem, root, q', NO_ENTRIES)
  {
    var d := levels - 1;
    var p, i := q[..d], q[d];
    var mem' := Write(mem, tree[p], i, w);
    forall k | 0 <= k < levels ensures q[..k] in tree {
      PrefixInTree(mem, tree, levels, root, p, k);
      assert p[..k] == q[..k];
    }
    TreeKept(mem, tree, levels, root, p, i, w);
    RwKept(mem, tree, levels, root, p, i, w, q, d);
    WalkReaches(mem', tree, levels, root, q, d);
    WriteWord(mem, tree[p], i, w, tree[p], i);
    assert q[d..] == [i];
    forall q' | PathOk(q') && |q'| == levels && q' != q
      ensures Walk(mem', root, q', NO_ENTRIES) == Walk(mem, root, q', NO_ENTRIES)
    {
      assert p + [i] == q;
      assert q'[..0] == [] && q'[0..] == q';
      WalkUnchanged(mem, tree, levels, root, p, i, w, q', 0, NO_ENTRIES);
    }
  }

  /** Rewriting a last-level entry, or an upper-level one that was and stays not present, keeps the tree. */
  lemma {:induction false} TreeKept(mem: Memory, tree: Tree, levels: nat, root: int, p: Path, i: int, w: int)
    requires IsTree(mem, tree, levels, root) && p in tree && 0 <= i < 512
    requires |p| == levels - 1 || (!Present(Word(mem, tree[p], i)) && !Present(w))
    ensures IsTree(Write(mem, tree[p], i, w), tree, levels, root)
  {
    var mem' := Write(mem, tree[p], i, w);
    WriteWord(mem, tree[p], i, w, tree[p], i);
    forall r | r in tree ensures Hung(mem', tree, r) {
      assert Hung(mem, tree, r);
      if r != [] { WriteWord(mem, tree[p], i, w, tree[Parent(r)], Last(r)); }
    }
    forall r | r in tree ensures Covered(mem', tree, levels, r) {
      assert Covered(mem, tree, levels, r);
      forall k | 0 <= k < 512 && |r| < levels - 1 && Present(Word(mem', tree[r], k)) ensures r + [k] in tree {
        WriteWord(mem, tree[p], i, w, tree[r], k);
      }
    }
  }

  lemma {:induction false} RwKept(mem: Memory, tree: Tree, levels: nat, root: int, p: Path, i: int, w: int, q: Path,
                                  d: nat)
    requires IsTree(mem, tree, levels, root) && p in tree && 0 <= i < 512 && |p| == levels - 1
    requires PathOk(q) && |q| == levels && d < levels && forall k :: 0 <= k < levels ==> q[..k] in tree
    ensures MemoryOk(Write(mem, tree[p], i, w))
    ensures PassedRw(Write(mem, tree[p], i, w), tree, q, d) == PassedRw(mem, tree, q, d)
  {
    if d > 0 {
      RwKept(mem, tree, levels, root, p, i, w, q, d - 1);
      WriteWord(mem, tree[p], i, w, tree[q[..d - 1]], q[d - 1]);
    }
  }

  /** Filling a not present upper-level entry with another not present word changes nothing. */
  lemma {:induction false} IdleWrite(mem: Memory, tree: Tree, levels: nat, root: int, p: Path, i: int, w: int)
    requires IsTree(mem, tree, levels, root) && p in tree && |p| < levels - 1 && 0 <= i < 512
    requires !Present(Word(mem, tree[p], i)) && !Present(w)
    ensures IsTree(Write(mem, tree[p], i, w), tree, levels, root)
    ensures SameWalks(mem, Write(mem, tree[p], i, w), levels, root)
  {
    TreeKept(mem, tree, levels, root, p, i, w);
    forall q | PathOk(q) && |q| == levels
      ensures Walk(Write(mem, tree[p], i, w), root, q, NO_ENTRIES) == Walk(mem, root, q, NO_ENTRIES)
    {
      assert q[..0] == [] && q[0..] == q;
      WalkUnchanged(mem, tree, levels, root, p, i, w, q, 0, NO_ENTRIES);
    }
  }

  ghost predicate SameWalks(mem: Memory, mem': Memory, levels: nat, root: int) {
    MemoryOk(mem) && MemoryOk(mem')
    && forall q :: PathOk(q) && |q| == levels && q != [] ==>
         Walk(mem', root, q, NO_ENTRIES) == Walk(mem, root, q, NO_ENTRIES)
  }

  /** Hanging a clean frame into a not present upper-level entry grows the tree by one table
      and changes no walk. */
  lemma {:induction false} AttachWrite(mem: Memory, tree: Tree, levels: nat, root: int, p: Path, i: int, g: int,
                                       flags: int)
    requires IsTree(mem, tree, levels, root) && p in tree && |p| < levels - 1 && 0 <= i < 512
    requires !Present(Word(mem, tree[p], i))
    requires Clean(mem, g) && (forall r :: r in tree ==> tree[r] != g)
    requires IsFlags(flags) && Present(flags) && !LargeBit(flags)
    ensures p + [i] !in tree
    ensures IsTree(Write(mem, tree[p], i, Entry(g, flags)), tree[p + [i] := g], levels, root)
    ensures SameWalks(mem, Write(mem, tree[p], i, Entry(g, flags)), levels, root)
  {
    var w := Entry(g, flags);
    var mem' := Write(mem, tree[p], i, w);
    EntryParts(g, flags);
    SlotTaken(mem, tree, levels, root, p + [i]);
    assert Parent(p + [i]) == p && Last(p + [i]) == i;
    AttachKeepsTree(mem, tree, levels, root, p, i, g, flags);
    forall q | PathOk(q) && |q| == levels
      ensures Walk(mem', root, q, NO_ENTRIES) == Walk(mem, root, q, NO_ENTRIES)
    {
      assert q[..0] == [] && q[0..] == q;
      assert Clean(mem', g);
      WalkUnchanged(mem, tree, levels, root, p, i, w, q, 0, NO_ENTRIES);
    }
  }

  /** The slot a table hangs off is present. */
  lemma {:induction false} SlotTaken(mem: Memory, tree: Tree, levels: nat, root: int, n: Path)
    requires IsTree(mem, tree, levels, root) && n != []
    ensures n in tree ==> Parent(n) in tree && 0 <= Last(n) < 512 && 0 <= tree[Parent(n)] < |mem|
                          && Present(Word(mem, tree[Parent(n)], Last(n)))
  {
    if n in tree { assert Hung(mem, tree, n); }
  }

  ghost predicate CanAttach(mem: Memory, tree: Tree, levels: nat, root: int, p: Path, i: int, g: int, flags: int) {
    && IsTree(mem, tree, levels, root) && p in tree && |p| < levels - 1 && 0 <= i < 512
    && 0 <= tree[p] < |mem| && !Present(Word(mem, tree[p], i)) && p + [i] !in tree
    && Clean(mem, g) && (forall r :: r in tree ==> tree[r] != g)
    && IsFlags(flags) && Present(flags) && !LargeBit(flags)
  }

  lemma {:induction false} AttachHung(mem: Memory, tree: Tree, levels: nat, root: int, p: Path, i: int, g: int,
                                      flags: int, r: Path)
    requires CanAttach(mem, tree, levels, root, p, i, g, flags) && (r in tree || r == p + [i])
    ensures var mem' := Write(mem, tree[p], i, Entry(g, flags));
            MemoryOk(mem') && Hung(mem', tree[p + [i] := g], r)
  {
    var w, n := Entry(g, flags), p + [i];
    EntryParts(g, flags);
    EntryFrame(g, flags);
    assert Links(w, g);
    assert Parent(n) == p && Last(n) == i;
    WriteWord(mem, tree[p], i, w, tree[p], i);
    if r != n && r != [] {
      assert Hung(mem, tree, r);
      assert r == Parent(r) + [Last(r)];
      hide Links, Entry;
      WriteWord(mem, tree[p], i, w, tree[Parent(r)], Last(r));
    }
  }

  lemma {:induction false} AttachCovered(mem: Memory, tree: Tree, levels: nat, root: int, p: Path, i: int, g: int,
                                         flags: int, r: Path)
    requires CanAttach(mem, tree, levels, root, p, i, g, flags) && (r in tree || r == p + [i])
    ensures var mem' := Write(mem, tree[p], i, Entry(g, flags));
            MemoryOk(mem') && Covered(mem', tree[p + [i] := g], levels, r)
  {
    var w, n := Entry(g, flags), p + [i];
    var mem', tree' := Write(mem, tree[p], i, w), tree[n := g];
    assert r in tree ==> Covered(mem, tree, levels, r);
    hide Present;
    forall k | 0 <= k < 512 && |r| < levels - 1 && Present(Word(mem', tree'[r], k)) ensures r + [k] in tree' {
      WriteWord(mem, tree[p], i, w, tree'[r], k);
      assert Word(mem, g, k) == mem[g][k];
    }
  }

  lemma {:induction false} AttachBounds(mem: Memory, tree: Tree, levels: nat, root: int, p: Path, i: int, g: int,
                                        flags: int)
    requires CanAttach(mem, tree, levels, root, p, i, g, flags)
    ensures var tree' := tree[p + [i] := g];
            (forall r {:trigger tree'[r]} :: r in tree' ==> |r| < levels && PathOk(r) && 0 <= tree'[r] < |mem|)
            && (forall r, r' {:trigger tree'[r], tree'[r']} :: r in tree' && r' in tree' && tree'[r] == tree'[r'] ==>
                  r == r')
            && [] in tree' && tree'[[]] == root
  {
    hide Hung, Covered, Present;
    assert PathOk(p);
    assert PathOk(p + [i]);
  }

  lemma {:induction false} AttachMemory(mem: Memory, tree: Tree, levels: nat, root: int, p: Path, i: int, g: int,
                                        flags: int)
    requires CanAttach(mem, tree, levels, root, p, i, g, flags)
    ensures levels >= 2 && p in tree && 0 <= tree[p] < |mem| <= 0x100_0000_0000 && |mem[tree[p]]| == 512 && 0 <= i < 512
    ensures MemoryOk(Write(mem, tree[p], i, Entry(g, flags)))
  {
    hide Hung, Covered, Present, Clean, Entry, PathOk;
    WriteWord(mem, tree[p], i, Entry(g, flags), tree[p], i);
  }

  lemma {:induction false} AttachKeepsTree(mem: Memory, tree: Tree, levels: nat, root: int, p: Path, i: int, g: int,
                                           flags: int)
    requires CanAttach(mem, tree, levels, root, p, i, g, flags)
    ensures IsTree(Write(mem, tree[p], i, Entry(g, flags)), tree[p + [i] := g], levels, root)
  {
    hide Hung, Covered, CanAttach, Entry, PathOk, Write, MemoryOk;
    AttachMemory(mem, tree, levels, root, p, i, g, flags);
    var mem', tree' := Write(mem, tree[p], i, Entry(g, flags)), tree[p + [i] := g];
    AttachBounds(mem, tree, levels, root, p, i, g, flags);
    forall r | r in tree' ensures Hung(mem', tree', r) && Covered(mem', tree', levels, r) {
      AttachHung(mem, tree, levels, root, p, i, g, flags, r);
      AttachCovered(mem, tree, levels, root, p, i, g, flags, r);
    }
  }

  /** Writing to a frame outside the tree changes no walk. */
  lemma {:induction false} OutsideWrite(mem: Memory, tree: Tree, levels: nat, root: int, g: int, i: int, w: int)
    requires IsTree(mem, tree, levels, root) && 0 <= g < |mem| && 0 <= i < 512
    requires forall r :: r in tree ==> tree[r] != g
    ensures IsTree(Write(mem, g, i, w), tree, levels, root)
    ensures SameWalks(mem, Write(mem, g, i, w), levels, root)
  {
    var mem' := Write(mem, g, i, w);
    forall r | r in tree ensures Hung(mem', tree, r) { assert Hung(mem, tree, r); }
    forall r | r in tree ensures Covered(mem', tree, levels, r) {
      assert Covered(mem, tree, levels, r);
      forall k | 0 <= k < 512 && |r| < levels - 1 && Present(Word(mem', tree[r], k)) ensures r + [k] in tree {
        assert Word(mem, tree[r], k) == Word(mem', tree[r], k);
      }
    }
    forall q | PathOk(q) && |q| == levels ensures Walk(mem', root, q, NO_ENTRIES) == Walk(mem, root, q, NO_ENTRIES) {
      assert q[..0] == [] && q[0..] == q;
      OutsideWalk(mem, tree, levels, root, g, i, w, q, 0, NO_ENTRIES);
    }
  }

  lemma {:induction false} OutsideWalk(mem: Memory, tree: Tree, levels: nat, root: int, g: int, i: int, w: int,
                                       q: Path, d: nat, rw: Rights)
    requires IsTree(mem, tree, levels, root) && 0 <= g < |mem| && 0 <= i < 512
    requires forall r :: r in tree ==> tree[r] != g
    requires PathOk(q) && |q| == levels && d < levels && q[..d] in tree
    ensures MemoryOk(Write(mem, g, i, w))
    ensures Walk(Write(mem, g, i, w), tree[q[..d]], q[d..], rw) == Walk(mem, tree[q[..d]], q[d..], rw)
    decreases levels - d
  {
    WriteWord(mem, g, i, w, tree[q[..d]], q[d]);
    assert q[d..][0] == q[d] && q[d..][1..] == q[d + 1..];
    var v := Word(mem, tree[q[..d]], q[d]);
    if Present(v) && d < levels - 1 {
      assert Covered(mem, tree, levels, q[..d]);
      assert q[..d] + [q[d]] == q[..d + 1];
      assert Hung(mem, tree, q[..d + 1]) && Parent(q[..d + 1]) == q[..d];
      OutsideWalk(mem, tree, levels, root, g, i, w, q, d + 1, Pass(rw, v));
    }
  }
}
