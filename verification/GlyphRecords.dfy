/**
 The record of a glyph, made of its parts: six header bytes and, for each fragment, where it is drawn and where in
 the font it is described.
 */
module GlyphRecords {
  import opened Addresses
  import opened BitOps

  predicate IsByte(b: int) { 0 <= b < 256 }

  datatype Fragment = Fragment(x: int, y: int, offset: int)

  datatype Record = Record(first: int, width: int, height: int, advanceX: int, advanceY: int, fragments: seq<Fragment>)

  /** A fragment: x, y and its offset, least byte first, in three bytes or in four. */
  function FragmentBytes(f: Fragment, wide: bool): (s: seq<int>)
    ensures |s| == if wide then 6 else 5
  {
    [f.x, f.y, f.offset % 256, f.offset / 256 % 256, f.offset / 65536 % 256]
    + if wide then [f.offset / 16777216] else []
  }

  function FragmentsBytes(fs: seq<Fragment>, wide: bool): seq<int> {
    if fs == [] then [] else FragmentBytes(fs[0], wide) + FragmentsBytes(fs[1..], wide)
  }

  /** Bit 6 of the first byte makes the offsets four bytes long; the second byte counts the fragments. */
  function RecordBytes(r: Record): seq<int> {
    [r.first, |r.fragments|, r.width, r.height, r.advanceX, r.advanceY] + FragmentsBytes(r.fragments, r.first >= 64)
  }

  predicate FragmentOk(f: Fragment, wide: bool) {
    IsByte(f.x) && IsByte(f.y) && 0 <= f.offset < if wide then 0x1_0000_0000 else 0x100_0000
  }

  predicate FragmentsOk(fs: seq<Fragment>, wide: bool) {
    fs == [] || (FragmentOk(fs[0], wide) && FragmentsOk(fs[1..], wide))
  }

  predicate RecordOk(r: Record) {
    0 <= r.first < 128 && |r.fragments| < 256 && IsByte(r.width) && IsByte(r.height) && IsByte(r.advanceX)
    && IsByte(r.advanceY) && FragmentsOk(r.fragments, r.first >= 64)
  }

  predicate AllBytes(b: seq<int>) {
    forall k :: 0 <= k < |b| ==> IsByte(b[k])
  }

  lemma {:induction false} FragmentsLength(fs: seq<Fragment>, wide: bool)
    requires FragmentsOk(fs, wide)
    ensures |FragmentsBytes(fs, wide)| == (if wide then 6 * |fs| else 5 * |fs|) && AllBytes(FragmentsBytes(fs, wide))
  {
    if fs != [] { FragmentsLength(fs[1..], wide); }
  }

  lemma {:induction false} LowByte(q: nat, r: int)
    requires IsByte(r)
    ensures (r + 256 * q) % 256 == r && (r + 256 * q) / 256 == q
  {
  }

  lemma {:induction false} ByteDivisions(v: nat)
    ensures v / 65536 == v / 256 / 256 && v / 16777216 == v / 65536 / 256
  {
  }

  /** Four bytes and the number they are. */
  lemma {:induction false} ByteJoin(a: int, b: int, c: int, d: nat)
    requires IsByte(a) && IsByte(b) && IsByte(c)
    ensures var v := a + 256 * b + 65536 * c + 16777216 * d;
            v % 256 == a && v / 256 % 256 == b && v / 65536 % 256 == c && v / 16777216 == d
  {
    var v := a + 256 * b + 65536 * c + 16777216 * d;
    assert v == a + 256 * (b + 256 * (c + 256 * d));
    LowByte(b + 256 * (c + 256 * d), a);
    LowByte(c + 256 * d, b);
    LowByte(d, c);
    ByteDivisions(v);
  }

  lemma {:induction false} ByteSplit(v: nat)
    ensures v == v % 256 + 256 * (v / 256 % 256) + 65536 * (v / 65536 % 256) + 16777216 * (v / 16777216)
    ensures IsByte(v % 256) && IsByte(v / 256 % 256) && IsByte(v / 65536 % 256)
    ensures v < 0x100_0000 ==> v / 16777216 == 0
    ensures v < 0x1_0000_0000 ==> IsByte(v / 16777216)
  {
    ByteDivisions(v);
    assert v == 256 * (v / 256) + v % 256;
    assert v / 256 == 256 * (v / 256 / 256) + v / 256 % 256;
    assert v / 65536 == 256 * (v / 65536 / 256) + v / 65536 % 256;
  }

  lemma {:induction false} FragmentMade(s: seq<int>, wide: bool) returns (f: Fragment)
    requires |s| == (if wide then 6 else 5) && AllBytes(s)
    ensures FragmentOk(f, wide) && FragmentBytes(f, wide) == s
  {
    var top := if wide then s[5] else 0;
    f := Fragment(s[0], s[1], s[2] + 256 * s[3] + 65536 * s[4] + 16777216 * top);
    ByteJoin(s[2], s[3], s[4], top);
  }

  /** Bytes as many as n fragments have are n fragments. */
  lemma {:induction false} FragmentsMade(s: seq<int>, n: nat, wide: bool) returns (fs: seq<Fragment>)
    requires |s| == (if wide then 6 * n else 5 * n) && AllBytes(s)
    ensures |fs| == n && FragmentsOk(fs, wide) && FragmentsBytes(fs, wide) == s
  {
    hide FragmentOk, FragmentBytes, IsByte;
    fs := [];
    if n > 0 {
      var k := if wide then 6 else 5;
      var f := FragmentMade(s[..k], wide);
      var tail := FragmentsMade(s[k..], n - 1, wide);
      fs := [f] + tail;
      assert fs[1..] == tail && s[..k] + s[k..] == s;
    }
  }

  // --------------------------------------------------------------- reading it back

  /** ((p4 << 16) | (p3 << 8) | p2), and with ((p5 << 24) | ...) the wide form. */
  function OffsetOf(p2: nat, p3: nat, p4: nat): nat {
    BitOr(BitOr(Shl(p4, 16), Shl(p3, 8)), p2)
  }

  function WideOffset(p2: nat, p3: nat, p4: nat, p5: nat): nat {
    BitOr(BitOr(BitOr(Shl(p5, 24), Shl(p4, 16)), Shl(p3, 8)), p2)
  }

  lemma {:induction false} OrAbove(a: nat, b: nat, n: nat)
    requires b < Pow2(n)
    ensures BitOr(Shl(a, n), b) == Shl(a, n) + b
  {
    hide BitOr, Shl, Pow2;
    OrShl(b, a, n);
    OrCommutes(b, Shl(a, n));
  }

  lemma {:induction false} ByteShifts(a: nat)
    ensures Shl(a, 8) == 256 * a && Shl(a, 16) == 65536 * a && Shl(a, 24) == 16777216 * a
    ensures Pow2(8) == 256 && Pow2(16) == 65536 && Pow2(24) == 16777216
  {
    hide Shl, Pow2;
    ShlEight(a);
    ShlShl(a, 8, 8);
    ShlShl(a, 16, 8);
    ShlEight(Shl(a, 8));
    ShlEight(Shl(a, 16));
    ShlOne(8);
    ShlOne(16);
    ShlOne(24);
    ShlEight(1);
    ShlShl(1, 8, 8);
    ShlShl(1, 16, 8);
    ShlEight(Shl(1, 8));
    ShlEight(Shl(1, 16));
  }

  lemma {:induction false} OffsetIs(p2: int, p3: int, p4: int)
    requires IsByte(p2) && IsByte(p3) && IsByte(p4)
    ensures OffsetOf(p2, p3, p4) == p2 + 256 * p3 + 65536 * p4
  {
    hide BitOr, Shl, Pow2;
    ByteShifts(p3);
    ByteShifts(p4);
    OrAbove(p4, Shl(p3, 8), 16);
    ByteShifts(256 * p4 + p3);
    OrAbove(256 * p4 + p3, p2, 8);
  }

  lemma {:induction false} WideOffsetIs(p2: int, p3: int, p4: int, p5: int)
    requires IsByte(p2) && IsByte(p3) && IsByte(p4) && IsByte(p5)
    ensures WideOffset(p2, p3, p4, p5) == p2 + 256 * p3 + 65536 * p4 + 16777216 * p5
  {
    hide BitOr, Shl, Pow2;
    ByteShifts(p3);
    ByteShifts(p4);
    ByteShifts(p5);
    OrAbove(p5, Shl(p4, 16), 24);
    ByteShifts(256 * p5 + p4);
    OrAbove(256 * p5 + p4, Shl(p3, 8), 16);
    ByteShifts(65536 * p5 + 256 * p4 + p3);
    OrAbove(65536 * p5 + 256 * p4 + p3, p2, 8);
  }

  /** What is drawn of the fragments: not those at (255, 255), which stand for none; an offset is an int. */
  function Drawn(fs: seq<Fragment>): seq<Fragment> {
    if fs == [] then []
    else if fs[0].x == 255 && fs[0].y == 255 then Drawn(fs[1..])
    else [Fragment(fs[0].x, fs[0].y, ToInt32(fs[0].offset))] + Drawn(fs[1..])
  }

  /** The bytes of f stand at ptr. */
  predicate StandsAt(src: seq<int>, ptr: int, bytes: seq<int>) {
    0 <= ptr && ptr + |bytes| <= |src| && src[ptr..ptr + |bytes|] == bytes
  }

  lemma {:induction false} StandsSplit(src: seq<int>, ptr: int, s: seq<int>, t: seq<int>)
    requires StandsAt(src, ptr, s + t)
    ensures StandsAt(src, ptr, s) && StandsAt(src, ptr + |s|, t)
  {
    var all := src[ptr..ptr + |s + t|];
    assert src[ptr..ptr + |s|] == all[..|s|] && src[ptr + |s|..ptr + |s| + |t|] == all[|s|..];
    assert (s + t)[..|s|] == s && (s + t)[|s|..] == t;
  }

  lemma {:induction false} FragmentAt(src: seq<int>, ptr: int, f: Fragment, wide: bool)
    requires StandsAt(src, ptr, FragmentBytes(f, wide)) && FragmentOk(f, wide)
    ensures ptr + (if wide then 6 else 5) <= |src|
    ensures src[ptr] == f.x && src[ptr + 1] == f.y
    ensures IsByte(src[ptr + 2]) && IsByte(src[ptr + 3]) && IsByte(src[ptr + 4]) && (wide ==> IsByte(src[ptr + 5]))
    ensures src[ptr + 2] + 256 * src[ptr + 3] + 65536 * src[ptr + 4] + (if wide then 16777216 * src[ptr + 5] else 0)
         == f.offset
  {
    hide FragmentBytes, StandsAt;
    StandsLetters(src, ptr, FragmentBytes(f, wide));
    OffsetSplit(f, wide);
  }

  lemma {:induction false} StandsLetters(src: seq<int>, ptr: int, s: seq<int>)
    requires StandsAt(src, ptr, s)
    ensures 0 <= ptr && ptr + |s| <= |src| && forall k {:trigger s[k]} :: 0 <= k < |s| ==> src[ptr + k] == s[k]
  {
    forall k {:trigger s[k]} | 0 <= k < |s| ensures src[ptr + k] == s[k] {
      assert src[ptr..ptr + |s|][k] == src[ptr + k];
    }
  }

  lemma {:induction false} OffsetSplit(f: Fragment, wide: bool)
    requires FragmentOk(f, wide)
    ensures var s := FragmentBytes(f, wide);
            |s| == (if wide then 6 else 5) && s[0] == f.x && s[1] == f.y
            && IsByte(s[2]) && IsByte(s[3]) && IsByte(s[4]) && (wide ==> IsByte(s[5]))
            && s[2] + 256 * s[3] + 65536 * s[4] + (if wide then 16777216 * s[5] else 0) == f.offset
  {
    ByteSplit(f.offset);
  }

  /** The loop of ssfn_putc over the fragments of the record at chr, without the drawing. */
  method SsfnPutcFragments(src: seq<int>, chr: nat, ghost r: Record) returns (fs: seq<Fragment>)
    requires RecordOk(r) && StandsAt(src, chr, RecordBytes(r))
    ensures fs == Drawn(r.fragments)
  {
    hide OffsetOf, WideOffset, FragmentOk, FragmentBytes, StandsAt, BitAnd, ToInt32;
    fs := [];
    HeaderAt(src, chr, r);
    ghost var wide, rest := r.first >= 64, r.fragments;
    var ptr := chr + 6;
    for i := 0 to src[chr + 1]
      invariant rest == r.fragments[i..] && FragmentsOk(rest, wide) && ptr >= 0
      invariant StandsAt(src, ptr, FragmentsBytes(rest, wide)) && fs + Drawn(rest) == Drawn(r.fragments)
    {
      StandsSplit(src, ptr, FragmentBytes(rest[0], wide), FragmentsBytes(rest[1..], wide));
      FragmentAt(src, ptr, rest[0], wide);
      if !(src[ptr] == 255 && src[ptr + 1] == 255) {
        var offset;
        if BitAnd(src[chr], 0x40) != 0 {
          WideOffsetIs(src[ptr + 2], src[ptr + 3], src[ptr + 4], src[ptr + 5]);
          offset := ToInt32(WideOffset(src[ptr + 2], src[ptr + 3], src[ptr + 4], src[ptr + 5]));
        } else {
          OffsetIs(src[ptr + 2], src[ptr + 3], src[ptr + 4]);
          offset := ToInt32(OffsetOf(src[ptr + 2], src[ptr + 3], src[ptr + 4]));
        }
        DrawnOne(fs, rest, Fragment(src[ptr], src[ptr + 1], offset));
        fs := fs + [Fragment(src[ptr], src[ptr + 1], offset)];
      }
      ptr := ptr + if BitAnd(src[chr], 0x40) != 0 then 6 else 5;
      rest := rest[1..];
    }
  }

  lemma {:induction false} DrawnOne(fs: seq<Fragment>, rest: seq<Fragment>, f: Fragment)
    requires rest != [] && !(rest[0].x == 255 && rest[0].y == 255)
    requires f == Fragment(rest[0].x, rest[0].y, ToInt32(rest[0].offset))
    ensures fs + Drawn(rest) == fs + [f] + Drawn(rest[1..])
  {
  }

  lemma {:induction false} HeaderAt(src: seq<int>, chr: nat, r: Record)
    requires RecordOk(r) && StandsAt(src, chr, RecordBytes(r))
    ensures chr + 6 <= |src| && src[chr] == r.first && src[chr + 1] == |r.fragments|
    ensures BitAnd(r.first, 0x40) != 0 <==> r.first >= 64
    ensures StandsAt(src, chr + 6, FragmentsBytes(r.fragments, r.first >= 64))
  {
    hide FragmentsBytes, FragmentsOk, BitAnd;
    var head := [r.first, |r.fragments|, r.width, r.height, r.advanceX, r.advanceY];
    StandsSplit(src, chr, head, FragmentsBytes(r.fragments, r.first >= 64));
    var s := src[chr..chr + 6];
    assert s[0] == src[chr] && s[1] == src[chr + 1];
    SixthBit(r.first);
  }

  /** A mask that is a multiple of 2^n looks at the bits above n only. */
  lemma {:induction false} AndEven(a: nat, m: nat)
    ensures BitAnd(a, 2 * m) == 2 * BitAnd(a / 2, m)
  {
    if m == 0 || a == 0 {
      assert BitAnd(a / 2, m) == 0;
    } else {
      assert (2 * m) / 2 == m && (2 * m) % 2 == 0;
    }
  }

  lemma {:induction false} AndSix(a: nat, m: nat)
    ensures BitAnd(a, 64 * m) == 64 * BitAnd(a / 64, m)
  {
    hide BitAnd;
    AndEven(a, 32 * m);
    AndEven(a / 2, 16 * m);
    AndEven(a / 2 / 2, 8 * m);
    AndEven(a / 2 / 2 / 2, 4 * m);
    AndEven(a / 2 / 2 / 2 / 2, 2 * m);
    AndEven(a / 2 / 2 / 2 / 2 / 2, m);
    assert a / 2 / 2 / 2 / 2 / 2 / 2 == a / 64;
  }

  lemma {:induction false} SixthBit(b: int)
    requires IsByte(b)
    ensures (BitAnd(b, 0x40) != 0) == (b / 64 % 2 == 1)
  {
    AndSix(b, 1);
    var h := b / 64;
    assert BitAnd(h, 1) == h % 2;
  }
}
