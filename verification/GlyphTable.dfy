/**
 The glyph table of a font: records for the characters it has, and between them runs of characters
 it lacks, in three forms. Two functions walk it; both find what a plain sparse map would.
 */
module GlyphTable {
  import opened BitOps
  import opened GlyphRecords
  import opened Utf8

  /** An element of the table. */
  datatype Item = Glyph(record: seq<int>) | SkipShort(n: int) | SkipLong(n: int) | SkipPlane

  /** A record has six bytes and, for each fragment, five or six more. */
  function RecordSize(b0: int, b1: int): int {
    6 + b1 * (if b0 / 64 % 2 == 1 then 6 else 5)
  }

  predicate ItemOk(it: Item) {
    match it
    case Glyph(r) => |r| >= 6 && 0 <= r[0] < 128 && (forall k :: 0 <= k < |r| ==> IsByte(r[k]))
      && |r| == RecordSize(r[0], r[1])
    case SkipShort(n) => 1 <= n <= 64
    case SkipLong(n) => 1 <= n <= 0x3F00
    case SkipPlane => true
  }

  /** Good records are those made of parts, six bytes and the fragments, and no others. */
  lemma {:induction false} RecordIs(s: seq<int>)
    ensures ItemOk(Glyph(s)) <==> exists r :: RecordOk(r) && RecordBytes(r) == s
  {
    hide FragmentsBytes, FragmentsOk;
    if ItemOk(Glyph(s)) {
      var fs := FragmentsMade(s[6..], s[1], s[0] >= 64);
      var r := Record(s[0], s[2], s[3], s[4], s[5], fs);
      assert [s[0], s[1], s[2], s[3], s[4], s[5]] + s[6..] == s;
      assert RecordOk(r) && RecordBytes(r) == s;
    }
    if r :| RecordOk(r) && RecordBytes(r) == s { RecordGood(r); }
  }

  /** The walk steps over a record made of parts, six bytes and five or six for each fragment. */
  lemma {:induction false} RecordGood(r: Record)
    requires RecordOk(r)
    ensures ItemOk(Glyph(RecordBytes(r)))
    ensures |RecordBytes(r)| == RecordSize(r.first, |r.fragments|)
         == 6 + (if r.first >= 64 then 6 * |r.fragments| else 5 * |r.fragments|)
  {
    hide FragmentsBytes, FragmentsOk;
    FragmentsLength(r.fragments, r.first >= 64);
    var s, t := RecordBytes(r), FragmentsBytes(r.fragments, r.first >= 64);
    assert s[0] == r.first && s[1] == |r.fragments|;
    assert forall k :: 6 <= k < |s| ==> s[k] == t[k - 6];
  }

  /** The characters an element stands for. */
  function Span(it: Item): int {
    match it
    case Glyph(r) => 1
    case SkipShort(n) => n
    case SkipLong(n) => n
    case SkipPlane => 65536
  }

  function Bytes(it: Item): seq<int> {
    match it
    case Glyph(r) => r
    case SkipShort(n) => [128 + (n - 1)]
    case SkipLong(n) => [192 + (n - 1) / 256, (n - 1) % 256]
    case SkipPlane => [255]
  }

  function Encoded(items: seq<Item>): seq<int> {
    if items == [] then [] else Bytes(items[0]) + Encoded(items[1..])
  }

  /** All characters the elements stand for together. */
  function Spans(items: seq<Item>): int {
    if items == [] then 0 else Span(items[0]) + Spans(items[1..])
  }

  predicate ItemsOk(items: seq<Item>) {
    items == [] || (ItemOk(items[0]) && ItemsOk(items[1..]))
  }

  // -------------------------------------------------------------------- the walk

  /** What a walk finds: the place of a record, nothing, or that it ran off the table. */
  datatype Found = At(ptr: nat) | Missing | RunsOff

  /** The walk over the bytes b, from ptr on, where the next character is i, for the character u. */
  function Walk(b: seq<int>, ptr: nat, i: nat, u: int): Found
    decreases CODE_POINTS - i
  {
    if i >= CODE_POINTS then Missing
    else if ptr >= |b| then RunsOff
    else if b[ptr] == 255 then Walk(b, ptr + 1, i + 65536, u)
    else if b[ptr] >= 192 then
      if ptr + 1 >= |b| || b[ptr + 1] < 0 then RunsOff
      else Walk(b, ptr + 2, i + (b[ptr] % 64 * 256 + b[ptr + 1]) + 1, u)
    else if b[ptr] >= 128 then Walk(b, ptr + 1, i + b[ptr] % 64 + 1, u)
    else if i == u then At(ptr)
    else if ptr + 1 >= |b| || b[ptr] < 0 || b[ptr + 1] < 0 then RunsOff
    else Walk(b, ptr + RecordSize(b[ptr], b[ptr + 1]), i + 1, u)
  }

  /** The map the elements describe from character i on. */
  function MapFrom(items: seq<Item>, i: nat): map<int, seq<int>> {
    if items == [] then map[]
    else if items[0].Glyph? then MapFrom(items[1..], i + 1)[i := items[0].record]
    else MapFrom(items[1..], i + (if Span(items[0]) >= 0 then Span(items[0]) else 0))
  }

  lemma {:induction false} MapBounds(items: seq<Item>, i: nat)
    requires ItemsOk(items)
    ensures forall u :: u in MapFrom(items, i) ==> i <= u < i + Spans(items)
    ensures Spans(items) >= 0
  {
    if items != [] {
      MapBounds(items[1..], i + Span(items[0]));
    }
  }

  /** The bytes of the first element. */
  lemma {:induction false} FirstBytes(it: Item)
    requires ItemOk(it)
    ensures |Bytes(it)| >= 1 && forall k :: 0 <= k < |Bytes(it)| ==> IsByte(Bytes(it)[k])
    ensures match it
            case Glyph(r) => Bytes(it)[0] < 128 && |Bytes(it)| == RecordSize(Bytes(it)[0], Bytes(it)[1]) >= 6
            case SkipShort(n) => 128 <= Bytes(it)[0] < 192 && Bytes(it)[0] % 64 + 1 == n && |Bytes(it)| == 1
            case SkipLong(n) => 192 <= Bytes(it)[0] < 255 && |Bytes(it)| == 2
              && Bytes(it)[0] % 64 * 256 + Bytes(it)[1] + 1 == n
            case SkipPlane => Bytes(it) == [255]
  {
    hide RecordSize;
    if it.SkipLong? { HighLow(it.n - 1); }
  }

  lemma {:induction false} HighLow(v: int)
    requires 0 <= v < 0x3F00
    ensures 0 <= v / 256 < 63 && (192 + v / 256) % 64 * 256 + v % 256 == v
  {
    var h := v / 256;
    assert v == 256 * h + v % 256;
    assert (192 + h) % 64 == h;
  }

  /** One element of the walk. */
  lemma {:induction false} WalkFirst(b: seq<int>, ptr: nat, it: Item, i: nat, u: int)
    requires ItemOk(it) && i < CODE_POINTS && ptr + |Bytes(it)| <= |b| && b[ptr..ptr + |Bytes(it)|] == Bytes(it)
    ensures Span(it) >= 1
    ensures Walk(b, ptr, i, u) == if it.Glyph? && i == u then At(ptr) else Walk(b, ptr + |Bytes(it)|, i + Span(it), u)
  {
    hide RecordSize, Bytes;
    FirstBytes(it);
    var c := b[ptr..ptr + |Bytes(it)|];
    assert c[0] == b[ptr];
    assert |c| >= 2 ==> c[1] == b[ptr + 1];
  }

  /** f is what a look-up of u in m comes to, the record being in b at the place found. */
  predicate FoundIs(f: Found, b: seq<int>, m: map<int, seq<int>>, u: int) {
    match f
    case At(p) => u in m && u < CODE_POINTS && p + |m[u]| <= |b| && b[p..p + |m[u]|] == m[u]
    case Missing => u !in m || u >= CODE_POINTS
    case RunsOff => false
  }

  lemma {:induction false} MapFirst(items: seq<Item>, i: nat, u: int)
    requires ItemsOk(items) && items != []
    ensures var it, m, tail := items[0], MapFrom(items, i), MapFrom(items[1..], i + Span(items[0]));
            Span(it) >= 1 && (u in m <==> (it.Glyph? && u == i) || u in tail)
            && (u in m ==> m[u] == if it.Glyph? && u == i then it.record else tail[u])
            && (u in tail ==> u > i)
  {
    hide ItemOk;
    ItemsFirst(items);
    MapBounds(items[1..], i + Span(items[0]));
  }

  /** The walk over an encoded table is a look-up in its map: it stops at the record of a character that has one,
      and reports every other character of the table missing. */
  lemma {:induction false} WalkIsLookup(pre: seq<int>, items: seq<Item>, rest: seq<int>, i: nat, u: int)
    requires ItemsOk(items) && i + Spans(items) >= CODE_POINTS
    ensures var b := pre + Encoded(items) + rest;
            FoundIs(Walk(b, |pre|, i, u), b, MapFrom(items, i), u)
    decreases |items|
  {
    hide Bytes, Walk, MapFrom, ItemOk, Span, ItemsOk, Encoded, Spans;
    var b := pre + Encoded(items) + rest;
    if i >= CODE_POINTS {
      WalkOver(b, |pre|, i, u);
      MapBounds(items, i);
    } else {
      NotEmpty(items);
      var it, tail := items[0], items[1..];
      ItemsFirst(items);
      Placed(pre, Bytes(it), Encoded(tail), rest);
      WalkFirst(b, |pre|, it, i, u);
      MapFirst(items, i, u);
      if it.Glyph? && i == u {
        GlyphBytes(it);
      } else {
        WalkIsLookup(pre + Bytes(it), tail, rest, i + Span(it), u);
      }
    }
  }

  lemma {:induction false} Placed(pre: seq<int>, s: seq<int>, t: seq<int>, rest: seq<int>)
    ensures pre + (s + t) + rest == pre + s + t + rest
    ensures (pre + (s + t) + rest)[|pre|..|pre| + |s|] == s
  {
  }

  lemma {:induction false} NotEmpty(items: seq<Item>)
    ensures Spans(items) > 0 ==> items != []
  {
  }

  lemma {:induction false} WalkOver(b: seq<int>, ptr: nat, i: nat, u: int)
    requires i >= CODE_POINTS
    ensures Walk(b, ptr, i, u) == Missing
  {
  }

  lemma {:induction false} GlyphBytes(it: Item)
    requires it.Glyph?
    ensures Bytes(it) == it.record
  {
  }

  lemma {:induction false} ItemsFirst(items: seq<Item>)
    requires ItemsOk(items) && items != []
    ensures ItemOk(items[0]) && ItemsOk(items[1..]) && Span(items[0]) >= 1
    ensures Encoded(items) == Bytes(items[0]) + Encoded(items[1..])
         && Spans(items) == Span(items[0]) + Spans(items[1..])
  {
  }

  // ------------------------------------------------------------ building a table

  /** A character and its record. */
  datatype Entry = Entry(code: nat, record: Record)

  /** Records in increasing order of their characters, from character i on. */
  predicate Increasing(gl: seq<Entry>, i: nat) {
    gl == [] || (i <= gl[0].code < CODE_POINTS && RecordOk(gl[0].record) && Increasing(gl[1..], gl[0].code + 1))
  }

  /** n characters without a record, in the largest steps there are. */
  function Gap(n: nat): seq<Item> {
    if n == 0 then []
    else if n >= 65536 then [SkipPlane] + Gap(n - 65536)
    else if n > 64 then [SkipLong(if n < 0x3F00 then n else 0x3F00)] + Gap(n - (if n < 0x3F00 then n else 0x3F00))
    else [SkipShort(n)]
  }

  /** The table of a glyph list, to the end of the code space. */
  function ItemsFor(gl: seq<Entry>, i: nat): seq<Item>
    requires Increasing(gl, i) && i <= CODE_POINTS
    decreases |gl|
  {
    if gl == [] then Gap(CODE_POINTS - i)
    else Gap(gl[0].code - i) + ([Glyph(RecordBytes(gl[0].record))] + ItemsFor(gl[1..], gl[0].code + 1))
  }

  function ListMap(gl: seq<Entry>): map<int, seq<int>> {
    if gl == [] then map[] else ListMap(gl[1..])[gl[0].code as int := RecordBytes(gl[0].record)]
  }

  lemma {:induction false} GapBefore(n: nat, items: seq<Item>, i: nat)
    requires ItemsOk(items)
    ensures ItemsOk(Gap(n) + items) && Spans(Gap(n) + items) == n + Spans(items)
    ensures MapFrom(Gap(n) + items, i) == MapFrom(items, i + n)
    decreases n
  {
    hide ItemOk, Gap, MapFrom, ItemsOk, Spans, Span;
    if n == 0 {
      NoGap();
      assert [] + items == items;
    } else {
      GapFirst(n);
      var it := Gap(n)[0];
      GapBefore(n - Span(it), items, i + Span(it));
      assert (Gap(n) + items)[1..] == Gap(n - Span(it)) + items;
      SkipFirst(Gap(n) + items, i);
    }
  }

  lemma {:induction false} NoGap()
    ensures Gap(0) == []
  {
  }

  lemma {:induction false} SkipFirst(items: seq<Item>, i: nat)
    requires items != [] && ItemOk(items[0]) && !items[0].Glyph? && Span(items[0]) >= 1
    ensures ItemsOk(items) <==> ItemsOk(items[1..])
    ensures Spans(items) == Span(items[0]) + Spans(items[1..])
    ensures MapFrom(items, i) == MapFrom(items[1..], i + Span(items[0]))
  {
    hide ItemOk, Span;
  }

  lemma {:induction false} GapFirst(n: nat)
    requires n > 0
    ensures var g := Gap(n);
            g != [] && !g[0].Glyph? && ItemOk(g[0]) && 1 <= Span(g[0]) <= n && g[1..] == Gap(n - Span(g[0]))
  {
  }

  /** The three forms as they are written: 64 characters and one take a byte each, 322 and 16128 two, 65536 one. */
  lemma {:induction false} SkipForms()
    ensures Encoded(Gap(1)) == [0x80] && Encoded(Gap(64)) == [0xBF]
    ensures Encoded(Gap(322)) == [0xC1, 0x41] && Encoded(Gap(16128)) == [0xFE, 0xFF] && Encoded(Gap(65536)) == [0xFF]
    ensures Encoded(Gap(81986)) == [0xFF, 0xFE, 0xFF, 0xC1, 0x41]
  {
    hide Encoded, Gap;
    GapStep(1, SkipShort(1));
    GapStep(64, SkipShort(64));
    GapStep(322, SkipLong(322));
    GapStep(16128, SkipLong(16128));
    GapStep(65536, SkipPlane);
    GapStep(81986, SkipPlane);
    GapStep(16450, SkipLong(16128));
    NoGap();
    NoItems();
    assert [0xFF] + [0xFE, 0xFF, 0xC1, 0x41] == [0xFF, 0xFE, 0xFF, 0xC1, 0x41];
  }

  lemma {:induction false} GapStep(n: nat, it: Item)
    requires n > 0 && it == if n >= 65536 then SkipPlane else if n > 64 then SkipLong(if n < 16128 then n else 16128)
                            else SkipShort(n)
    ensures n - Span(it) >= 0 && Encoded(Gap(n)) == Bytes(it) + Encoded(Gap(n - Span(it)))
  {
    assert Gap(n)[0] == it;
  }

  lemma {:induction false} NoItems()
    ensures Encoded([]) == []
  {
  }

  /** The table of a list is sound, reaches the end of the code space, and describes the list. */
  lemma {:induction false} TableOf(gl: seq<Entry>, i: nat)
    requires Increasing(gl, i) && i <= CODE_POINTS
    ensures ItemsOk(ItemsFor(gl, i)) && Spans(ItemsFor(gl, i)) == CODE_POINTS - i
    ensures MapFrom(ItemsFor(gl, i), i) == ListMap(gl)
    decreases |gl|
  {
    hide ItemOk, Gap, RecordOk, RecordBytes;
    if gl == [] {
      GapBefore(CODE_POINTS - i, [], i);
      assert Gap(CODE_POINTS - i) + [] == Gap(CODE_POINTS - i);
    } else {
      var e, tail := gl[0], ItemsFor(gl[1..], gl[0].code + 1);
      TableOf(gl[1..], e.code + 1);
      RecordGood(e.record);
      var items := [Glyph(RecordBytes(e.record))] + tail;
      assert items[1..] == tail;
      GapBefore(e.code - i, items, i);
    }
  }

  /** Any increasing glyph list can be written as a table, in which a walk finds the record of every character on
      the list and reports every other one missing. */
  lemma {:induction false} TableFinds(gl: seq<Entry>, u: int)
    requires Increasing(gl, 0)
    ensures FoundIs(Walk(Encoded(ItemsFor(gl, 0)), 0, 0, u), Encoded(ItemsFor(gl, 0)), ListMap(gl), u)
  {
    hide Increasing, ItemsFor, Encoded, Walk, FoundIs, ItemsOk, Spans;
    TableOf(gl, 0);
    WalkIsLookup([], ItemsFor(gl, 0), [], 0, u);
    assert [] + Encoded(ItemsFor(gl, 0)) + [] == Encoded(ItemsFor(gl, 0));
  }

  // ------------------------------------------------------------------- the walkers

  /** The masks the walkers use, for a byte. */
  lemma {:induction false} Masks(b: int)
    requires IsByte(b)
    ensures BitAnd(b, 0x3F) == b % 64
    ensures BitAnd(b, 0xC0) == 64 * (b / 64)
    ensures (BitAnd(b, 0x40) != 0) == (b / 64 % 2 == 1)
  {
    LowSix(b);
    HighTwo(b);
    SixthBit(b);
  }

  lemma {:induction false} LowSix(b: nat)
    ensures BitAnd(b, 0x3F) == b % 64
  {
    hide BitAnd, Low, Shr, Shl;
    assert Pow2(6) == 64 by { assert Pow2(3) == 8; assert Pow2(6) == 8 * Pow2(3); }
    AndMask(b, 6);
    LowHigh(b, 6);
    LowBound(b, 6);
    ShlSix(Shr(b, 6));
    ModSmall(Shr(b, 6), Low(b, 6));
  }

  lemma {:induction false} ShlSix(s: nat)
    ensures Shl(s, 6) == 64 * s
  {
    assert Shl(s, 1) == 2 * Shl(s, 0);
    assert Shl(s, 3) == 4 * Shl(s, 1);
    assert Shl(s, 5) == 4 * Shl(s, 3);
    assert Shl(s, 6) == 2 * Shl(s, 5);
  }

  lemma {:induction false} ModSmall(h: int, l: int)
    requires 0 <= l < 64
    ensures (64 * h + l) % 64 == l
  {
  }

  lemma {:induction false} HighTwo(b: int)
    requires IsByte(b)
    ensures BitAnd(b, 0xC0) == 64 * (b / 64)
  {
    AndSix(b, 3);
    var h := b / 64;
    assert BitAnd(h, 3) == h;
  }

  /** ((p0 & 0x3F) << 8) | p1 */
  function LongSkip(p0: nat, p1: nat): nat {
    BitOr(Shl(BitAnd(p0, 0x3F), 8), p1)
  }

  lemma {:induction false} LongSkipIs(p0: int, p1: int)
    requires IsByte(p0) && IsByte(p1)
    ensures LongSkip(p0, p1) == p0 % 64 * 256 + p1
  {
    hide BitAnd, BitOr, Shl;
    LowSix(p0);
    assert Pow2(8) == 256 by { assert Pow2(4) == 16; assert Pow2(8) == 16 * Pow2(4); }
    ShlEight(p0 % 64);
    OrShl(p1, p0 % 64, 8);
    OrCommutes(p1, Shl(p0 % 64, 8));
  }

  /** The forms of a byte, by the tests of the walkers. */
  lemma {:induction false} Forms(p0: int)
    requires IsByte(p0)
    ensures (BitAnd(p0, 0xC0) == 0xC0) == (p0 >= 192) && (BitAnd(p0, 0xC0) == 0x80) == (128 <= p0 < 192)
  {
    hide BitAnd;
    HighTwo(p0);
  }

  /** The character table of _ssfn_c, from charactersOffs on: the record of character u, or NULL. */
  method SsfnC(font: seq<int>, charactersOffs: nat, u: int) returns (found: Found)
    requires AllBytes(font) && !Walk(font, charactersOffs, 0, u).RunsOff?
    ensures found == Walk(font, charactersOffs, 0, u)
  {
    hide BitAnd, LongSkip;
    var ptr, i := charactersOffs, 0;
    while i < CODE_POINTS
      invariant i >= 0 && ptr >= 0 && Walk(font, ptr, i, u) == Walk(font, charactersOffs, 0, u)
      decreases CODE_POINTS - i
    {
      Masks(font[ptr]);
      Forms(font[ptr]);
      if font[ptr] == 0xFF {
        i := i + 65535;
        ptr := ptr + 1;
      } else if BitAnd(font[ptr], 0xC0) == 0xC0 {
        LongSkipIs(font[ptr], font[ptr + 1]);
        i := i + LongSkip(font[ptr], font[ptr + 1]);
        ptr := ptr + 2;
      } else if BitAnd(font[ptr], 0xC0) == 0x80 {
        i := i + BitAnd(font[ptr], 0x3F);
        ptr := ptr + 1;
      } else {
        if i == u { return At(ptr); }
        ptr := ptr + 6 + font[ptr + 1] * (if BitAnd(font[ptr], 0x40) != 0 then 6 else 5);
      }
      i := i + 1;
    }
    found := Missing;
  }

  /** The same search in ssfn_putc: it leaves the loop with the record found, or without one. */
  method SsfnPutcFind(ssfnSrc: seq<int>, charactersOffs: nat, unicode: int) returns (chr: Found)
    requires AllBytes(ssfnSrc) && !Walk(ssfnSrc, charactersOffs, 0, unicode).RunsOff?
    ensures chr == Walk(ssfnSrc, charactersOffs, 0, unicode)
  {
    hide BitAnd, LongSkip;
    var ptr, i := charactersOffs, 0;
    chr := Missing;
    while i < CODE_POINTS
      invariant i >= 0 && ptr >= 0 && chr == Missing
      invariant Walk(ssfnSrc, ptr, i, unicode) == Walk(ssfnSrc, charactersOffs, 0, unicode)
      decreases CODE_POINTS - i
    {
      Masks(ssfnSrc[ptr]);
      Forms(ssfnSrc[ptr]);
      if ssfnSrc[ptr] == 0xFF {
        i := i + 65535;
        ptr := ptr + 1;
      } else if BitAnd(ssfnSrc[ptr], 0xC0) == 0xC0 {
        LongSkipIs(ssfnSrc[ptr], ssfnSrc[ptr + 1]);
        i := i + LongSkip(ssfnSrc[ptr], ssfnSrc[ptr + 1]);
        ptr := ptr + 2;
      } else if BitAnd(ssfnSrc[ptr], 0xC0) == 0x80 {
        i := i + BitAnd(ssfnSrc[ptr], 0x3F);
        ptr := ptr + 1;
      } else {
        if i == unicode {
          chr := At(ptr);
          break;
        }
        ptr := ptr + 6 + ssfnSrc[ptr + 1] * (if BitAnd(ssfnSrc[ptr], 0x40) != 0 then 6 else 5);
      }
      i := i + 1;
    }
  }
}
