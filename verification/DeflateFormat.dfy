/**
 What RFC 1951 writes out in numbers: the fixed codes, the extra bits, the order of the code lengths, the headers of
 the blocks, and whole streams as another encoder writes them.
 */
module DeflateFormat {
  import opened BitOps
  import opened Canonical
  import opened Deflate
  import opened DeflateRoundTrip
  import opened DeflateStreams

  // ------------------------------------------------------------------ fixed codes

  lemma {:induction false} CountFill(v: int, n: nat, s: int)
    ensures Count(Fill(v, n), s) == if v == s then n else 0
  {
    if n > 0 {
      CountFill(v, n - 1, s);
      assert Fill(v, n)[..n - 1] == Fill(v, n - 1);
    }
  }

  lemma {:induction false} CountConcat(a: seq<int>, b: seq<int>, s: int)
    ensures Count(a + b, s) == Count(a, s) + Count(b, s)
  {
    if b == [] {
      assert a + b == a;
    } else {
      var n := |b| - 1;
      CountConcat(a, b[..n], s);
      assert (a + b)[..|a + b| - 1] == a + b[..n];
    }
  }

  /** How many of the first i literal symbols have length s. */
  lemma {:induction false} FixedCount(i: nat, s: int)
    requires i <= 288
    ensures Count(FixedLit()[..i], s)
         == if s == 8 then (if i < 144 then i else if i < 280 then 144 else i - 136)
            else if s == 9 then (if i < 144 then 0 else if i < 256 then i - 144 else 112)
            else if s == 7 then (if i < 256 then 0 else if i < 280 then i - 256 else 24)
            else 0
  {
    hide Count, Fill;
    var a, b, c := Fill(8, 144), Fill(9, 112), Fill(7, 24);
    CountFill(8, 144, s);
    CountFill(9, 112, s);
    CountFill(7, 24, s);
    CountConcat(a, b, s);
    CountConcat(a + b, c, s);
    if i < 144 {
      CountFill(8, i, s);
      assert FixedLit()[..i] == Fill(8, i);
    } else if i < 256 {
      CountFill(9, i - 144, s);
      CountConcat(a, Fill(9, i - 144), s);
      assert FixedLit()[..i] == a + Fill(9, i - 144);
    } else if i < 280 {
      CountFill(7, i - 256, s);
      CountConcat(a + b, Fill(7, i - 256), s);
      assert FixedLit()[..i] == a + b + Fill(7, i - 256);
    } else {
      CountFill(8, i - 280, s);
      CountConcat(a + b + c, Fill(8, i - 280), s);
      assert FixedLit()[..i] == a + b + c + Fill(8, i - 280);
    }
  }

  /** No literal code is shorter than seven bits. */
  lemma {:induction false} FixedFirst()
    ensures First(FixedLit(), 7) == 0 && First(FixedLit(), 8) == 0x30 && First(FixedLit(), 9) == 0x190
  {
    hide Count, FixedLit;
    assert FixedLit()[..288] == FixedLit();
    FixedCount(288, 1);
    FixedCount(288, 2);
    FixedCount(288, 3);
    FixedCount(288, 4);
    FixedCount(288, 5);
    FixedCount(288, 6);
    FixedCount(288, 7);
    FixedCount(288, 8);
    assert First(FixedLit(), 4) == 0;
  }

  /** The fixed literal and length codes (section 3.2.6), most significant bit first. */
  lemma {:induction false} FixedCodes(i: nat)
    requires i < 288
    ensures FixedLit()[i] == if i < 144 then 8 else if i < 256 then 9 else if i < 280 then 7 else 8
    ensures CodeBits(FixedLit(), i)
         == if i < 144 then MsbBits(0x30 + i, 8) else if i < 256 then MsbBits(0x190 + (i - 144), 9)
            else if i < 280 then MsbBits(i - 256, 7) else MsbBits(0xC0 + (i - 280), 8)
  {
    hide Count, First, MsbBits;
    FixedFirst();
    FixedCount(i, FixedLit()[i]);
  }

  /** The fixed distance codes are the symbols in five bits. */
  lemma {:induction false} FixedDistCodes(i: nat)
    requires i < 32
    ensures FixedDist()[i] == 5 && CodeBits(FixedDist(), i) == MsbBits(i, 5)
  {
    hide Count, MsbBits, Fill;
    CountFill(5, i, 5);
    assert FixedDist()[..i] == Fill(5, i);
    CountFill(5, 32, 1);
    CountFill(5, 32, 2);
    CountFill(5, 32, 3);
    CountFill(5, 32, 4);
    assert First(FixedDist(), 3) == 0;
  }

  // ---------------------------------------------------------------------- tables

  /** The extra bits of the length symbols (section 3.2.5) grow by one every four symbols from the ninth on, but the
      last has none. With the row laws they give every base. */
  lemma {:induction false} LengthExtraBits(k: nat)
    requires k < 29
    ensures LengthExtra(k) == if k < 8 || k == 28 then 0 else (k - 4) / 4
  {
  }

  /** Those of the distance symbols grow by one every two symbols from the fifth on. */
  lemma {:induction false} DistExtraBits(k: nat)
    requires k < 30
    ensures DistExtra(k) == if k < 4 then 0 else (k - 2) / 2
  {
  }

  /** The order in which the code lengths of the code length code are sent: 16, 17, 18, 0, then 8, 7, 9, 6, and so on
      outwards (section 3.2.7). */
  lemma {:induction false} SizeOrder()
    ensures |DEZIGZAG| == 19 && DEZIGZAG[0] == 16 && DEZIGZAG[1] == 17 && DEZIGZAG[2] == 18 && DEZIGZAG[3] == 0
    ensures forall k: nat :: k < 8 ==> DEZIGZAG[4 + 2 * k] == 8 + k
    ensures forall k: nat :: k < 7 ==> DEZIGZAG[5 + 2 * k] == 7 - k
  {
  }

  // --------------------------------------------------------------------- headers

  /** The three bits of a block header (section 3.2.3): whether it is the last, then the low and the high bit of its
      type: stored, fixed, dynamic, and one that is an error. */
  lemma {:induction false} HeaderBits(out: seq<byte>, cap: nat, last: bool, low: bool, high: bool, rest: seq<bool>)
    requires |rest| >= PADDING
    ensures var st := State(out, cap, rest);
            AnyBlock(State(out, cap, [last, low, high] + rest))
            == if low && high then Fail
               else Marked(last, if low then Block(FixedLit(), FixedDist(), st)
                                 else if high then DynamicBlock(st) else Stored(st))
  {
    hide Block, DynamicBlock, Stored, FixedLit, FixedDist;
    var bits, after := [last, low, high] + rest, [low, high] + rest;
    assert bits[..1] == [last] && bits[1..] == after && after[..2] == [low, high] && after[2..] == rest;
    assert FromBits([low, high][1..]) == FromBits([high]) && FromBits([high][1..]) == 0 && FromBits([last][1..]) == 0;
  }

  /** The counts of a dynamic block (section 3.2.7): five bits, five bits and four bits, from 257, 1 and 4 on. */
  lemma {:induction false} CountsWritten(hlit: nat, hdist: nat, hclen: nat, rest: seq<bool>)
    requires 257 <= hlit <= 288 && 1 <= hdist <= 32 && 4 <= hclen <= 19 && |rest| >= PADDING
    ensures Counts(ToBits(hlit - 257, 5) + (ToBits(hdist - 1, 5) + (ToBits(hclen - 4, 4) + rest)))
         == Ok((hlit, hdist, hclen, rest))
  {
    CountsEncoded(hlit, hdist, hclen, rest);
  }

  /** The k-th number of three bits. */
  function Three(bits: seq<bool>, k: nat): nat
    requires 3 * k + 3 <= |bits|
  {
    FromBits(bits[3 * k..3 * k + 3])
  }

  lemma {:induction false} ThreeOn(bits: seq<bool>, k: nat)
    requires 3 * k + 6 <= |bits|
    ensures Three(bits[3..], k) == Three(bits, k + 1)
  {
    assert bits[3..][3 * k..3 * k + 3] == bits[3 * (k + 1)..3 * (k + 1) + 3];
  }

  /** Each of the code lengths of the code length code has three bits, and they come in the order given above. */
  lemma {:induction false} SizesWritten(sizes: seq<int>, i: nat, n: nat, bits: seq<bool>)
    requires |sizes| == 19 && i <= n <= 19 && |bits| >= 3 * (n - i) + PADDING
    ensures var r := CodeLengths(sizes, i, n, bits);
            r.Ok? && |r.value.0| == 19 && r.value.1 == bits[3 * (n - i)..]
            && (forall k :: i <= k < n ==> r.value.0[DEZIGZAG[k]] == Three(bits, k - i))
            && (forall k :: 0 <= k < 19 && !(i <= k < n) ==> r.value.0[DEZIGZAG[k]] == sizes[DEZIGZAG[k]])
    decreases n - i
  {
    hide FromBits, Three;
    OrderInRange();
    if i < n {
      FirstThree(sizes, i, n, bits);
      var rest, next := bits[3..], sizes[DEZIGZAG[i] := Three(bits, 0)];
      OrderApart(i);
      SizesWritten(next, i + 1, n, rest);
      assert rest[3 * (n - i - 1)..] == bits[3 * (n - i)..];
      var r := CodeLengths(sizes, i, n, bits).value.0;
      forall k | i < k < n ensures r[DEZIGZAG[k]] == Three(bits, k - i) { ThreeOn(bits, k - i - 1); }
    }
  }

  lemma {:induction false} FirstThree(sizes: seq<int>, i: nat, n: nat, bits: seq<bool>)
    requires |sizes| == 19 && i < n <= 19 && |bits| >= 3 + PADDING && DEZIGZAG[i] < 19
    ensures CodeLengths(sizes, i, n, bits) == CodeLengths(sizes[DEZIGZAG[i] := Three(bits, 0)], i + 1, n, bits[3..])
  {
    hide FromBits;
    assert bits[..3] == bits[0..3];
  }

  lemma {:induction false} OrderInRange()
    ensures forall k :: 0 <= k < 19 ==> 0 <= DEZIGZAG[k] < 19
  {
  }

  lemma {:induction false} OrderApart(i: nat)
    requires i < 19
    ensures forall k :: 0 <= k < 19 ==> 0 <= DEZIGZAG[k] < 19 && (DEZIGZAG[k] == DEZIGZAG[i] <==> k == i)
  {
  }

  /** What the symbols of the code length code stand for (section 3.2.7): 0 to 15 themselves, 16 three to six copies of
      the length before, 17 three to ten zeros, 18 eleven to 138. */
  lemma {:induction false} RunsWritten(cl: Lengths, total: nat, acc: seq<int>, n: nat, rest: seq<bool>)
    requires |cl| == 19 && Kraft(cl) && |acc| + n <= total && |rest| >= PADDING
    ensures n <= 15 && Usable(cl, n) && |acc| < total ==>
              Run(cl, total, acc, CodeBits(cl, n) + rest) == Ok((acc + [n], rest))
    ensures 3 <= n <= 6 && acc != [] && Usable(cl, 16) ==>
              Run(cl, total, acc, CodeBits(cl, 16) + ToBits(n - 3, 2) + rest)
              == Ok((acc + seq(n, _ => acc[|acc| - 1]), rest))
    ensures 3 <= n <= 10 && Usable(cl, 17) ==>
              Run(cl, total, acc, CodeBits(cl, 17) + ToBits(n - 3, 3) + rest) == Ok((acc + seq(n, _ => 0), rest))
    ensures 11 <= n <= 138 && Usable(cl, 18) ==>
              Run(cl, total, acc, CodeBits(cl, 18) + ToBits(n - 11, 7) + rest) == Ok((acc + seq(n, _ => 0), rest))
  {
    hide Run, Kraft, CodeBits, ToBits;
    if n <= 15 && Usable(cl, n) && |acc| < total { RunEncoded(cl, total, acc, One(n), rest); }
    if 3 <= n <= 6 && acc != [] && Usable(cl, 16) {
      RunEncoded(cl, total, acc, Same(n), rest);
      var l := acc[|acc| - 1];
      assert Fill(l, n) == seq(n, _ => acc[|acc| - 1]);
    }
    if 3 <= n <= 10 && Usable(cl, 17) {
      RunEncoded(cl, total, acc, Zeros(n), rest);
      assert Fill(0, n) == seq(n, _ => 0);
    }
    if 11 <= n <= 138 && Usable(cl, 18) {
      RunEncoded(cl, total, acc, ManyZeros(n), rest);
      assert Fill(0, n) == seq(n, _ => 0);
    }
  }

  /** The list of code lengths is split into the literal codes and, behind them, the distance codes. */
  lemma {:induction false} TablesWritten(h: Header, rest: seq<bool>)
    requires HeaderOk(h) && |rest| >= PADDING
    ensures var list := ApplyRuns([], h.runs);
            Tables(ToBits(h.hlit - 257, 5) + (ToBits(h.hdist - 1, 5) + (ToBits(h.hclen - 4, 4)
                   + (EncodeSizes(h.clens, 0, h.hclen) + EncodeRuns(h.clens, h.runs)))) + rest)
            == Ok((list[..h.hlit], list[h.hlit..], rest))
  {
    hide HeaderOk, Tables, EncodeSizes, EncodeRuns, ApplyRuns, ToBits;
    HeaderFacts(h);
    TablesEncoded(h, rest);
  }

  lemma {:induction false} HeaderFacts(h: Header)
    requires HeaderOk(h)
    ensures 257 <= h.hlit <= 288 && 1 <= h.hdist <= 32 && 4 <= h.hclen <= 19 && |h.clens| == 19 && SizesOk(h.clens)
    ensures AllLengths(ApplyRuns([], h.runs)) && h.hlit <= |ApplyRuns([], h.runs)|
  {
  }

  // ------------------------------------------------------------- streams byte by byte

  /** n bits that are zero. */
  function Blank(n: nat): (s: seq<bool>)
    ensures |s| == n
  {
    seq(n, _ => false)
  }

  /** What one fixed block of the given tokens inflates to in the first buffer. */
  lemma {:induction false} OneFixedBlock(tokens: seq<Token>, tail: seq<bool>)
    requires TokensOk(FixedLit(), FixedDist(), 0, tokens) && |Expand([], tokens)| <= 8 && |tail| >= PADDING
    ensures Inflate(State([], 8, [true, true, false] + EncodeTokens(FixedLit(), FixedDist(), tokens) + tail))
         == Ok(State(Expand([], tokens), 8, tail))
  {
    hide TokensOk, EncodeTokens, Expand, Inflate, TokensRoom, FixedLit, FixedDist;
    var blocks := [FixedBlock(tokens)];
    OnlyBlock(blocks, |tail|);
    EnoughRoom(FixedLit(), FixedDist(), [], 8, tokens);
    InflateEncoded(blocks, State([], 8, tail));
    FixedHeader();
    assert EncodeBlocks(blocks)
        == [true, true, false] + EncodeTokens(FixedLit(), FixedDist(), tokens);
  }

  lemma {:induction false} FixedHeader()
    ensures ToBits(1, 1) == [true] && ToBits(1, 2) == [true, false]
  {
  }

  lemma {:induction false} OnlyBlock(blocks: seq<DeflateBlock>, tail: nat)
    requires |blocks| == 1 && blocks[0].FixedBlock? && TokensOk(FixedLit(), FixedDist(), 0, blocks[0].tokens)
    ensures BlocksOk([], blocks, tail)
    ensures EncodeBlocks(blocks) == EncodeBlock(blocks[0], true)
         && ExpandBlocks([], blocks) == Expand([], blocks[0].tokens)
    ensures BlocksRoom([], 8, blocks) == TokensRoom([], 8, blocks[0].tokens)
  {
    hide TokensOk, TokensRoom, Expand, EncodeBlock, FixedLit, FixedDist;
    assert blocks[1..] == [] && EncodeBlocks([]) == [] && EncodeBlock(blocks[0], true) + []
      == EncodeBlock(blocks[0], true);
  }

  lemma {:induction false} FixedUsable(i: nat)
    requires i < 288
    ensures Usable(FixedLit(), i) && SymbolBits(FixedLit(), i) == CodeBits(FixedLit(), i)
  {
    hide CodeBits;
    FixedCodes(i);
  }

  lemma {:induction false} NoTokensEncoded()
    ensures EncodeTokens(FixedLit(), FixedDist(), []) == [false, false, false, false, false, false, false]
  {
    hide CodeBits, FixedLit;
    FixedUsable(256);
    FixedCodes(256);
    ZeroBits(7);
  }

  lemma {:induction false} BytesAppend(a: seq<byte>, b: seq<byte>)
    ensures BytesBits(a + b) == BytesBits(a) + BytesBits(b)
  {
    hide ToBits, BytesBits;
    if a == [] {
      OneByte(0, []);
      assert a + b == b && [] + BytesBits(b) == BytesBits(b);
    } else {
      var first, rest := a[0], a[1..];
      BytesAppend(rest, b);
      OneByte(first, rest);
      OneByte(first, rest + b);
      assert a == [first] + rest && a + b == [first] + (rest + b);
      Grouped(ToBits(first, 8), BytesBits(rest), BytesBits(b));
    }
  }

  lemma {:induction false} Grouped(a: seq<bool>, b: seq<bool>, c: seq<bool>)
    ensures a + b + c == a + (b + c)
  {
  }

  lemma {:induction false} OneByte(b: byte, rest: seq<byte>)
    ensures [b] + rest != [] && BytesBits([b] + rest) == ToBits(b, 8) + BytesBits(rest) && BytesBits([]) == []
  {
    hide ToBits;
    assert ([b] + rest)[1..] == rest;
  }

  /** The bits of a byte. */
  lemma {:induction false} EightBits(b: nat)
    ensures ToBits(b, 8) == [b % 2 == 1, b / 2 % 2 == 1, b / 4 % 2 == 1, b / 8 % 2 == 1,
                             b / 16 % 2 == 1, b / 32 % 2 == 1, b / 64 % 2 == 1, b / 128 % 2 == 1]
  {
    hide ToBits;
    FourBits(b, 4);
    FourBits(b / 16, 0);
    BitOff(b / 16, 0);
    assert b / 16 / 2 == b / 32 && b / 16 / 4 == b / 64 && b / 16 / 8 == b / 128;
  }

  lemma {:induction false} FourBits(b: nat, n: nat)
    ensures ToBits(b, n + 4) == [b % 2 == 1, b / 2 % 2 == 1, b / 4 % 2 == 1, b / 8 % 2 == 1] + ToBits(b / 16, n)
  {
    hide ToBits;
    BitOff(b, n + 3);
    BitOff(b / 2, n + 2);
    BitOff(b / 4, n + 1);
    BitOff(b / 8, n);
  }

  lemma {:induction false} BitOff(b: nat, n: nat)
    ensures ToBits(b, n + 1) == [b % 2 == 1] + ToBits(b / 2, n) && ToBits(b, 0) == []
  {
  }

  lemma {:induction false} ZeroBits(n: nat)
    ensures ToBits(0, n) == Blank(n) && MsbBits(0, n) == Blank(n)
  {
    if n > 0 { ZeroBits(n - 1); }
  }

  lemma {:induction false} LastBit(v: nat, n: nat)
    ensures MsbBits(v, n + 1) == MsbBits(v / 2, n) + [v % 2 == 1]
  {
  }

  /** Four zero bytes of padding behind a stream. */
  function Padding(): (p: seq<byte>)
    ensures |p| == 4
  {
    [0, 0, 0, 0]
  }

  lemma {:induction false} PaddingBlank()
    ensures BytesBits(Padding()) == Blank(32)
  {
    hide ToBits, BytesBits;
    ZeroBits(8);
    OneByte(0, []);
    OneByte(0, [0]);
    OneByte(0, [0, 0]);
    OneByte(0, [0, 0, 0]);
    assert [0] + [] == [0] && [0] + [0] == [0, 0] && [0] + [0, 0] == [0, 0, 0] && [0] + [0, 0, 0] == Padding();
  }

  /** 03 00 is the empty stream. */
  lemma {:induction false} EmptyStream()
    ensures Inflate(State([], 8, BytesBits([0x03, 0x00] + Padding()))) == Ok(State([], 8, Blank(38)))
  {
    hide EncodeTokens, Inflate, BytesBits, Padding, FixedLit, FixedDist;
    NoTokensEncoded();
    NothingExpanded();
    OneFixedBlock([], Blank(38));
    BytesAppend([0x03, 0x00], Padding());
    PaddingBlank();
    EmptyBits();
    assert BytesBits([0x03, 0x00]) + Blank(32)
        == [true, true, false] + [false, false, false, false, false, false, false] + Blank(38);
  }

  lemma {:induction false} NothingExpanded()
    ensures TokensOk(FixedLit(), FixedDist(), 0, []) && Expand([], []) == []
  {
  }

  lemma {:induction false} EmptyBits()
    ensures BytesBits([0x03, 0x00]) == [true, true, false, false, false, false, false, false] + Blank(8)
  {
    hide ToBits, BytesBits;
    EightBits(0x03);
    ZeroBits(8);
    OneByte(0x03, [0x00]);
    OneByte(0x00, []);
    assert [0x00] + [] == [0x00] && [0x03] + [0x00] == [0x03, 0x00];
  }

  /** 4b 4c 04 01 00 is the stream of six letters a: two literals and a copy of four bytes from one back. */
  lemma {:induction false} CopiedStream()
    ensures Inflate(State([], 8, BytesBits([0x4b, 0x4c, 0x04, 0x01, 0x00] + Padding())))
         == Ok(State([97, 97, 97, 97, 97, 97], 8, Blank(34)))
  {
    hide EncodeTokens, Inflate, BytesBits, Padding, FixedLit, FixedDist, Expand, TokensOk;
    CopiedTokens();
    CopiedEncoded();
    OneFixedBlock([Literal(97), Literal(97), Match(4, 1)], Blank(34));
    BytesAppend([0x4b, 0x4c, 0x04, 0x01, 0x00], Padding());
    PaddingBlank();
    CopiedBits();
    CopiedSame();
  }

  lemma {:induction false} CopiedTokens()
    ensures var ts := [Literal(97), Literal(97), Match(4, 1)];
            TokensOk(FixedLit(), FixedDist(), 0, ts) && Expand([], ts) == [97, 97, 97, 97, 97, 97]
  {
    hide FixedLit, FixedDist, LengthSymbol, DistSymbol, CopyFrom, Expand, TokensOk, Usable;
    var last: seq<Token> := [Match(4, 1)];
    FixedUsable(97);
    FixedUsable(258);
    FirstSymbols();
    CopyFour();
    FirstOf(Literal(97), [Literal(97)] + last, []);
    FirstOf(Literal(97), last, [97]);
    FirstOf(Match(4, 1), [], [97, 97]);
    NothingExpanded();
    NoneOk([97, 97, 97, 97, 97, 97]);
    assert [Literal(97)] + ([Literal(97)] + last) == [Literal(97), Literal(97), Match(4, 1)];
    assert [Match(4, 1)] + [] == last && [] + [97] == [97] && [97] + [97] == [97, 97];
  }

  lemma {:induction false} FirstOf(t: Token, ts: seq<Token>, out: seq<byte>)
    ensures TokensOk(FixedLit(), FixedDist(), |out|, [t] + ts)
       <==> TokenOk(FixedLit(), FixedDist(), |out|, t) && TokensOk(FixedLit(), FixedDist(), |out| + Size(t), ts)
    ensures Expand(out, [t] + ts) == Expand(Expand1(out, t), ts)
  {
    hide FixedLit, FixedDist, TokenOk, Expand1;
    assert ([t] + ts)[1..] == ts;
  }

  lemma {:induction false} NoneOk(out: seq<byte>)
    ensures TokensOk(FixedLit(), FixedDist(), |out|, []) && Expand(out, []) == out
  {
    hide FixedLit, FixedDist;
  }

  lemma {:induction false} CopyFour()
    ensures CopyFrom([97, 97], 1, 4) == [97, 97, 97, 97, 97, 97]
  {
    hide CopyFrom;
    CopyOne([97, 97], 4);
    CopyOne([97, 97, 97], 3);
    CopyOne([97, 97, 97, 97], 2);
    CopyOne([97, 97, 97, 97, 97], 1);
    CopyNone([97, 97, 97, 97, 97, 97]);
    assert [97, 97] + [97] == [97, 97, 97] && [97, 97, 97] + [97] == [97, 97, 97, 97];
    assert [97, 97, 97, 97] + [97] == [97, 97, 97, 97, 97] && [97, 97, 97, 97, 97] + [97] == [97, 97, 97, 97, 97, 97];
  }

  lemma {:induction false} CopyOne(out: seq<byte>, len: nat)
    requires out != [] && len > 0
    ensures CopyFrom(out, 1, len) == CopyFrom(out + [out[|out| - 1]], 1, len - 1)
  {
  }

  lemma {:induction false} CopyNone(out: seq<byte>)
    requires out != []
    ensures CopyFrom(out, 1, 0) == out
  {
  }

  /** Length 4 is the second length symbol, distance 1 the first distance symbol. */
  lemma {:induction false} FirstSymbols()
    ensures LengthSymbol(4) == 1 && LengthBase(1) == 4 && LengthExtra(1) == 0
    ensures DistSymbol(1) == 0 && DistBase(0) == 1 && DistExtra(0) == 0 && Usable(FixedDist(), 0)
  {
    hide LengthSymbol, DistSymbol, Pow2;
    Pow2Table();
    SecondRow(LengthSymbol(4));
    FirstRow(DistSymbol(1));
  }

  /** The fixed code of the letter a. */
  function LetterA(): (s: seq<bool>)
    ensures |s| == 8
  {
    [true, false, false, true, false, false, false, true]
  }

  lemma {:induction false} FourMore(v: nat, n: nat)
    ensures MsbBits(v, n + 4)
         == MsbBits(v / 16, n) + [v / 8 % 2 == 1, v / 4 % 2 == 1, v / 2 % 2 == 1, v % 2 == 1]
  {
    hide MsbBits;
    LastBit(v, n + 3);
    LastBit(v / 2, n + 2);
    LastBit(v / 4, n + 1);
    LastBit(v / 8, n);
  }

  lemma {:induction false} LetterCode()
    ensures SymbolBits(FixedLit(), 97) == LetterA()
  {
    hide CodeBits, FixedLit, MsbBits;
    FixedUsable(97);
    FixedCodes(97);
    FourMore(0x91, 4);
    FourMore(0x9, 0);
    assert MsbBits(0, 0) == [];
  }

  lemma {:induction false} CopyCode()
    ensures SymbolBits(FixedLit(), 258) == [false, false, false, false, false, true, false]
    ensures SymbolBits(FixedDist(), 0) == Blank(5) && Usable(FixedDist(), 0)
  {
    hide CodeBits, FixedLit, MsbBits;
    FixedUsable(258);
    FixedCodes(258);
    FixedDistCodes(0);
    ZeroBits(5);
    LastBit(2, 6);
    LastBit(1, 5);
  }

  lemma {:induction false} CopiedEncoded()
    ensures EncodeTokens(FixedLit(), FixedDist(), [Literal(97), Literal(97), Match(4, 1)])
         == LetterA() + LetterA() + [false, false, false, false, false, true, false] + Blank(12)
  {
    hide SymbolBits, FixedLit, FixedDist, LetterA, LengthSymbol, DistSymbol, EncodeTokens;
    var lit, dist := FixedLit(), FixedDist();
    var t3, t2 := [Match(4, 1)], [Literal(97), Match(4, 1)];
    var t1 := [Literal(97)] + t2;
    var copy: seq<bool> := [false, false, false, false, false, true, false];
    LetterCode();
    CopyCode();
    FirstSymbols();
    NoTokensEncoded();
    TokensUnfold(t1);
    TokensUnfold(t2);
    TokensUnfold(t3);
    assert t1[1..] == t2 && t2[1..] == t3 && t3[1..] == [];
    assert ToBits(0, 0) == [];
    assert EncodeToken(lit, dist, Match(4, 1)) == copy + Blank(5);
    assert EncodeTokens(lit, dist, t3) == copy + Blank(12);
    assert LetterA() + (LetterA() + (copy + Blank(12))) == LetterA() + LetterA() + copy + Blank(12);
    assert t1 == [Literal(97), Literal(97), Match(4, 1)];
  }

  lemma {:induction false} TokensUnfold(ts: seq<Token>)
    requires ts != []
    ensures EncodeTokens(FixedLit(), FixedDist(), ts)
         == EncodeToken(FixedLit(), FixedDist(), ts[0]) + EncodeTokens(FixedLit(), FixedDist(), ts[1..])
  {
    hide EncodeToken, FixedLit, FixedDist;
  }

  lemma {:induction false} CopiedBits()
    ensures BytesBits([0x4b, 0x4c, 0x04, 0x01, 0x00])
         == [true, true, false, true, false, false, true, false] + [false, false, true, true, false, false, true, false]
            + [false, false, true] + Blank(5) + [true] + Blank(15)
  {
    hide ToBits, BytesBits;
    CopiedBytes();
    OneByte(0x4b, [0x4c, 0x04, 0x01, 0x00]);
    OneByte(0x4c, [0x04, 0x01, 0x00]);
    OneByte(0x04, [0x01, 0x00]);
    OneByte(0x01, [0x00]);
    OneByte(0x00, []);
    assert [0x00] + [] == [0x00] && [0x01] + [0x00] == [0x01, 0x00] && [0x04] + [0x01, 0x00] == [0x04, 0x01, 0x00];
    assert [0x4c] + [0x04, 0x01, 0x00] == [0x4c, 0x04, 0x01, 0x00];
    assert [0x4b] + [0x4c, 0x04, 0x01, 0x00] == [0x4b, 0x4c, 0x04, 0x01, 0x00];
    assert Blank(7) + Blank(8) == Blank(15);
  }

  lemma {:induction false} CopiedBytes()
    ensures ToBits(0x4b, 8) == [true, true, false, true, false, false, true, false]
    ensures ToBits(0x4c, 8) == [false, false, true, true, false, false, true, false]
    ensures ToBits(0x04, 8) == [false, false, true] + Blank(5) && ToBits(0x01, 8) == [true] + Blank(7)
    ensures ToBits(0x00, 8) == Blank(8)
  {
    hide ToBits;
    EightBits(0x4b);
    EightBits(0x4c);
    EightBits(0x04);
    EightBits(0x01);
    ZeroBits(8);
  }

  lemma {:induction false} CopiedSame()
    ensures [true, true, false]
            + (LetterA() + LetterA() + [false, false, false, false, false, true, false] + Blank(12)) + Blank(34)
         == ([true, true, false, true, false, false, true, false]
             + [false, false, true, true, false, false, true, false]
             + [false, false, true] + Blank(5) + [true] + Blank(15)) + Blank(32)
  {
  }

  lemma {:induction false} SecondRow(k: nat)
    requires k <= 28 && LengthBase(k) <= 4
    ensures k <= 1 && LengthBase(1) == 4 && LengthExtra(1) == 0 && LengthBase(0) == 3 && LengthExtra(0) == 0
  {
  }

  lemma {:induction false} FirstRow(d: nat)
    requires d <= 29 && DistBase(d) <= 1
    ensures d == 0 && DistBase(0) == 1 && DistExtra(0) == 0
  {
  }

  /** A byte of one, the length and its complement, low byte first, and the bytes themselves: a stream of one stored
      block (section 3.2.4). */
  lemma {:induction false} StoredStream(data: seq<byte>, cap: nat)
    requires |data| < 0x10000 && |data| <= cap
    ensures var n := |data|;
            Inflate(State([], cap, BytesBits([0x01, n % 256, n / 256, 255 - n % 256, 255 - n / 256] + data
                                             + Padding())))
            == Ok(State(data, cap, Blank(32)))
  {
    hide Inflate, ToBits, BytesBits, StoredWords;
    var n, words, pad := |data|, StoredWords(|data|), Blank(5);
    var blocks := [StoredBlock(pad, data)];
    OnlyStored(blocks, cap);
    InflateEncoded(blocks, State([], cap, Blank(32)));
    WordsAre(n);
    var head: seq<byte> := [0x01] + words;
    OneByte(0x01, words);
    EightBits(0x01);
    BytesAppend(head, data);
    BytesAppend(head + data, Padding());
    PaddingBlank();
    assert head == [0x01, n % 256, n / 256, 255 - n % 256, 255 - n / 256];
    StoredSame(BytesBits(words), BytesBits(data));
  }

  lemma {:induction false} WordsAre(n: nat)
    requires n < 0x10000
    ensures n / 256 < 256 && StoredWords(n) == [n % 256, n / 256, 255 - n % 256, 255 - n / 256]
  {
    var h, l := n / 256, n % 256;
    assert 0xFFFF - n == 256 * (255 - h) + (255 - l);
  }

  lemma {:induction false} OnlyStored(blocks: seq<DeflateBlock>, cap: nat)
    requires |blocks| == 1 && blocks[0].StoredBlock? && |blocks[0].pad| < 8 && |blocks[0].data| < 0x10000
    requires |blocks[0].data| <= cap
    ensures BlocksOk([], blocks, 32)
    ensures EncodeBlocks(blocks)
         == [true] + ([false, false] + (blocks[0].pad
            + (BytesBits(StoredWords(|blocks[0].data|)) + BytesBits(blocks[0].data))))
    ensures ExpandBlocks([], blocks) == blocks[0].data && BlocksRoom([], cap, blocks) == Ok(cap)
  {
    hide BytesBits, StoredWords;
    assert blocks[1..] == [] && EncodeBlocks([]) == [] && EncodeBlock(blocks[0], true) + []
      == EncodeBlock(blocks[0], true);
    assert ToBits(1, 1) == [true] && ToBits(0, 2) == [false, false] && [] + blocks[0].data == blocks[0].data;
  }

  lemma {:induction false} StoredSame(words: seq<bool>, data: seq<bool>)
    ensures [true] + ([false, false] + (Blank(5) + (words + data))) + Blank(32)
         == [true, false, false, false, false, false, false, false] + words + data + Blank(32)
  {
  }
}
