/**
 The rest of the DEFLATE encoder: table descriptions (section 3.2.7 of RFC 1951), stored
 blocks (section 3.2.4) and whole streams, each read back as what was encoded; and what
 this means for a font compressed with gzip.
 */
module DeflateStreams {
  import opened BitOps
  import opened Canonical
  import opened Deflate
  import opened DeflateRoundTrip

  // --------------------------------------------------------- runs of code lengths

  /** An element of the code length list: one length, or a run. */
  datatype CodeRun = One(l: nat) | Same(n: nat) | Zeros(n: nat) | ManyZeros(n: nat)

  predicate RunOk(cl: Lengths, total: nat, acc: seq<int>, r: CodeRun) {
    |acc| + RunSize(r) <= total &&
    match r
    case One(l) => l <= 15 && Usable(cl, l)
    case Same(n) => 3 <= n <= 6 && acc != [] && Usable(cl, 16)
    case Zeros(n) => 3 <= n <= 10 && Usable(cl, 17)
    case ManyZeros(n) => 11 <= n <= 138 && Usable(cl, 18)
  }

  function RunSize(r: CodeRun): nat {
    if r.One? then 1 else r.n
  }

  function ApplyRun(acc: seq<int>, r: CodeRun): (s: seq<int>)
    ensures |s| == |acc| + RunSize(r)
  {
    match r
    case One(l) => acc + [l]
    case Same(n) => acc + Fill(if acc == [] then 0 else acc[|acc| - 1], n)
    case Zeros(n) => acc + Fill(0, n)
    case ManyZeros(n) => acc + Fill(0, n)
  }

  function EncodeRun(cl: Lengths, r: CodeRun): seq<bool> {
    match r
    case One(l) => SymbolBits(cl, l)
    case Same(n) => SymbolBits(cl, 16) + ToBits(if n >= 3 then n - 3 else 0, 2)
    case Zeros(n) => SymbolBits(cl, 17) + ToBits(if n >= 3 then n - 3 else 0, 3)
    case ManyZeros(n) => SymbolBits(cl, 18) + ToBits(if n >= 11 then n - 11 else 0, 7)
  }

  predicate RunsOk(cl: Lengths, total: nat, acc: seq<int>, runs: seq<CodeRun>)
    decreases |runs|
  {
    if runs == [] then |acc| == total
    else RunOk(cl, total, acc, runs[0]) && RunsOk(cl, total, ApplyRun(acc, runs[0]), runs[1..])
  }

  function ApplyRuns(acc: seq<int>, runs: seq<CodeRun>): seq<int>
    decreases |runs|
  {
    if runs == [] then acc else ApplyRuns(ApplyRun(acc, runs[0]), runs[1..])
  }

  function EncodeRuns(cl: Lengths, runs: seq<CodeRun>): seq<bool>
    decreases |runs|
  {
    if runs == [] then [] else EncodeRun(cl, runs[0]) + EncodeRuns(cl, runs[1..])
  }

  lemma {:induction false} CountedRunEncoded(cl: Lengths, sym: nat, base: nat, extra: nat, n: nat, rest: seq<bool>)
    requires |cl| == 19 && Kraft(cl) && Usable(cl, sym) && |rest| >= PADDING
    requires extra <= 16 && base <= n < base + Pow2(extra)
    ensures var bits := SymbolBits(cl, sym) + ToBits(n - base, extra) + rest;
            var r := TakeSymbol(cl, bits);
            r.Ok? && r.value.0 == sym && TakeExtra(base, extra, r.value.1) == Ok((n, rest))
  {
    hide SymbolBits, Kraft, Usable, TakeSymbol, TakeExtra, ToBits;
    var after := ToBits(n - base, extra) + rest;
    assert SymbolBits(cl, sym) + ToBits(n - base, extra) + rest == SymbolBits(cl, sym) + after;
    TakeSymbolEncoded(cl, sym, after);
    TakeExtraEncoded(base, extra, n, rest);
  }

  lemma {:induction false} RunEncoded(cl: Lengths, total: nat, acc: seq<int>, r: CodeRun, rest: seq<bool>)
    requires |cl| == 19 && Kraft(cl) && RunOk(cl, total, acc, r) && |acc| < total && |rest| >= PADDING
    ensures Run(cl, total, acc, EncodeRun(cl, r) + rest) == Ok((ApplyRun(acc, r), rest))
  {
    Pow2Table();
    hide SymbolBits, Kraft, Usable, TakeSymbol, TakeExtra, ToBits, Fill, Pow2;
    match r {
      case One(l) => TakeSymbolEncoded(cl, l, rest);
      case Same(n) => CountedRunEncoded(cl, 16, 3, 2, n, rest);
      case Zeros(n) => CountedRunEncoded(cl, 17, 3, 3, n, rest);
      case ManyZeros(n) => CountedRunEncoded(cl, 18, 11, 7, n, rest);
    }
  }

  lemma {:induction false} RunsGoOn(cl: Lengths, total: nat, acc: seq<int>, bits: seq<bool>, next: seq<int>,
                                    rest: seq<bool>)
    requires |cl| == 19 && |acc| < total && Run(cl, total, acc, bits) == Ok((next, rest))
    ensures Runs(cl, total, acc, bits) == Runs(cl, total, next, rest)
  {
  }

  /** A run-length coded list of code lengths is read back as the list. */
  lemma {:induction false} RunsEncoded(cl: Lengths, total: nat, acc: seq<int>, runs: seq<CodeRun>, rest: seq<bool>)
    requires |cl| == 19 && Kraft(cl) && |rest| >= PADDING
    requires RunsOk(cl, total, acc, runs)
    ensures |acc| <= total && Runs(cl, total, acc, EncodeRuns(cl, runs) + rest) == Ok((ApplyRuns(acc, runs), rest))
    decreases |runs|
  {
    hide Run, Kraft, EncodeRun, ApplyRun, Usable;
    if runs == [] {
      assert EncodeRuns(cl, runs) + rest == rest;
    } else {
      var r := runs[0];
      var after := EncodeRuns(cl, runs[1..]) + rest;
      assert EncodeRuns(cl, runs) + rest == EncodeRun(cl, r) + after;
      RunEncoded(cl, total, acc, r, after);
      hide Runs;
      RunsGoOn(cl, total, acc, EncodeRun(cl, r) + after, ApplyRun(acc, r), after);
      RunsEncoded(cl, total, ApplyRun(acc, r), runs[1..], rest);
    }
  }

  // --------------------------------------------------------- code length codes

  function EncodeSizes(clens: seq<int>, i: nat, n: nat): seq<bool>
    requires |clens| == 19 && i <= n <= 19
    decreases n - i
  {
    if i == n then [] else ToBits(Size3(clens, i), 3) + EncodeSizes(clens, i + 1, n)
  }

  function Size3(clens: seq<int>, i: nat): nat
    requires |clens| == 19 && i < 19
  {
    var s := clens[DEZIGZAG[i]];
    if s < 0 then 0 else s
  }

  /** The place of each code length symbol in transmission order. */
  const ZIGZAG: seq<nat> := [3, 17, 15, 13, 11, 9, 7, 5, 4, 6, 8, 10, 12, 14, 16, 18, 0, 1, 2]

  lemma {:induction false} ZigZag()
    ensures forall s :: 0 <= s < 19 ==> ZIGZAG[s] < 19 && DEZIGZAG[ZIGZAG[s]] == s
    ensures forall i :: 0 <= i < 19 ==> DEZIGZAG[i] < 19 && ZIGZAG[DEZIGZAG[i]] == i
  {
  }

  /** Exactly the first i transmitted sizes have arrived. */
  ghost predicate Sent(sizes: seq<int>, clens: seq<int>, i: nat) {
    && |sizes| == |clens| == 19
    && forall s :: 0 <= s < 19 ==> sizes[s] == if ZIGZAG[s] < i then clens[s] else 0
  }

  ghost predicate SizesOk(clens: seq<int>) {
    |clens| == 19 && forall s :: 0 <= s < 19 ==> 0 <= clens[s] <= 7
  }

  lemma {:induction false} SentNext(sizes: seq<int>, clens: seq<int>, i: nat)
    requires i < 19 && Sent(sizes, clens, i) && SizesOk(clens)
    ensures Sent(sizes[DEZIGZAG[i] := Size3(clens, i)], clens, i + 1) && Size3(clens, i) <= 7
  {
    ZigZag();
  }

  lemma {:induction false} SizesEncoded(clens: seq<int>, sizes: seq<int>, i: nat, n: nat, rest: seq<bool>)
    requires SizesOk(clens) && i <= n <= 19 && Sent(sizes, clens, i) && |rest| >= PADDING
    ensures var r := CodeLengths(sizes, i, n, EncodeSizes(clens, i, n) + rest);
            r.Ok? && r.value.1 == rest && Sent(r.value.0, clens, n)
    decreases n - i
  {
    if i == n {
      assert EncodeSizes(clens, i, n) + rest == rest;
    } else {
      SentNext(sizes, clens, i);
      FirstSize(clens, sizes, i, n, rest);
      ZigZag();
      hide Sent, SizesOk, Size3, CodeLengths, EncodeSizes;
      SizesEncoded(clens, sizes[DEZIGZAG[i] := Size3(clens, i)], i + 1, n, rest);
    }
  }

  lemma {:induction false} FirstSize(clens: seq<int>, sizes: seq<int>, i: nat, n: nat, rest: seq<bool>)
    requires |clens| == |sizes| == 19 && i < n <= 19 && Size3(clens, i) <= 7 && |rest| >= PADDING
    ensures CodeLengths(sizes, i, n, EncodeSizes(clens, i, n) + rest)
         == CodeLengths(sizes[DEZIGZAG[i] := Size3(clens, i)], i + 1, n, EncodeSizes(clens, i + 1, n) + rest)
  {
    hide Size3, ToBits, Take;
    var after := EncodeSizes(clens, i + 1, n) + rest;
    assert EncodeSizes(clens, i, n) + rest == ToBits(Size3(clens, i), 3) + after;
    Pow2Table();
    TakeEncoded(Size3(clens, i), 3, after);
  }

  // ------------------------------------------------------------ table descriptions

  /** The description of a dynamic block's tables. */
  datatype Header = Header(hlit: nat, hdist: nat, hclen: nat, clens: seq<int>, runs: seq<CodeRun>)

  ghost predicate CodeOk(h: Header) {
    && 4 <= h.hclen <= 19 && SizesOk(h.clens)
    && (forall s :: 0 <= s < 19 && ZIGZAG[s] >= h.hclen ==> h.clens[s] == 0)
    && Kraft(h.clens)
  }

  ghost predicate HeaderOk(h: Header) {
    && 257 <= h.hlit <= 288 && 1 <= h.hdist <= 32
    && CodeOk(h)
    && RunsOk(h.clens, h.hlit + h.hdist, [], h.runs)
    && AllLengths(ApplyRuns([], h.runs))
    && |ApplyRuns([], h.runs)| == h.hlit + h.hdist
    && Kraft(Lit(h)) && Kraft(Dist(h))
  }

  ghost function Lit(h: Header): Lengths
    requires AllLengths(ApplyRuns([], h.runs)) && h.hlit <= |ApplyRuns([], h.runs)|
  {
    ApplyRuns([], h.runs)[..h.hlit]
  }

  ghost function Dist(h: Header): Lengths
    requires AllLengths(ApplyRuns([], h.runs)) && h.hlit <= |ApplyRuns([], h.runs)|
  {
    ApplyRuns([], h.runs)[h.hlit..]
  }

  ghost function EncodeHeader(h: Header): seq<bool>
    requires HeaderOk(h)
  {
    ToBits(h.hlit - 257, 5) + (ToBits(h.hdist - 1, 5) + (ToBits(h.hclen - 4, 4)
    + (EncodeSizes(h.clens, 0, h.hclen) + EncodeRuns(h.clens, h.runs))))
  }

  lemma {:induction false} CountsEncoded(hlit: nat, hdist: nat, hclen: nat, rest: seq<bool>)
    requires 257 <= hlit <= 288 && 1 <= hdist <= 32 && 4 <= hclen <= 19 && |rest| >= PADDING
    ensures Counts(ToBits(hlit - 257, 5) + (ToBits(hdist - 1, 5) + (ToBits(hclen - 4, 4) + rest)))
            == Ok((hlit, hdist, hclen, rest))
  {
    Pow2Table();
    hide ToBits, Take;
    var bits3 := ToBits(hclen - 4, 4) + rest;
    var bits2 := ToBits(hdist - 1, 5) + bits3;
    TakeEncoded(hclen - 4, 4, rest);
    TakeEncoded(hdist - 1, 5, bits3);
    TakeEncoded(hlit - 257, 5, bits2);
  }

  lemma {:induction false} CodeEncoded(h: Header, rest: seq<bool>)
    requires CodeOk(h) && |rest| >= PADDING
    ensures CodeLengthCode(h.hclen, EncodeSizes(h.clens, 0, h.hclen) + rest) == Ok((h.clens, rest))
  {
    hide CodeLengths, Kraft, EncodeSizes;
    assert Sent(Fill(0, 19), h.clens, 0);
    SizesEncoded(h.clens, Fill(0, 19), 0, h.hclen, rest);
    var sizes := CodeLengths(Fill(0, 19), 0, h.hclen, EncodeSizes(h.clens, 0, h.hclen) + rest).value.0;
    assert sizes == h.clens;
  }

  /** A table description is read back as the two tables it describes. */
  lemma {:induction false} TablesEncoded(h: Header, rest: seq<bool>)
    requires HeaderOk(h) && |rest| >= PADDING
    ensures Tables(EncodeHeader(h) + rest) == Ok((Lit(h), Dist(h), rest))
  {
    hide ToBits, Counts, CodeLengthCode, Runs, RunsOk, Kraft, EncodeSizes, EncodeRuns, ApplyRuns, CodeOk, AllLengths;
    CodeFacts(h);
    var total := h.hlit + h.hdist;
    var bits2 := EncodeRuns(h.clens, h.runs) + rest;
    var bits1 := EncodeSizes(h.clens, 0, h.hclen) + bits2;
    assert EncodeHeader(h) + rest
        == ToBits(h.hlit - 257, 5) + (ToBits(h.hdist - 1, 5) + (ToBits(h.hclen - 4, 4) + bits1));
    CountsEncoded(h.hlit, h.hdist, h.hclen, bits1);
    CodeEncoded(h, bits2);
    RunsEncoded(h.clens, total, [], h.runs, rest);
  }

  lemma {:induction false} CodeFacts(h: Header)
    requires CodeOk(h)
    ensures 4 <= h.hclen <= 19 && |h.clens| == 19 && (forall i :: 0 <= i < 19 ==> 0 <= h.clens[i] <= 15)
         && Kraft(h.clens)
  {
  }

  // ------------------------------------------------------------------- blocks

  datatype DeflateBlock =
    | StoredBlock(pad: seq<bool>, data: seq<byte>)
    | FixedBlock(tokens: seq<Token>)
    | DynBlock(header: Header, tokens: seq<Token>)

  function StoredWords(n: nat): (bs: seq<byte>)
    requires n < 0x10000
    ensures |bs| == 4
  {
    [n % 256, n / 256, (0xFFFF - n) % 256, (0xFFFF - n) / 256]
  }

  /** The block is one the format allows, given the n bytes written so far and the number of bits
      that follow it. A stored block starts at a byte boundary, its pad filling the gap. */
  ghost predicate BlockOk(n: nat, b: DeflateBlock, later: nat) {
    match b
    case StoredBlock(pad, data) => |pad| < 8 && |data| < 0x10000 && later % 8 == 0
    case FixedBlock(tokens) => TokensOk(FixedLit(), FixedDist(), n, tokens)
    case DynBlock(h, tokens) => HeaderOk(h) && Usable(Lit(h), 256) && TokensOk(Lit(h), Dist(h), n, tokens)
  }

  ghost function EncodeBody(b: DeflateBlock): seq<bool>
    requires b.StoredBlock? ==> |b.data| < 0x10000
    requires b.DynBlock? ==> HeaderOk(b.header)
  {
    match b
    case StoredBlock(pad, data) => pad + (BytesBits(StoredWords(|data|)) + BytesBits(data))
    case FixedBlock(tokens) => EncodeTokens(FixedLit(), FixedDist(), tokens)
    case DynBlock(h, tokens) => EncodeHeader(h) + EncodeTokens(Lit(h), Dist(h), tokens)
  }

  function Kind(b: DeflateBlock): nat {
    match b case StoredBlock(_, _) => 0 case FixedBlock(_) => 1 case DynBlock(_, _) => 2
  }

  function ExpandBlock(out: seq<byte>, b: DeflateBlock): (r: seq<byte>)
    ensures out <= r
  {
    if b.StoredBlock? then out + b.data else Expand(out, b.tokens)
  }

  function BlockRoom(out: seq<byte>, cap: nat, b: DeflateBlock): Result<nat> {
    if b.StoredBlock? then Room(out, cap, |b.data|) else TokensRoom(out, cap, b.tokens)
  }

  lemma {:induction false} BytesEncoded(bs: seq<byte>, rest: seq<bool>)
    ensures TakeBytes(BytesBits(bs) + rest, |bs|) == bs
    ensures (BytesBits(bs) + rest)[8 * |bs|..] == rest
  {
    if bs != [] {
      var bits := BytesBits(bs) + rest;
      FromToBits(bs[0], 8);
      Pow2Values();
      LowSmall(bs[0], 8);
      hide ToBits, FromBits;
      assert bits[..8] == ToBits(bs[0], 8);
      assert bits[8..] == BytesBits(bs[1..]) + rest;
      BytesEncoded(bs[1..], rest);
    }
  }

  lemma {:induction false} WordsBack(n: nat)
    requires n < 0x10000
    ensures var w := StoredWords(n); Word16(w[0], w[1]) == n && Word16(w[2], w[3]) == 0xFFFF - n
  {
  }

  lemma {:induction false} AlignedAfterPad(pad: seq<bool>, bits: seq<bool>)
    requires |pad| < 8 && |bits| % 8 == 0
    ensures Aligned(pad + bits) == bits
  {
  }

  lemma {:induction false} StoredBodyEncoded(data: seq<byte>, st: State)
    requires |data| < 0x10000
    ensures StoredBody(StoredWords(|data|), State(st.out, st.cap, BytesBits(data) + st.bits))
            == Resume(Room(st.out, st.cap, |data|), st.out + data, st.bits)
  {
    hide BytesBits, TakeBytes, Room, StoredWords, Word16;
    WordsBack(|data|);
    BytesEncoded(data, st.bits);
  }

  lemma {:induction false} StoredEncoded(pad: seq<bool>, data: seq<byte>, st: State)
    requires |pad| < 8 && |data| < 0x10000 && |st.bits| % 8 == 0
    ensures Stored(State(st.out, st.cap, EncodeBody(StoredBlock(pad, data)) + st.bits))
            == Resume(Room(st.out, st.cap, |data|), st.out + data, st.bits)
  {
    hide BytesBits, TakeBytes, Room, StoredWords, Word16, Aligned, StoredBody;
    var words := StoredWords(|data|);
    var after := BytesBits(data) + st.bits;
    var bits := BytesBits(words) + after;
    assert EncodeBody(StoredBlock(pad, data)) + st.bits == pad + bits;
    WholeLength(4 + |data|, |st.bits|);
    AlignedAfterPad(pad, bits);
    BytesEncoded(words, after);
    StoredBodyEncoded(data, st);
  }

  lemma {:induction false} WholeLength(n: nat, m: nat)
    requires m % 8 == 0
    ensures (8 * n + m) % 8 == 0
  {
  }

  // ------------------------------------------------------------------- streams

  ghost function EncodeBlock(b: DeflateBlock, last: bool): seq<bool>
    requires b.StoredBlock? ==> |b.data| < 0x10000
    requires b.DynBlock? ==> HeaderOk(b.header)
  {
    ToBits(if last then 1 else 0, 1) + (ToBits(Kind(b), 2) + EncodeBody(b))
  }

  /** The result of a block, with the flag of its header. */
  function Marked(last: bool, r: Result<State>): Result<(bool, State)> {
    if r.Ok? then Ok((last, r.value)) else if r.Fail? then Fail else Undefined
  }

  /** A block with its header is read back as what it expands to. */
  lemma {:induction false} AnyBlockEncoded(b: DeflateBlock, last: bool, st: State)
    requires BlockOk(|st.out|, b, |st.bits|) && |st.bits| >= PADDING
    ensures AnyBlock(State(st.out, st.cap, EncodeBlock(b, last) + st.bits))
            == Marked(last, Resume(BlockRoom(st.out, st.cap, b), ExpandBlock(st.out, b), st.bits))
  {
    BodyEncoded(b, st);
    BlockBits(b, last, st.bits, |st.out|);
    hide *;
    var bits2 := EncodeBody(b) + st.bits;
    TakeEncoded(if last then 1 else 0, 1, ToBits(Kind(b), 2) + bits2);
    TakeEncoded(Kind(b), 2, bits2);
    AnyBlockIs(State(st.out, st.cap, EncodeBlock(b, last) + st.bits), if last then 1 else 0, Kind(b),
               ToBits(Kind(b), 2) + bits2, bits2);
  }

  lemma {:induction false} BlockBits(b: DeflateBlock, last: bool, rest: seq<bool>, n: nat)
    requires BlockOk(n, b, |rest|)
    ensures (b.StoredBlock? ==> |b.data| < 0x10000) && (b.DynBlock? ==> HeaderOk(b.header))
    ensures EncodeBlock(b, last) + rest == ToBits(if last then 1 else 0, 1)
         + (ToBits(Kind(b), 2) + (EncodeBody(b) + rest))
    ensures Kind(b) < Pow2(2) && Pow2(1) == 2 && PADDING == 32
  {
    hide ToBits, EncodeBody, HeaderOk, TokensOk;
    Pow2Table();
  }

  lemma {:induction false} AnyBlockIs(st: State, fin: nat, kind: nat, bits1: seq<bool>, bits2: seq<bool>)
    requires Take(st.bits, 1) == Ok((fin, bits1)) && Take(bits1, 2) == Ok((kind, bits2))
    ensures var body := Body(kind, State(st.out, st.cap, bits2));
            AnyBlock(st) == Marked(fin != 0, body)
  {
    hide Take, Body;
  }

  lemma {:induction false} BodyEncoded(b: DeflateBlock, st: State)
    requires BlockOk(|st.out|, b, |st.bits|) && |st.bits| >= PADDING
    ensures Body(Kind(b), State(st.out, st.cap, EncodeBody(b) + st.bits))
            == Resume(BlockRoom(st.out, st.cap, b), ExpandBlock(st.out, b), st.bits)
  {
    match b {
      case StoredBlock(pad, data) =>
        StoredEncoded(pad, data, st);
      case FixedBlock(tokens) =>
        FixedKraft();
        FixedEnd();
        hide FixedLit, FixedDist;
        BlockEncoded(FixedLit(), FixedDist(), tokens, st);
      case DynBlock(h, tokens) =>
        DynamicEncoded(h, tokens, st);
    }
  }

  lemma {:induction false} FixedEnd()
    ensures Usable(FixedLit(), 256)
  {
  }

  lemma {:induction false} DynamicEncoded(h: Header, tokens: seq<Token>, st: State)
    requires HeaderOk(h) && Usable(Lit(h), 256) && TokensOk(Lit(h), Dist(h), |st.out|, tokens)
    requires |st.bits| >= PADDING
    ensures DynamicBlock(State(st.out, st.cap, EncodeHeader(h) + EncodeTokens(Lit(h), Dist(h), tokens) + st.bits))
            == Resume(TokensRoom(st.out, st.cap, tokens), Expand(st.out, tokens), st.bits)
  {
    HeaderTables(h);
    var lit, dist := Lit(h), Dist(h);
    var after := EncodeTokens(lit, dist, tokens) + st.bits;
    hide Block, Tables, HeaderOk, Lit, Dist, Kraft, Usable, EncodeHeader, EncodeTokens, TokensOk, TokensRoom, Expand;
    assert EncodeHeader(h) + EncodeTokens(lit, dist, tokens) + st.bits == EncodeHeader(h) + after;
    TablesEncoded(h, after);
    BlockEncoded(lit, dist, tokens, st);
  }

  lemma {:induction false} HeaderTables(h: Header)
    requires HeaderOk(h)
    ensures AllLengths(ApplyRuns([], h.runs)) && h.hlit <= |ApplyRuns([], h.runs)|
    ensures |Lit(h)| <= 288 && |Dist(h)| <= 32 && Kraft(Lit(h)) && Kraft(Dist(h))
  {
  }

  /** The blocks are allowed where they stand, tail bits after the last one. */
  ghost predicate BlocksOk(out: seq<byte>, blocks: seq<DeflateBlock>, tail: nat)
    decreases |blocks|
  {
    blocks != [] && Encodable(blocks)
    && BlockOk(|out|, blocks[0], |EncodeBlocks(blocks[1..])| + tail)
    && (|blocks| > 1 ==> BlocksOk(ExpandBlock(out, blocks[0]), blocks[1..], tail))
  }

  ghost predicate Encodable(blocks: seq<DeflateBlock>) {
    forall i :: 0 <= i < |blocks| ==>
      (blocks[i].StoredBlock? ==> |blocks[i].data| < 0x10000) && (blocks[i].DynBlock? ==> HeaderOk(blocks[i].header))
  }

  /** The blocks one after another, the last one marked. */
  ghost function EncodeBlocks(blocks: seq<DeflateBlock>): seq<bool>
    requires Encodable(blocks)
    decreases |blocks|
  {
    if blocks == [] then []
    else EncodeBlock(blocks[0], |blocks| == 1) + EncodeBlocks(blocks[1..])
  }

  function ExpandBlocks(out: seq<byte>, blocks: seq<DeflateBlock>): (r: seq<byte>)
    ensures out <= r
    decreases |blocks|
  {
    if blocks == [] then out else ExpandBlocks(ExpandBlock(out, blocks[0]), blocks[1..])
  }

  function BlocksRoom(out: seq<byte>, cap: nat, blocks: seq<DeflateBlock>): Result<nat>
    decreases |blocks|
  {
    if blocks == [] then Ok(cap)
    else
      var next :- BlockRoom(out, cap, blocks[0]);
      BlocksRoom(ExpandBlock(out, blocks[0]), next, blocks[1..])
  }

  lemma {:induction false} InflateGoesOn(st: State, last: bool, room: Result<nat>, out: seq<byte>, bits: seq<bool>)
    requires AnyBlock(st) == Marked(last, Resume(room, out, bits))
    ensures Inflate(st)
         == if room.Ok? && !last then Inflate(State(out, room.value, bits)) else Resume(room, out, bits)
  {
    hide AnyBlock;
  }

  /** A whole stream is read back as the expansion of its blocks, for every list of blocks the
      format allows and every tail that pads the input. */
  lemma {:induction false} InflateEncoded(blocks: seq<DeflateBlock>, st: State)
    requires BlocksOk(st.out, blocks, |st.bits|) && |st.bits| >= PADDING
    ensures Inflate(State(st.out, st.cap, EncodeBlocks(blocks) + st.bits))
            == Resume(BlocksRoom(st.out, st.cap, blocks), ExpandBlocks(st.out, blocks), st.bits)
    decreases |blocks|
  {
    hide *;
    FirstBlock(st.out, blocks, |st.bits|);
    FirstBlockRoom(st.out, st.cap, blocks);
    var b, rest := blocks[0], blocks[1..];
    var last := |blocks| == 1;
    var after := EncodeBlocks(rest) + st.bits;
    assert EncodeBlocks(blocks) + st.bits == EncodeBlock(b, last) + after;
    AnyBlockEncoded(b, last, State(st.out, st.cap, after));
    var room, next := BlockRoom(st.out, st.cap, b), ExpandBlock(st.out, b);
    InflateGoesOn(State(st.out, st.cap, EncodeBlock(b, last) + after), last, room, next, after);
    if last {
      assert after == st.bits;
    } else if room.Ok? {
      InflateEncoded(rest, State(next, room.value, st.bits));
    } else {
      StuckRoom(room, next, ExpandBlocks(st.out, blocks), after, st.bits);
    }
  }

  /** The definitions unfolded at a first block. */
  lemma {:induction false} FirstBlock(out: seq<byte>, blocks: seq<DeflateBlock>, tail: nat)
    requires BlocksOk(out, blocks, tail)
    ensures blocks != [] && Encodable(blocks) && Encodable(blocks[1..])
    ensures var b, rest := blocks[0], blocks[1..];
            BlockOk(|out|, b, |EncodeBlocks(rest)| + tail)
            && (b.StoredBlock? ==> |b.data| < 0x10000) && (b.DynBlock? ==> HeaderOk(b.header))
            && EncodeBlocks(blocks) == EncodeBlock(b, |blocks| == 1) + EncodeBlocks(rest)
            && ExpandBlocks(out, blocks) == ExpandBlocks(ExpandBlock(out, b), rest)
            && (|blocks| > 1 ==> BlocksOk(ExpandBlock(out, b), rest, tail))
            && (|blocks| == 1 ==> EncodeBlocks(rest) == [] && ExpandBlocks(out, blocks) == ExpandBlock(out, b))
  {
    hide BlockOk, EncodeBlock, ExpandBlock, HeaderOk;
  }

  lemma {:induction false} FirstBlockRoom(out: seq<byte>, cap: nat, blocks: seq<DeflateBlock>)
    requires blocks != []
    ensures var room := BlockRoom(out, cap, blocks[0]);
            BlocksRoom(out, cap, blocks)
            == if room.Ok? then (if |blocks| == 1 then room
                                 else BlocksRoom(ExpandBlock(out, blocks[0]), room.value, blocks[1..]))
               else room
  {
    hide BlockRoom, ExpandBlock;
    assert |blocks| == 1 ==> blocks[1..] == [];
  }
}
