/**
 What the decoder does with a compressed font. It starts with an eight-byte buffer and, the
 first time something does not fit, reads the font's size from bytes 4 to 7 of what it has
 written. So it inflates a font correctly exactly when no literal, copy or stored block of
 the stream crosses the eighth output byte: one that does makes it read a size that has
 not been written yet.
 */
module FontRoundTrip {
  import opened BitOps
  import opened Canonical
  import opened Deflate
  import opened DeflateRoundTrip
  import opened DeflateStreams
  import Inflater

  /** A font file as far as the decoder looks at it. */
  predicate Font(f: seq<byte>) {
    8 <= |f| < 0x80000000 && f[0] == Magic(0) && f[1] == Magic(1) && f[2] == Magic(2)
    && Word32(f[4], f[5], f[6], f[7]) == |f|
  }

  /** It begins with SFN, and its bytes 4 to 7 hold its size, the least significant first. */
  lemma {:induction false} FontIs(f: seq<byte>)
    ensures Font(f) <==> 8 <= |f| < 0x8000_0000 && f[..3] == [0x53, 0x46, 0x4E]
                         && |f| == f[4] as int + 256 * (f[5] as int) + 65536 * (f[6] as int) + 16777216 * (f[7] as int)
  {
    if |f| >= 3 { assert f[..3] == [f[0], f[1], f[2]]; }
  }

  /** Appending size bytes after n does not cross the eighth byte. */
  predicate Clear(n: nat, size: nat) {
    n + size <= 8 || n >= 8
  }

  predicate TokensClear(n: nat, tokens: seq<Token>)
    decreases |tokens|
  {
    tokens == [] || (Clear(n, Size(tokens[0])) && TokensClear(n + Size(tokens[0]), tokens[1..]))
  }

  predicate BlockClear(n: nat, b: DeflateBlock) {
    if b.StoredBlock? then Clear(n, |b.data|) else TokensClear(n, b.tokens)
  }

  predicate BlocksClear(out: seq<byte>, blocks: seq<DeflateBlock>)
    decreases |blocks|
  {
    blocks == [] || (BlockClear(|out|, blocks[0]) && BlocksClear(ExpandBlock(out, blocks[0]), blocks[1..]))
  }

  /** The output is a prefix of the font, and the buffer is still the first one or has the font's size. */
  ghost predicate OnTheWay(f: seq<byte>, out: seq<byte>, cap: nat) {
    out <= f && ((cap == 8 && |out| <= 8) || (cap == |f| && |out| >= 8))
  }

  /** The buffer has room, now or after growing, exactly when the eighth byte is not crossed. */
  lemma {:induction false} RoomIffClear(f: seq<byte>, out: seq<byte>, cap: nat, size: nat, next: seq<byte>)
    requires Font(f) && OnTheWay(f, out, cap)
    requires out <= next <= f && |next| == |out| + size
    ensures Clear(|out|, size) ==> Room(out, cap, size).Ok? && OnTheWay(f, next, Room(out, cap, size).value)
    ensures !Clear(|out|, size) ==> Room(out, cap, size) == Undefined
  {
    forall k | 0 <= k < |out| ensures out[k] == f[k] { }
  }

  lemma {:induction false} TokensRoomIffClear(f: seq<byte>, lit: Lengths, dist: Lengths, out: seq<byte>, cap: nat,
                                              tokens: seq<Token>)
    requires Font(f) && OnTheWay(f, out, cap)
    requires TokensOk(lit, dist, |out|, tokens) && Expand(out, tokens) <= f
    ensures var room := TokensRoom(out, cap, tokens);
            if TokensClear(|out|, tokens) then room.Ok? && OnTheWay(f, Expand(out, tokens), room.value)
            else room == Undefined
    decreases |tokens|
  {
    hide *;
    if tokens == [] {
      NoTokens(out, cap);
    } else {
      FirstToken(lit, dist, out, cap, tokens);
      FirstRoom(out, cap, tokens);
      FirstClear(|out|, tokens);
      var size, next := Size(tokens[0]), Expand1(out, tokens[0]);
      assert next <= Expand(next, tokens[1..]) <= f;
      RoomIffClear(f, out, cap, size, next);
      if Clear(|out|, size) {
        TokensRoomIffClear(f, lit, dist, next, Room(out, cap, size).value, tokens[1..]);
      }
    }
  }

  lemma {:induction false} NoTokens(out: seq<byte>, cap: nat)
    ensures TokensRoom(out, cap, []) == Ok(cap) && Expand(out, []) == out && TokensClear(|out|, [])
  {
  }

  lemma {:induction false} FirstClear(n: nat, tokens: seq<Token>)
    requires tokens != []
    ensures TokensClear(n, tokens) == (Clear(n, Size(tokens[0])) && TokensClear(n + Size(tokens[0]), tokens[1..]))
  {
  }

  lemma {:induction false} BlockRoomIffClear(f: seq<byte>, out: seq<byte>, cap: nat, b: DeflateBlock, later: nat)
    requires Font(f) && OnTheWay(f, out, cap)
    requires BlockOk(|out|, b, later) && ExpandBlock(out, b) <= f
    ensures var room := BlockRoom(out, cap, b);
            if BlockClear(|out|, b) then room.Ok? && OnTheWay(f, ExpandBlock(out, b), room.value)
            else room == Undefined
  {
    hide Font, OnTheWay, Clear, Room, HeaderOk, TokensOk, TokensClear, TokensRoom, Expand;
    match b {
      case StoredBlock(_, data) => RoomIffClear(f, out, cap, |data|, out + data);
      case FixedBlock(tokens) => TokensRoomIffClear(f, FixedLit(), FixedDist(), out, cap, tokens);
      case DynBlock(h, tokens) =>
        HeaderTables(h);
        TokensRoomIffClear(f, Lit(h), Dist(h), out, cap, tokens);
    }
  }

  lemma {:induction false} BlocksRoomIffClear(f: seq<byte>, out: seq<byte>, cap: nat, blocks: seq<DeflateBlock>,
                                              tail: nat)
    requires Font(f) && OnTheWay(f, out, cap)
    requires BlocksOk(out, blocks, tail) && ExpandBlocks(out, blocks) <= f
    ensures var room := BlocksRoom(out, cap, blocks);
            if BlocksClear(out, blocks) then room.Ok? && OnTheWay(f, ExpandBlocks(out, blocks), room.value)
            else room == Undefined
    decreases |blocks|
  {
    hide *;
    FirstBlock(out, blocks, tail);
    FirstBlockRoom(out, cap, blocks);
    FirstBlockClear(out, blocks);
    var b, rest := blocks[0], blocks[1..];
    var next := ExpandBlock(out, b);
    assert next <= ExpandBlocks(next, rest) <= f;
    BlockRoomIffClear(f, out, cap, b, |EncodeBlocks(rest)| + tail);
    if BlockClear(|out|, b) && |blocks| > 1 {
      BlocksRoomIffClear(f, next, BlockRoom(out, cap, b).value, rest, tail);
    }
  }

  lemma {:induction false} FirstBlockClear(out: seq<byte>, blocks: seq<DeflateBlock>)
    requires blocks != []
    ensures BlocksClear(out, blocks) == (BlockClear(|out|, blocks[0])
                                         && BlocksClear(ExpandBlock(out, blocks[0]), blocks[1..]))
    ensures |blocks| == 1 ==> BlocksClear(out, blocks) == BlockClear(|out|, blocks[0])
  {
    hide BlockClear, ExpandBlock;
  }

  // ------------------------------------------------------------------ the theorem

  /** Every stream of a font that crosses the eighth byte nowhere inflates to the font, leaving
      the tail unread; every other one makes the decoder read unwritten memory. */
  lemma {:induction false} FontInflates(f: seq<byte>, blocks: seq<DeflateBlock>, tail: seq<bool>)
    requires Font(f) && |tail| >= PADDING
    requires BlocksOk([], blocks, |tail|) && ExpandBlocks([], blocks) == f
    ensures var r := Inflate(State([], 8, EncodeBlocks(blocks) + tail));
            if BlocksClear([], blocks) then r == Ok(State(f, |f|, tail)) else r == Undefined
  {
    hide BlocksClear, BlocksOk, EncodeBlocks, ExpandBlocks, BlocksRoom, Inflate;
    BlocksRoomIffClear(f, [], 8, blocks, |tail|);
    InflateEncoded(blocks, State([], 8, tail));
  }

  /** The decoder itself, run on the bytes of such a stream. */
  method InflateFont(buffer: seq<byte>, ghost f: seq<byte>, ghost blocks: seq<DeflateBlock>, ghost tail: seq<bool>)
      returns (out: array?<byte>)
    requires Font(f) && |tail| >= PADDING
    requires BlocksOk([], blocks, |tail|) && ExpandBlocks([], blocks) == f && BlocksClear([], blocks)
    requires BytesBits(buffer) == EncodeBlocks(blocks) + tail
    ensures out != null && out[..] == f
  {
    hide *;
    FontInflates(f, blocks, tail);
    out := Inflater.ZlibDecode(buffer);
  }

  function Literals(f: seq<byte>): (ts: seq<Token>)
    ensures |ts| == |f|
  {
    seq(|f|, i requires 0 <= i < |f| => Literal(f[i]))
  }

  lemma {:induction false} LiteralsExpand(out: seq<byte>, f: seq<byte>)
    ensures Expand(out, Literals(f)) == out + f
    ensures TokensOk(FixedLit(), FixedDist(), |out|, Literals(f)) && TokensClear(|out|, Literals(f))
    decreases |f|
  {
    if f == [] {
      assert out + f == out;
    } else {
      LiteralUsable(f[0]);
      assert Literals(f)[0] == Literal(f[0]) && Literals(f)[1..] == Literals(f[1..]);
      LiteralsExpand(out + [f[0]], f[1..]);
      hide *;
      FirstLiteral(out, f[0], Literals(f));
      assert out + [f[0]] + f[1..] == out + f;
    }
  }

  lemma {:induction false} FirstLiteral(out: seq<byte>, b: byte, tokens: seq<Token>)
    requires tokens != [] && tokens[0] == Literal(b) && Usable(FixedLit(), b)
    ensures Expand(out, tokens) == Expand(out + [b], tokens[1..])
    ensures TokensOk(FixedLit(), FixedDist(), |out|, tokens)
         == TokensOk(FixedLit(), FixedDist(), |out + [b]|, tokens[1..])
    ensures TokensClear(|out|, tokens) == TokensClear(|out + [b]|, tokens[1..])
  {
    hide FixedLit, FixedDist, Usable;
  }

  lemma {:induction false} LiteralUsable(b: byte)
    ensures Usable(FixedLit(), b)
  {
  }

  /** The theorem is not empty: literals alone carry any font. */
  lemma {:induction false} EveryFontHasAStream(f: seq<byte>, tail: nat)
    requires Font(f)
    ensures var blocks := [FixedBlock(Literals(f))];
            BlocksOk([], blocks, tail) && ExpandBlocks([], blocks) == f && BlocksClear([], blocks)
  {
    hide Font, FixedLit, FixedDist, Literals, TokensOk, TokensClear, Expand;
    LiteralsExpand([], f);
    var blocks := [FixedBlock(Literals(f))];
    assert blocks[1..] == [] && EncodeBlocks(blocks[1..]) == [];
    assert [] + f == f;
  }

  /** The failing family: a font of more than eight bytes sent as one stored block. */
  lemma {:induction false} StoredFontFails(f: seq<byte>, pad: seq<bool>, tail: seq<bool>)
    requires Font(f) && 8 < |f| < 0x10000 && |pad| < 8 && |tail| >= PADDING && |tail| % 8 == 0
    ensures var blocks := [StoredBlock(pad, f)];
            Encodable(blocks) && ExpandBlocks([], blocks) == f
            && Inflate(State([], 8, EncodeBlocks(blocks) + tail)) == Undefined
  {
    hide Font, Inflate;
    var blocks := [StoredBlock(pad, f)];
    assert blocks[1..] == [] && EncodeBlocks(blocks[1..]) == [];
    assert [] + f == f;
    FontInflates(f, blocks, tail);
  }
}
