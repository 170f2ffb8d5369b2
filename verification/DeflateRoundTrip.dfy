/**
 An encoder for DEFLATE streams, written from RFC 1951, and the theorem that reading its
 output gives back what was encoded: for any choice of blocks, tables, tokens and code
 length runs that the format allows.
 */
module DeflateRoundTrip {
  import opened BitOps
  import opened Canonical
  import opened Deflate

  // ------------------------------------------------------------------- tokens

  /** An LZ77 element: a byte, or length bytes copied from distance back. */
  datatype AnyToken = Literal(b: byte) | Match(length: nat, distance: nat)

  /** The lengths and distances DEFLATE can express (section 3.2.5). */
  type Token = t: AnyToken | t.Match? ==> 3 <= t.length <= 258 && 1 <= t.distance <= 32768 witness Literal(0)

  /** What a token appends to the output. A copy from before the start appends nothing;
      TokensOk excludes it. */
  function Expand1(out: seq<byte>, t: Token): (r: seq<byte>)
    ensures out <= r
    ensures (t.Match? ==> t.distance <= |out|) ==> |r| == |out| + Size(t)
  {
    match t
    case Literal(b) => out + [b]
    case Match(length, distance) => if distance <= |out| then CopyFrom(out, distance, length) else out
  }

  function Size(t: Token): nat {
    match t
    case Literal(_) => 1
    case Match(length, _) => length
  }

  predicate Usable(lens: Lengths, i: nat) {
    i < |lens| && lens[i] >= 1
  }

  /** The last of the first k+1 table rows whose base does not exceed v. */
  function Row(base: nat -> nat, v: nat, k: nat): (r: nat)
    requires base(0) <= v
    ensures r <= k && base(r) <= v
    ensures r < k ==> v < base(r + 1)
    decreases k
  {
    if base(k) <= v then k else Row(base, v, k - 1)
  }

  /** The length symbol, less 257, and the distance symbol (section 3.2.5). */
  function LengthSymbol(length: nat): (k: nat)
    requires 3 <= length <= 258
    ensures k <= 28 && LengthBase(k) <= length < LengthBase(k) + Pow2(LengthExtra(k))
  {
    LengthRows();
    Row(k => if k < 29 then LengthBase(k) else 0, length, 28)
  }

  function DistSymbol(distance: nat): (k: nat)
    requires 1 <= distance <= 32768
    ensures k <= 29 && DistBase(k) <= distance < DistBase(k) + Pow2(DistExtra(k))
  {
    DistRows();
    Row(k => if k < 30 then DistBase(k) else 0, distance, 29)
  }

  lemma {:induction false} Pow2Table()
    ensures Pow2(0) == 1 && Pow2(1) == 2 && Pow2(2) == 4 && Pow2(3) == 8 && Pow2(4) == 16 && Pow2(5) == 32
    ensures Pow2(6) == 64 && Pow2(7) == 128 && Pow2(8) == 256 && Pow2(9) == 512 && Pow2(10) == 1024
    ensures Pow2(11) == 2048 && Pow2(12) == 4096 && Pow2(13) == 8192
  {
    assert Pow2(1) == 2 * Pow2(0);
    assert Pow2(3) == 4 * Pow2(1);
    assert Pow2(5) == 4 * Pow2(3);
    assert Pow2(7) == 4 * Pow2(5);
    assert Pow2(9) == 4 * Pow2(7);
    assert Pow2(11) == 4 * Pow2(9);
    assert Pow2(13) == 4 * Pow2(11);
  }

  /** Up to row 27 each row of the length table ends where the next begins. Row 27 reaches one further, so that
      the length 258 is in it as well as in row 28, which spans that length alone. */
  lemma {:induction false} LengthRows()
    ensures LengthBase(0) == 3 && LengthBase(28) == 258 && LengthExtra(28) == 0 && Pow2(0) == 1
    ensures forall k: nat :: k < 27 ==> LengthBase(k + 1) == LengthBase(k) + Pow2(LengthExtra(k))
    ensures LengthBase(27) + Pow2(LengthExtra(27)) == LengthBase(28) + 1
  {
    hide Pow2;
    Pow2Table();
  }

  /** Each row of the distance table ends where the next begins. */
  lemma {:induction false} DistRows()
    ensures DistBase(0) == 1 && DistBase(29) == 24577 && DistExtra(29) == 13 && Pow2(13) == 8192
    ensures forall k: nat :: k < 29 ==> DistBase(k + 1) == DistBase(k) + Pow2(DistExtra(k))
  {
    hide Pow2;
    Pow2Table();
  }

  // ----------------------------------------------------------- compressed data

  /** A used symbol's code; an unused symbol has none. */
  function SymbolBits(lens: Lengths, i: nat): seq<bool> {
    if Usable(lens, i) then CodeBits(lens, i) else []
  }

  function EncodeToken(lit: Lengths, dist: Lengths, t: Token): seq<bool> {
    match t
    case Literal(b) => SymbolBits(lit, b)
    case Match(length, distance) =>
      SymbolBits(lit, 257 + LengthSymbol(length)) + EncodeCopy(dist, length, distance)
  }

  /** What follows the length symbol of a copy. */
  function EncodeCopy(dist: Lengths, length: nat, distance: nat): seq<bool>
    requires 3 <= length <= 258 && 1 <= distance <= 32768
  {
    var k, d := LengthSymbol(length), DistSymbol(distance);
    ToBits(length - LengthBase(k), LengthExtra(k))
    + (SymbolBits(dist, d) + ToBits(distance - DistBase(d), DistExtra(d)))
  }

  /** Both tables give the token a code, and a copy does not reach before the start of the n bytes so far. */
  predicate TokenOk(lit: Lengths, dist: Lengths, n: nat, t: Token) {
    match t
    case Literal(b) => Usable(lit, b)
    case Match(length, distance) =>
      distance <= n && Usable(lit, 257 + LengthSymbol(length)) && Usable(dist, DistSymbol(distance))
  }

  predicate TokensOk(lit: Lengths, dist: Lengths, n: nat, tokens: seq<Token>)
    decreases |tokens|
  {
    tokens == [] || (TokenOk(lit, dist, n, tokens[0]) && TokensOk(lit, dist, n + Size(tokens[0]), tokens[1..]))
  }

  /** The LZ77 expansion of a token list. */
  function Expand(out: seq<byte>, tokens: seq<Token>): (r: seq<byte>)
    ensures out <= r
    decreases |tokens|
  {
    if tokens == [] then out else Expand(Expand1(out, tokens[0]), tokens[1..])
  }

  /** The body of a compressed block: its tokens and the end-of-block symbol. */
  function EncodeTokens(lit: Lengths, dist: Lengths, tokens: seq<Token>): seq<bool>
    decreases |tokens|
  {
    if tokens == [] then SymbolBits(lit, 256)
    else EncodeToken(lit, dist, tokens[0]) + EncodeTokens(lit, dist, tokens[1..])
  }

  /** The size of the output buffer after a token list, as it is grown on the way. */
  function TokensRoom(out: seq<byte>, cap: nat, tokens: seq<Token>): Result<nat>
    decreases |tokens|
  {
    if tokens == [] then Ok(cap)
    else
      var next :- Room(out, cap, Size(tokens[0]));
      TokensRoom(Expand1(out, tokens[0]), next, tokens[1..])
  }

  /** What reading comes to when the output buffer is grown to room, or cannot be. */
  function Resume(room: Result<nat>, out: seq<byte>, bits: seq<bool>): Result<State> {
    if room.Ok? then Ok(State(out, room.value, bits)) else if room.Fail? then Fail else Undefined
  }

  function Going(room: Result<nat>, out: seq<byte>, bits: seq<bool>): Result<(bool, State)> {
    if room.Ok? then Ok((true, State(out, room.value, bits))) else if room.Fail? then Fail else Undefined
  }

  // ------------------------------------------------------- reading it back, tokens

  lemma {:induction false} TakeEncoded(v: nat, n: nat, rest: seq<bool>)
    requires n <= 16 && v < Pow2(n) && |rest| >= PADDING
    ensures Take(ToBits(v, n) + rest, n) == Ok((v, rest))
  {
    FromToBits(v, n);
    LowSmall(v, n);
    var bits := ToBits(v, n) + rest;
    assert bits[..n] == ToBits(v, n) && bits[n..] == rest;
  }

  lemma {:induction false} TakeExtraEncoded(base: nat, extra: nat, v: nat, rest: seq<bool>)
    requires extra <= 16 && base <= v < base + Pow2(extra) && |rest| >= PADDING
    ensures TakeExtra(base, extra, ToBits(v - base, extra) + rest) == Ok((v, rest))
  {
    if extra == 0 {
      assert ToBits(v - base, 0) + rest == rest;
    } else {
      TakeEncoded(v - base, extra, rest);
    }
  }

  lemma {:induction false} TakeSymbolEncoded(lens: Lengths, i: nat, rest: seq<bool>)
    requires Kraft(lens) && Usable(lens, i) && |rest| >= PADDING
    ensures TakeSymbol(lens, SymbolBits(lens, i) + rest) == Ok((i, rest))
  {
    var bits := CodeBits(lens, i) + rest;
    assert Matches(lens, i, bits);
    MatchUnique(lens, i, Symbol(lens, bits), bits);
    assert bits[lens[i]..] == rest;
  }

  lemma {:induction false} CopyEncoded(lit: Lengths, dist: Lengths, t: Token, st: State)
    requires |lit| <= 288 && |dist| <= 32 && Kraft(dist)
    requires t.Match? && TokenOk(lit, dist, |st.out|, t) && |st.bits| >= PADDING
    ensures CopyStep(dist, LengthSymbol(t.length),
                     State(st.out, st.cap, EncodeCopy(dist, t.length, t.distance) + st.bits))
            == Going(Room(st.out, st.cap, t.length), Expand1(st.out, t), st.bits)
  {
    hide TakeExtra, TakeSymbol, ToBits, SymbolBits, LengthBase, LengthExtra, DistBase, DistExtra, Room, Pow2, Kraft;
    hide LengthSymbol, DistSymbol;
    var k, d := LengthSymbol(t.length), DistSymbol(t.distance);
    var bits2 := ToBits(t.distance - DistBase(d), DistExtra(d)) + st.bits;
    var bits1 := SymbolBits(dist, d) + bits2;
    assert EncodeCopy(dist, t.length, t.distance) + st.bits
        == ToBits(t.length - LengthBase(k), LengthExtra(k)) + bits1;
    TakeExtraEncoded(LengthBase(k), LengthExtra(k), t.length, bits1);
    TakeSymbolEncoded(dist, d, bits2);
    TakeExtraEncoded(DistBase(d), DistExtra(d), t.distance, st.bits);
  }

  lemma {:induction false} MatchEncoded(lit: Lengths, dist: Lengths, t: Token, st: State)
    requires |lit| <= 288 && |dist| <= 32 && Kraft(lit) && Kraft(dist)
    requires t.Match? && TokenOk(lit, dist, |st.out|, t) && |st.bits| >= PADDING
    ensures Step(lit, dist, State(st.out, st.cap, EncodeToken(lit, dist, t) + st.bits))
            == Going(Room(st.out, st.cap, t.length), Expand1(st.out, t), st.bits)
  {
    hide TakeSymbol, CopyStep, SymbolBits, Room, Kraft, CopyFrom, EncodeCopy, LengthSymbol, DistSymbol, Usable, Expand1,
         Pow2, LengthBase, LengthExtra, DistBase, DistExtra;
    var k := LengthSymbol(t.length);
    var copy := EncodeCopy(dist, t.length, t.distance) + st.bits;
    assert EncodeToken(lit, dist, t) + st.bits == SymbolBits(lit, 257 + k) + copy;
    TakeSymbolEncoded(lit, 257 + k, copy);
    CopyEncoded(lit, dist, t, st);
  }

  /** One token is read back as itself. */
  lemma {:induction false} StepEncoded(lit: Lengths, dist: Lengths, t: Token, st: State)
    requires |lit| <= 288 && |dist| <= 32 && Kraft(lit) && Kraft(dist)
    requires TokenOk(lit, dist, |st.out|, t) && |st.bits| >= PADDING
    ensures Step(lit, dist, State(st.out, st.cap, EncodeToken(lit, dist, t) + st.bits))
            == Going(Room(st.out, st.cap, Size(t)), Expand1(st.out, t), st.bits)
  {
    if t.Match? {
      MatchEncoded(lit, dist, t, st);
    } else {
      hide TakeSymbol, CopyStep, SymbolBits, Room, Kraft, EncodeCopy;
      TakeSymbolEncoded(lit, t.b, st.bits);
    }
  }

  lemma {:induction false} EndEncoded(lit: Lengths, dist: Lengths, st: State)
    requires |lit| <= 288 && |dist| <= 32 && Kraft(lit) && Usable(lit, 256) && |st.bits| >= PADDING
    ensures Step(lit, dist, State(st.out, st.cap, SymbolBits(lit, 256) + st.bits)) == Ok((false, st))
  {
    TakeSymbolEncoded(lit, 256, st.bits);
  }

  lemma {:induction false} EmptyBlock(lit: Lengths, dist: Lengths, st: State)
    requires |lit| <= 288 && |dist| <= 32 && Kraft(lit) && Usable(lit, 256) && |st.bits| >= PADDING
    ensures Block(lit, dist, State(st.out, st.cap, EncodeTokens(lit, dist, []) + st.bits)) == Ok(st)
    ensures Resume(TokensRoom(st.out, st.cap, []), Expand(st.out, []), st.bits) == Ok(st)
  {
    EndEncoded(lit, dist, st);
    hide Step, SymbolBits, Kraft, Usable;
  }

  /** The definitions unfolded at a first token. */
  lemma {:induction false} FirstToken(lit: Lengths, dist: Lengths, out: seq<byte>, cap: nat, tokens: seq<Token>)
    requires tokens != [] && TokensOk(lit, dist, |out|, tokens)
    ensures var t, rest := tokens[0], tokens[1..];
            TokenOk(lit, dist, |out|, t) && TokensOk(lit, dist, |Expand1(out, t)|, rest)
            && |Expand1(out, t)| == |out| + Size(t)
    ensures var t, rest := tokens[0], tokens[1..];
            Expand(out, tokens) == Expand(Expand1(out, t), rest)
            && EncodeTokens(lit, dist, tokens) == EncodeToken(lit, dist, t) + EncodeTokens(lit, dist, rest)
  {
    hide TokensOk, TokenOk, Expand, Expand1, EncodeTokens, EncodeToken, Size;
    FirstOk(lit, dist, out, tokens);
    FirstExpand(lit, dist, out, tokens);
  }

  lemma {:induction false} FirstOk(lit: Lengths, dist: Lengths, out: seq<byte>, tokens: seq<Token>)
    requires tokens != [] && TokensOk(lit, dist, |out|, tokens)
    ensures TokenOk(lit, dist, |out|, tokens[0]) && |Expand1(out, tokens[0])| == |out| + Size(tokens[0])
    ensures TokensOk(lit, dist, |Expand1(out, tokens[0])|, tokens[1..])
  {
    hide Usable, LengthSymbol, DistSymbol, CopyFrom;
  }

  lemma {:induction false} FirstExpand(lit: Lengths, dist: Lengths, out: seq<byte>, tokens: seq<Token>)
    requires tokens != [] && TokensOk(lit, dist, |out|, tokens) && TokenOk(lit, dist, |out|, tokens[0])
    requires TokensOk(lit, dist, |Expand1(out, tokens[0])|, tokens[1..])
    ensures Expand(out, tokens) == Expand(Expand1(out, tokens[0]), tokens[1..])
    ensures EncodeTokens(lit, dist, tokens)
         == EncodeToken(lit, dist, tokens[0]) + EncodeTokens(lit, dist, tokens[1..])
  {
    hide TokensOk, TokenOk, Expand1, EncodeToken;
  }

  lemma {:induction false} FirstRoom(out: seq<byte>, cap: nat, tokens: seq<Token>)
    requires tokens != []
    ensures var room := Room(out, cap, Size(tokens[0]));
            TokensRoom(out, cap, tokens)
            == if room.Ok? then TokensRoom(Expand1(out, tokens[0]), room.value, tokens[1..]) else room
  {
    hide Room, Expand1;
  }

  lemma {:induction false} BlockGoesOn(lit: Lengths, dist: Lengths, st: State, room: Result<nat>, out: seq<byte>,
                                       bits: seq<bool>)
    requires |lit| <= 288 && |dist| <= 32 && Step(lit, dist, st) == Going(room, out, bits)
    ensures Block(lit, dist, st)
         == if room.Ok? then Block(lit, dist, State(out, room.value, bits)) else Resume(room, out, bits)
  {
  }

  /** A buffer large enough for the expansion never has to grow. */
  lemma {:induction false} EnoughRoom(lit: Lengths, dist: Lengths, out: seq<byte>, cap: nat, tokens: seq<Token>)
    requires TokensOk(lit, dist, |out|, tokens) && |Expand(out, tokens)| <= cap
    ensures TokensRoom(out, cap, tokens) == Ok(cap)
    decreases |tokens|
  {
    if tokens != [] {
      var next := Expand1(out, tokens[0]);
      FirstToken(lit, dist, out, cap, tokens);
      assert Room(out, cap, Size(tokens[0])) == Ok(cap);
      EnoughRoom(lit, dist, next, cap, tokens[1..]);
    }
  }

  /** With room for it, a compressed block is read back as exactly the expansion of its tokens. */
  lemma {:induction false} BlockRoundTrip(lit: Lengths, dist: Lengths, tokens: seq<Token>, st: State)
    requires |lit| <= 288 && |dist| <= 32 && Kraft(lit) && Kraft(dist) && Usable(lit, 256)
    requires TokensOk(lit, dist, |st.out|, tokens) && |st.bits| >= PADDING && |Expand(st.out, tokens)| <= st.cap
    ensures Block(lit, dist, State(st.out, st.cap, EncodeTokens(lit, dist, tokens) + st.bits))
         == Ok(State(Expand(st.out, tokens), st.cap, st.bits))
  {
    hide Block, Kraft, Usable, TokensOk, Expand, EncodeTokens, TokensRoom;
    BlockEncoded(lit, dist, tokens, st);
    EnoughRoom(lit, dist, st.out, st.cap, tokens);
  }

  /** A compressed block is read back as the LZ77 expansion of its tokens. */
  lemma {:induction false} BlockEncoded(lit: Lengths, dist: Lengths, tokens: seq<Token>, st: State)
    requires |lit| <= 288 && |dist| <= 32 && Kraft(lit) && Kraft(dist) && Usable(lit, 256)
    requires TokensOk(lit, dist, |st.out|, tokens) && |st.bits| >= PADDING
    ensures Block(lit, dist, State(st.out, st.cap, EncodeTokens(lit, dist, tokens) + st.bits))
            == Resume(TokensRoom(st.out, st.cap, tokens), Expand(st.out, tokens), st.bits)
    decreases |tokens|
  {
    hide *;
    if tokens == [] {
      EmptyBlock(lit, dist, st);
    } else {
      var t, rest := tokens[0], tokens[1..];
      FirstToken(lit, dist, st.out, st.cap, tokens);
      FirstRoom(st.out, st.cap, tokens);
      var after := EncodeTokens(lit, dist, rest) + st.bits;
      assert EncodeTokens(lit, dist, tokens) + st.bits == EncodeToken(lit, dist, t) + after;
      StepEncoded(lit, dist, t, State(st.out, st.cap, after));
      var room := Room(st.out, st.cap, Size(t));
      BlockGoesOn(lit, dist, State(st.out, st.cap, EncodeToken(lit, dist, t) + after), room, Expand1(st.out, t), after);
      if room.Ok? {
        BlockEncoded(lit, dist, rest, State(Expand1(st.out, t), room.value, st.bits));
      } else {
        StuckRoom(room, Expand1(st.out, t), Expand(st.out, tokens), after, st.bits);
      }
    }
  }

  /** Without room it does not matter what was to be written. */
  lemma {:induction false} StuckRoom(room: Result<nat>, out: seq<byte>, out': seq<byte>, bits: seq<bool>,
                                     bits': seq<bool>)
    requires !room.Ok?
    ensures Resume(room, out, bits) == Resume(room, out', bits')
  {
  }
}
