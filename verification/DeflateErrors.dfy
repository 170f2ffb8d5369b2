/**
 What the decoder refuses: a stored block whose lengths do not match, bits that begin no code, a copy from before the
 start, runs of code lengths that repeat nothing or too much.
 */
module DeflateErrors {
  import opened BitOps
  import opened Canonical
  import opened Deflate
  import opened DeflateRoundTrip
  import opened DeflateStreams

  /** A stored block is refused for its length and its complement exactly if they do not add up to 65535 (section 3.2.4
      of RFC 1951); otherwise it fails or succeeds as its data do. */
  lemma {:induction false} StoredRefused(out: seq<byte>, cap: nat, pad: seq<bool>, b0: byte, b1: byte, b2: byte,
                                         b3: byte, rest: seq<bool>)
    requires |pad| < 8 && |rest| % 8 == 0
    ensures var bits, len := pad + BytesBits([b0, b1, b2, b3]) + rest, b0 + 256 * b1;
            if len + (b2 + 256 * b3) != 0xFFFF then Stored(State(out, cap, bits)) == Fail
            else if len <= cap - |out| then
              Stored(State(out, cap, bits))
              == if |rest| < 8 * len then Undefined
                 else Ok(State(out + TakeBytes(rest, len), cap, rest[8 * len..]))
            else Stored(State(out, cap, bits)).Ok? ==> cap == 8
  {
    hide BytesBits, TakeBytes, Aligned;
    var header := [b0, b1, b2, b3];
    var bits := BytesBits(header) + rest;
    assert pad + BytesBits(header) + rest == pad + bits;
    WholeLength(4, |rest|);
    AlignedAfterPad(pad, bits);
    BytesEncoded(header, rest);
  }

  /** Reading a symbol fails exactly if no code of the table comes next. */
  lemma {:induction false} NoCode(lens: Lengths, bits: seq<bool>)
    ensures TakeSymbol(lens, bits) == Fail <==> |bits| >= PADDING && forall i: nat :: !Matches(lens, i, bits)
  {
    hide Matches;
  }

  /** A copy from before the first byte of the output is an error, whatever its length. */
  lemma {:induction false} CopyRefused(lit: Lengths, dist: Lengths, st: State, length: nat, distance: nat)
    requires |lit| <= 288 && |dist| <= 32 && Kraft(lit) && Kraft(dist) && |st.bits| >= PADDING
    requires 3 <= length <= 258 && |st.out| < distance <= 32768
    requires Usable(lit, 257 + LengthSymbol(length)) && Usable(dist, DistSymbol(distance))
    ensures Step(lit, dist, State(st.out, st.cap, EncodeToken(lit, dist, Match(length, distance)) + st.bits)) == Fail
  {
    hide TakeSymbol, CopyStep, SymbolBits, Kraft, EncodeCopy, LengthSymbol, DistSymbol, Usable, LengthBase, LengthExtra,
         DistBase, DistExtra;
    var k := LengthSymbol(length);
    var copy := EncodeCopy(dist, length, distance) + st.bits;
    assert EncodeToken(lit, dist, Match(length, distance)) + st.bits == SymbolBits(lit, 257 + k) + copy;
    TakeSymbolEncoded(lit, 257 + k, copy);
    TooFar(dist, st, length, distance);
  }

  lemma {:induction false} TooFar(dist: Lengths, st: State, length: nat, distance: nat)
    requires |dist| <= 32 && Kraft(dist) && |st.bits| >= PADDING
    requires 3 <= length <= 258 && |st.out| < distance <= 32768 && Usable(dist, DistSymbol(distance))
    ensures CopyStep(dist, LengthSymbol(length),
                     State(st.out, st.cap, EncodeCopy(dist, length, distance) + st.bits)) == Fail
  {
    hide TakeExtra, TakeSymbol, ToBits, SymbolBits, LengthBase, LengthExtra, DistBase, DistExtra, Room, Pow2, Kraft,
         LengthSymbol, DistSymbol;
    var k, d := LengthSymbol(length), DistSymbol(distance);
    var bits2 := ToBits(distance - DistBase(d), DistExtra(d)) + st.bits;
    var bits1 := SymbolBits(dist, d) + bits2;
    assert EncodeCopy(dist, length, distance) + st.bits == ToBits(length - LengthBase(k), LengthExtra(k)) + bits1;
    TakeExtraEncoded(LengthBase(k), LengthExtra(k), length, bits1);
    TakeSymbolEncoded(dist, d, bits2);
    TakeExtraEncoded(DistBase(d), DistExtra(d), distance, st.bits);
  }

  /** The two length symbols the format leaves out stand for copies of no bytes, and its two spare distances for zero;
      none has extra bits. */
  lemma {:induction false} SpareSymbols()
    ensures LengthBase(29) == LengthBase(30) == LengthExtra(29) == LengthExtra(30) == 0
    ensures DistBase(30) == DistBase(31) == DistExtra(30) == DistExtra(31) == 0
  {
  }

  /** A run of code lengths is refused if it goes beyond the list, and code 16 also if there is no length before it. */
  lemma {:induction false} RunRefused(cl: Lengths, total: nat, acc: seq<int>, n: nat, rest: seq<bool>)
    requires |cl| == 19 && Kraft(cl) && |acc| < total && |rest| >= PADDING
    ensures 3 <= n <= 6 && Usable(cl, 16) && (acc == [] || |acc| + n > total) ==>
              Run(cl, total, acc, CodeBits(cl, 16) + ToBits(n - 3, 2) + rest) == Fail
    ensures 3 <= n <= 10 && Usable(cl, 17) && |acc| + n > total ==>
              Run(cl, total, acc, CodeBits(cl, 17) + ToBits(n - 3, 3) + rest) == Fail
    ensures 11 <= n <= 138 && Usable(cl, 18) && |acc| + n > total ==>
              Run(cl, total, acc, CodeBits(cl, 18) + ToBits(n - 11, 7) + rest) == Fail
  {
    hide Kraft, CodeBits, ToBits, Usable, TakeSymbol, TakeExtra, Fill, Pow2, SymbolBits;
    Pow2Table();
    if 3 <= n <= 6 && Usable(cl, 16) {
      UsedBits(cl, 16);
      CountedRunEncoded(cl, 16, 3, 2, n, rest);
    }
    if 3 <= n <= 10 && Usable(cl, 17) {
      UsedBits(cl, 17);
      CountedRunEncoded(cl, 17, 3, 3, n, rest);
    }
    if 11 <= n <= 138 && Usable(cl, 18) {
      UsedBits(cl, 18);
      CountedRunEncoded(cl, 18, 11, 7, n, rest);
    }
  }

  lemma {:induction false} UsedBits(cl: Lengths, i: nat)
    requires Usable(cl, i)
    ensures SymbolBits(cl, i) == CodeBits(cl, i)
  {
  }
}
