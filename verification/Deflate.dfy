/**
 DEFLATE (RFC 1951) read as a function on bit sequences: what the bits of a block mean,
 independently of bit buffers and tables. A Huffman code is found by its definition (the
 symbol whose canonical code comes next), not by look-up.

 Reading ends in one of three ways. Ok and Fail are the decoder's results 1 and 0.
 Undefined collects what the C code leaves undefined: reading past the padded input,
 reading output that was never written, and writing past the output buffer.
 */
module Deflate {
  import opened BitOps
  import opened Canonical

  datatype Result<+T> = Ok(value: T) | Fail | Undefined {
    predicate IsFailure() { !Ok? }
    function PropagateFailure<U>(): Result<U>
      requires IsFailure()
    {
      if Fail? then Fail else Undefined
    }
    function Extract(): T
      requires Ok?
    {
      value
    }
  }

  /** The output so far, the size of the output buffer, and the bits still to be read. */
  datatype State = State(out: seq<byte>, cap: nat, bits: seq<bool>)

  // -------------------------------------------------------------------- tables

  const LENGTH_BASE: seq<nat> := [
    3, 4, 5, 6, 7, 8, 9, 10, 11, 13, 15, 17, 19, 23, 27, 31,
    35, 43, 51, 59, 67, 83, 99, 115, 131, 163, 195, 227, 258, 0, 0]
  const LENGTH_EXTRA: seq<nat> := [
    0, 0, 0, 0, 0, 0, 0, 0, 1, 1, 1, 1, 2, 2, 2, 2, 3, 3, 3, 3, 4, 4, 4, 4, 5, 5, 5, 5, 0, 0, 0]
  const DIST_BASE: seq<nat> := [
    1, 2, 3, 4, 5, 7, 9, 13, 17, 25, 33, 49, 65, 97, 129, 193, 257, 385, 513, 769, 1025, 1537,
    2049, 3073, 4097, 6145, 8193, 12289, 16385, 24577, 0, 0]
  const DIST_EXTRA: seq<nat> := [
    0, 0, 0, 0, 1, 1, 2, 2, 3, 3, 4, 4, 5, 5, 6, 6, 7, 7, 8, 8, 9, 9, 10, 10, 11, 11, 12, 12, 13, 13, 0, 0]
  const DEZIGZAG: seq<nat> := [16, 17, 18, 0, 8, 7, 9, 6, 10, 5, 11, 4, 12, 3, 13, 2, 14, 1, 15]

  function LengthBase(k: nat): nat
    requires k < 31
  {
    LENGTH_BASE[k]
  }

  function LengthExtra(k: nat): (e: nat)
    requires k < 31
    ensures e <= 13
  {
    LENGTH_EXTRA[k]
  }

  function DistBase(k: nat): nat
    requires k < 32
  {
    DIST_BASE[k]
  }

  function DistExtra(k: nat): (e: nat)
    requires k < 32
    ensures e <= 13
  {
    DIST_EXTRA[k]
  }

  /** How many bits must be ahead for a refill to stay inside the padded input. */
  const PADDING: nat := 32

  // ------------------------------------------------------------------- reading

  /** The next n bits as a number, least significant bit first. */
  function Take(bits: seq<bool>, n: nat): Result<(nat, seq<bool>)>
    requires n <= 16
  {
    if |bits| < PADDING then Undefined else Ok((FromBits(bits[..n]), bits[n..]))
  }

  /** The symbol whose code comes next, or -1. */
  ghost function Symbol(lens: Lengths, bits: seq<bool>): (r: int)
    ensures r >= 0 ==> Matches(lens, r, bits)
    ensures r < 0 ==> r == -1 && forall i: nat :: !Matches(lens, i, bits)
  {
    if exists i: nat :: Matches(lens, i, bits) then
      var i: nat :| Matches(lens, i, bits); i
    else -1
  }

  ghost function TakeSymbol(lens: Lengths, bits: seq<bool>): (r: Result<(nat, seq<bool>)>)
    ensures r.Ok? ==> r.value.0 < |lens| && |r.value.1| < |bits|
  {
    if |bits| < PADDING then Undefined
    else
      var i := Symbol(lens, bits);
      if i < 0 then Fail else Ok((i, bits[lens[i]..]))
  }

  /** A table value plus its extra bits. No bits are read when there are none. */
  function TakeExtra(base: nat, extra: nat, bits: seq<bool>): Result<(nat, seq<bool>)>
    requires extra <= 16
  {
    if extra == 0 then Ok((base, bits))
    else
      var (v, rest) :- Take(bits, extra);
      Ok((base + v, rest))
  }

  // -------------------------------------------------------------------- output

  function Magic(k: nat): byte
    requires k < 3
  {
    if k == 0 then 'S' as int else if k == 1 then 'F' as int else 'N' as int
  }

  /** A little-endian 32-bit word. */
  function Word32(b0: byte, b1: byte, b2: byte, b3: byte): nat {
    b0 + 0x100 * b1 + 0x10000 * b2 + 0x1000000 * b3
  }

  /** Room for need more bytes: the buffer size afterwards. The 8-byte buffer the decoder starts
      with is replaced once, by one of the size stored in bytes 4 to 7 of a font that starts "SFN";
      the size is not compared with what is needed. */
  function Room(out: seq<byte>, cap: nat, need: nat): Result<nat> {
    if |out| + need <= cap then Ok(cap)
    else if cap != 8 then Fail
    else if |out| > 0 && out[0] != Magic(0) then Fail
    else if |out| > 1 && out[1] != Magic(1) then Fail
    else if |out| > 2 && out[2] != Magic(2) then Fail
    else if |out| < 8 then Undefined
    else
      var limit := Word32(out[4], out[5], out[6], out[7]);
      if limit < 0x80000000 && |out| + need <= limit then Ok(limit) else Undefined
  }

  /** len bytes copied from dist back, one at a time, so that a copy may overlap itself. */
  function CopyFrom(out: seq<byte>, dist: nat, len: nat): (r: seq<byte>)
    requires 1 <= dist <= |out|
    ensures |r| == |out| + len && out <= r
    decreases len
  {
    if len == 0 then out else CopyFrom(out + [out[|out| - dist]], dist, len - 1)
  }

  /** Every byte a copy appends equals the one dist before it, be that one old or itself just copied. */
  lemma {:induction false} CopyRepeats(out: seq<byte>, dist: nat, len: nat, k: nat)
    requires 1 <= dist <= |out| && |out| <= k < |out| + len
    ensures CopyFrom(out, dist, len)[k] == CopyFrom(out, dist, len)[k - dist]
    decreases len
  {
    var next := out + [out[|out| - dist]];
    if k > |out| {
      CopyRepeats(next, dist, len - 1, k);
    } else {
      assert next <= CopyFrom(next, dist, len - 1);
      assert next[k] == next[k - dist];
    }
  }

  // -------------------------------------------------------------------- blocks

  /** One element of a compressed block: a literal, the end of the block, or a copy. The flag
      says whether the block goes on. */
  ghost function Step(lit: Lengths, dist: Lengths, st: State): (r: Result<(bool, State)>)
    requires |lit| <= 288 && |dist| <= 32
    ensures r.Ok? ==> |r.value.1.bits| < |st.bits|
  {
    var (z, bits) :- TakeSymbol(lit, st.bits);
    if z < 256 then
      var cap :- Room(st.out, st.cap, 1);
      Ok((true, State(st.out + [z], cap, bits)))
    else if z == 256 then
      Ok((false, State(st.out, st.cap, bits)))
    else
      CopyStep(dist, z - 257, State(st.out, st.cap, bits))
  }

  ghost function CopyStep(dist: Lengths, k: nat, st: State): (r: Result<(bool, State)>)
    requires k < 31 && |dist| <= 32
    ensures r.Ok? ==> |r.value.1.bits| <= |st.bits|
  {
    var (len, bits1) :- TakeExtra(LengthBase(k), LengthExtra(k), st.bits);
    var (z, bits2) :- TakeSymbol(dist, bits1);
    var (d, bits3) :- TakeExtra(DistBase(z), DistExtra(z), bits2);
    if |st.out| < d then Fail
    else
      var cap :- Room(st.out, st.cap, len);
      if len == 0 then Ok((true, State(st.out, cap, bits3)))
      else if d == 0 then Undefined
      else Ok((true, State(CopyFrom(st.out, d, len), cap, bits3)))
  }

  /** A compressed block, up to and including its end-of-block code. */
  ghost function Block(lit: Lengths, dist: Lengths, st: State): (r: Result<State>)
    requires |lit| <= 288 && |dist| <= 32
    ensures r.Ok? ==> |r.value.bits| < |st.bits|
    decreases |st.bits|
  {
    var (more, next) :- Step(lit, dist, st);
    if more then Block(lit, dist, next) else Ok(next)
  }

  /** The n bytes at the front of the bits. */
  function TakeBytes(bits: seq<bool>, n: nat): (bs: seq<byte>)
    requires 8 * n <= |bits|
    ensures |bs| == n
    decreases n
  {
    if n == 0 then []
    else
      ByteOfBits(bits[..8]);
      [FromBits(bits[..8])] + TakeBytes(bits[8..], n - 1)
  }

  lemma {:induction false} ByteOfBits(bits: seq<bool>)
    requires |bits| == 8
    ensures FromBits(bits) < 256
  {
    ToFromBits(bits);
    Pow2Values();
  }

  function Word16(b0: byte, b1: byte): nat {
    b0 + 256 * b1
  }

  /** The bits from the next byte boundary on. The stream ends at a byte boundary. */
  function Aligned(bits: seq<bool>): (r: seq<bool>)
    ensures |r| <= |bits|
  {
    bits[|bits| % 8..]
  }

  /** A stored block: skip to the byte boundary, read length and complement, copy. */
  function Stored(st: State): (r: Result<State>)
    ensures r.Ok? ==> |r.value.bits| <= |st.bits|
  {
    var bits := Aligned(st.bits);
    if |bits| < 32 then Undefined
    else StoredBody(TakeBytes(bits, 4), State(st.out, st.cap, bits[32..]))
  }

  function StoredBody(header: seq<byte>, st: State): (r: Result<State>)
    requires |header| == 4
    ensures r.Ok? ==> |r.value.bits| <= |st.bits|
  {
    var len, nlen := Word16(header[0], header[1]), Word16(header[2], header[3]);
    if nlen != 0xFFFF - len then Fail
    else
      var cap :- Room(st.out, st.cap, len);
      if |st.bits| < 8 * len then Undefined
      else Ok(State(st.out + TakeBytes(st.bits, len), cap, st.bits[8 * len..]))
  }

  // ------------------------------------------------------------ dynamic tables

  /** The lengths of the code length codes: n three-bit numbers in a fixed order. */
  function CodeLengths(sizes: seq<int>, i: nat, n: nat, bits: seq<bool>): (r: Result<(seq<int>, seq<bool>)>)
    requires |sizes| == 19 && i <= n <= 19
    ensures r.Ok? ==> |r.value.0| == 19 && |r.value.1| <= |bits|
    decreases n - i
  {
    if i == n then Ok((sizes, bits))
    else
      var (s, rest) :- Take(bits, 3);
      CodeLengths(sizes[DEZIGZAG[i] := s], i + 1, n, rest)
  }

  function Fill(v: int, n: nat): (s: seq<int>)
    ensures |s| == n && forall i :: 0 <= i < n ==> s[i] == v
  {
    seq(n, _ => v)
  }

  /** One run of code lengths appended to acc. */
  ghost function Run(cl: Lengths, total: nat, acc: seq<int>, bits: seq<bool>): (r: Result<(seq<int>, seq<bool>)>)
    requires |cl| == 19 && |acc| < total
    ensures r.Ok? ==> |r.value.0| <= total && |r.value.1| < |bits|
  {
    var (c, bits1) :- TakeSymbol(cl, bits);
    if c < 16 then Ok((acc + [c], bits1))
    else
      var (n, bits2) :- TakeExtra(if c == 18 then 11 else 3, if c == 16 then 2 else if c == 17 then 3 else 7, bits1);
      if c == 16 && acc == [] then Fail
      else if total - |acc| < n then Fail
      else Ok((acc + Fill(if c == 16 then acc[|acc| - 1] else 0, n), bits2))
  }

  ghost function Runs(cl: Lengths, total: nat, acc: seq<int>, bits: seq<bool>): (r: Result<(seq<int>, seq<bool>)>)
    requires |cl| == 19 && |acc| <= total
    ensures r.Ok? ==> |r.value.0| == total && |r.value.1| <= |bits|
    decreases |bits|
  {
    if |acc| == total then Ok((acc, bits))
    else
      var (next, rest) :- Run(cl, total, acc, bits);
      Runs(cl, total, next, rest)
  }

  ghost predicate AllLengths(lens: seq<int>) {
    forall i :: 0 <= i < |lens| ==> 0 <= lens[i] <= 15
  }

  /** Appending a run keeps code lengths code lengths. */
  lemma {:induction false} RunLengths(cl: Lengths, total: nat, acc: seq<int>, bits: seq<bool>)
    requires |cl| == 19 && |acc| < total && AllLengths(acc)
    ensures var r := Run(cl, total, acc, bits); r.Ok? ==> AllLengths(r.value.0)
  {
  }

  lemma {:induction false} RunsLengths(cl: Lengths, total: nat, acc: seq<int>, bits: seq<bool>)
    requires |cl| == 19 && |acc| <= total && AllLengths(acc)
    ensures var r := Runs(cl, total, acc, bits); r.Ok? ==> AllLengths(r.value.0)
    decreases |bits|
  {
    if |acc| < total {
      var r := Run(cl, total, acc, bits);
      if r.Ok? {
        RunLengths(cl, total, acc, bits);
        RunsLengths(cl, total, r.value.0, r.value.1);
      }
    }
  }

  /** The three counts a dynamic block starts with. */
  function Counts(bits: seq<bool>): (r: Result<(nat, nat, nat, seq<bool>)>)
    ensures r.Ok? ==> 257 <= r.value.0 <= 288 && 1 <= r.value.1 <= 32 && r.value.2 <= 19 && |r.value.3| < |bits|
  {
    var (a, bits1) :- Take(bits, 5);
    var (b, bits2) :- Take(bits1, 5);
    var (c, bits3) :- Take(bits2, 4);
    TakeBound(bits, 5); TakeBound(bits1, 5); TakeBound(bits2, 4);
    Ok((a + 257, b + 1, c + 4, bits3))
  }

  /** The code the code lengths are written in. */
  function CodeLengthCode(hclen: nat, bits: seq<bool>): (r: Result<(Lengths, seq<bool>)>)
    requires hclen <= 19
    ensures r.Ok? ==> |r.value.0| == 19 && Kraft(r.value.0) && |r.value.1| <= |bits|
  {
    var (sizes, rest) :- CodeLengths(Fill(0, 19), 0, hclen, bits);
    CodeLengthsBound(Fill(0, 19), 0, hclen, bits);
    if Kraft(sizes) then Ok((sizes, rest)) else Fail
  }

  /** The two tables of a dynamic block. */
  ghost function Tables(bits: seq<bool>): (r: Result<(Lengths, Lengths, seq<bool>)>)
    ensures r.Ok? ==> |r.value.0| <= 288 && |r.value.1| <= 32 && |r.value.2| < |bits|
    ensures r.Ok? ==> Kraft(r.value.0) && Kraft(r.value.1)
  {
    var (hlit, hdist, hclen, bits1) :- Counts(bits);
    var (cl, bits2) :- CodeLengthCode(hclen, bits1);
    var (lens, bits3) :- LengthList(cl, hlit + hdist, bits2);
    var (lit, dist) :- SplitTables(lens, hlit);
    Ok((lit, dist, bits3))
  }

  /** The code lengths of both tables in one list. */
  ghost function LengthList(cl: Lengths, total: nat, bits: seq<bool>): (r: Result<(Lengths, seq<bool>)>)
    requires |cl| == 19
    ensures r.Ok? ==> |r.value.0| == total && |r.value.1| <= |bits|
  {
    var (lens, rest) :- Runs(cl, total, [], bits);
    RunsLengths(cl, total, [], bits);
    Ok((lens, rest))
  }

  function SplitTables(lens: Lengths, hlit: nat): (r: Result<(Lengths, Lengths)>)
    requires hlit <= |lens|
    ensures r.Ok? ==> |r.value.0| == hlit && |r.value.1| == |lens| - hlit && Kraft(r.value.0) && Kraft(r.value.1)
  {
    if Kraft(lens[..hlit]) && Kraft(lens[hlit..]) then Ok((lens[..hlit], lens[hlit..])) else Fail
  }

  lemma {:induction false} TakeBound(bits: seq<bool>, n: nat)
    requires n <= 5
    ensures Take(bits, n).Ok? ==> Take(bits, n).value.0 < Pow2(n) <= 32
    ensures Pow2(3) == 8 && Pow2(4) == 16
  {
    if |bits| >= PADDING { ToFromBits(bits[..n]); }
    Pow2Monotone(n, 5);
    assert Pow2(3) == 8;
    assert Pow2(5) == 4 * Pow2(3);
  }

  lemma {:induction false} CodeLengthsBound(sizes: seq<int>, i: nat, n: nat, bits: seq<bool>)
    requires |sizes| == 19 && i <= n <= 19 && AllLengths(sizes)
    ensures var r := CodeLengths(sizes, i, n, bits); r.Ok? ==> AllLengths(r.value.0)
    decreases n - i
  {
    if i < n {
      var r := Take(bits, 3);
      if r.Ok? {
        TakeBound(bits, 3);
        assert Pow2(3) == 8;
        CodeLengthsBound(sizes[DEZIGZAG[i] := r.value.0], i + 1, n, r.value.1);
      }
    }
  }

  // -------------------------------------------------------------------- stream

  function FixedLit(): (l: Lengths)
    ensures |l| == 288
  {
    Fill(8, 144) + Fill(9, 112) + Fill(7, 24) + Fill(8, 8)
  }

  function FixedDist(): (l: Lengths)
    ensures |l| == 32
  {
    Fill(5, 32)
  }

  lemma {:induction false} KraftOfFill(lens: Lengths, v: nat, n: nat)
    requires 1 <= v <= 15
    ensures KraftSum(lens + Fill(v, n)) == KraftSum(lens) + n * Share(v)
  {
    hide Share, Shl;
    if n == 0 {
      assert lens + Fill(v, 0) == lens;
    } else {
      KraftOfFill(lens, v, n - 1);
      var longer: Lengths := lens + Fill(v, n);
      assert longer[..|longer| - 1] == lens + Fill(v, n - 1);
      assert longer[|longer| - 1] == v;
      assert KraftSum(longer) == KraftSum(longer[..|longer| - 1]) + Share(v);
      TimesStep(n, Share(v));
    }
  }

  lemma {:induction false} TimesStep(n: nat, c: nat)
    requires n > 0
    ensures n * c == (n - 1) * c + c
  {
  }

  /** The fixed codes use exactly the whole code space (section 3.2.6). */
  lemma {:induction false} FixedKraft()
    ensures KraftSum(FixedLit()) == 0x10000 && KraftSum(FixedDist()) == 0x10000
  {
    ShareValues();
    assert KraftSum([]) == 0;
    hide KraftSum, Share, Fill;
    KraftOfFill([], 8, 144);
    KraftOfFill(Fill(8, 144), 9, 112);
    KraftOfFill(Fill(8, 144) + Fill(9, 112), 7, 24);
    KraftOfFill(Fill(8, 144) + Fill(9, 112) + Fill(7, 24), 8, 8);
    KraftOfFill([], 5, 32);
    assert [] + Fill(8, 144) == Fill(8, 144) && [] + Fill(5, 32) == Fill(5, 32);
  }

  lemma {:induction false} ShareValues()
    ensures Share(8) == 256 && Share(9) == 128 && Share(7) == 512 && Share(5) == 2048
  {
    ShlOne(8); ShlOne(7); ShlOne(9); ShlOne(11);
    Pow2Values();
    assert Pow2(8) == 2 * Pow2(7);
    assert Pow2(11) == 4 * Pow2(9);
  }

  /** A compressed block that brings its own tables. */
  ghost function DynamicBlock(st: State): (r: Result<State>)
    ensures r.Ok? ==> |r.value.bits| < |st.bits|
  {
    var (lit, dist, bits) :- Tables(st.bits);
    Block(lit, dist, State(st.out, st.cap, bits))
  }

  /** What follows a block header of the given kind. */
  ghost function Body(kind: nat, st: State): (r: Result<State>)
    ensures r.Ok? ==> |r.value.bits| <= |st.bits|
  {
    if kind == 0 then Stored(st)
    else if kind == 3 then Fail
    else if kind == 1 then Block(FixedLit(), FixedDist(), st)
    else DynamicBlock(st)
  }

  /** One block with its header; the flag says whether it was the last. */
  ghost function AnyBlock(st: State): (r: Result<(bool, State)>)
    ensures r.Ok? ==> |r.value.1.bits| < |st.bits|
  {
    var (fin, bits1) :- Take(st.bits, 1);
    var (kind, bits2) :- Take(bits1, 2);
    var next :- Body(kind, State(st.out, st.cap, bits2));
    Ok((fin != 0, next))
  }

  /** A whole DEFLATE stream. */
  ghost function Inflate(st: State): Result<State>
    decreases |st.bits|
  {
    var (last, next) :- AnyBlock(st);
    if last then Ok(next) else Inflate(next)
  }

  lemma {:induction false} InflateUnfolds(st: State)
    ensures var r := AnyBlock(st);
            Inflate(st) == if r.Ok? then (if r.value.0 then Ok(r.value.1) else Inflate(r.value.1))
                           else if r.Fail? then Fail else Undefined
  {
    hide AnyBlock;
  }
}
