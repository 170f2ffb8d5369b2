/**
 The inflate decoder: one object holding the bit buffer, the output buffer and the two
 Huffman tables, with the C functions as its methods. Every method is proved against the
 bit-level reading of DEFLATE in module Deflate.
 */
module Inflater {
  import opened BitOps
  import opened BitReverse
  import opened Canonical
  import opened HuffmanTable
  import opened BitBuffer
  import opened Deflate

  class ZBuf {
    const input: seq<byte>          // the memory zbuffer points into
    var zbuffer: nat
    var numBits: nat
    var codeBuffer: nat
    var zoutStart: array<byte>
    var zout: nat                   // zout - zoutStart; zout_end is the end of the array
    const zLength: ZHuffman
    const zDistance: ZHuffman

    /** The decoder of _ssfn_zlib_decode: an eight-byte output buffer, nothing read yet. */
    constructor (input: seq<byte>)
      ensures Valid() && this.input == input && zbuffer == 0
      ensures St() == State([], 8, BytesBits(input))
      ensures fresh(zoutStart) && fresh(zLength) && fresh(zDistance)
    {
      this.input := input;
      zbuffer, numBits, codeBuffer, zout := 0, 0, 0, 0;
      zoutStart := new byte[8];
      zLength := new ZHuffman();
      zDistance := new ZHuffman();
      new;
      assert input[0..] == input;
      assert St().bits == BytesBits(input);
    }

    ghost predicate Valid()
      reads this, zLength, zDistance
    {
      ReaderOk() && zout <= zoutStart.Length
      && zLength != zDistance && zLength.Shape() && zDistance.Shape()
    }

    /** What the decoder has written, may still write, and has still to read. */
    ghost function St(): State
      requires Valid()
      reads this, zLength, zDistance, zoutStart
    {
      State(zoutStart[..zout], zoutStart.Length, Bits())
    }

    // ------------------------------------------------------------------- reader

    /** The bit buffer's invariant. */
    ghost predicate ReaderOk()
      reads this`zbuffer, this`numBits, this`codeBuffer
    {
      zbuffer <= |input| && numBits <= 32 && codeBuffer < Pow2(numBits)
    }

    ghost function Bits(): (s: seq<bool>)
      requires ReaderOk()
      reads this`zbuffer, this`numBits, this`codeBuffer
      ensures |s| == numBits + 8 * (|input| - zbuffer)
    {
      Stream(codeBuffer, numBits, input, zbuffer)
    }

    method ZGet8() returns (b: byte)
      requires zbuffer < |input|
      modifies this`zbuffer
      ensures b == input[old(zbuffer)] && zbuffer == old(zbuffer) + 1
    {
      b := input[zbuffer];
      zbuffer := zbuffer + 1;
    }

    /** _ssfn__fill_bits. The C loop tests at its end; every caller enters with numBits <= 24. */
    method FillBits()
      requires ReaderOk() && numBits <= 24 && |Bits()| >= PADDING
      modifies this`zbuffer, this`numBits, this`codeBuffer
      ensures ReaderOk() && Bits() == old(Bits())
      ensures 25 <= numBits <= 32
    {
      hide Stream, Pow2, Shl, BitOr;
      while numBits <= 24
        invariant ReaderOk() && Bits() == old(Bits())
        decreases 32 - numBits
      {
        FillKeepsStream(codeBuffer, numBits, input, zbuffer);
        var b := ZGet8();
        codeBuffer := BitOr(codeBuffer, Shl(b, numBits));
        numBits := numBits + 8;
      }
    }

    /** Shift s bits out of the bit buffer. */
    method Skip(s: nat)
      requires ReaderOk() && s <= numBits
      modifies this`numBits, this`codeBuffer
      ensures ReaderOk() && numBits == old(numBits) - s
      ensures s <= |old(Bits())| && Bits() == old(Bits())[s..]
    {
      hide Stream, Pow2, Shr, FromBits, Shl, BitAnd;
      ReceiveTakesBits(codeBuffer, numBits, s, input, zbuffer);
      codeBuffer := Shr(codeBuffer, s);
      numBits := numBits - s;
    }

    /** _ssfn__zreceive */
    method ZReceive(n: nat) returns (k: nat)
      requires ReaderOk() && n <= 16
      requires numBits < n ==> |Bits()| >= PADDING
      modifies this`zbuffer, this`numBits, this`codeBuffer
      ensures ReaderOk() && numBits <= 32 - n && (old(numBits) >= n ==> numBits == old(numBits) - n)
      ensures n <= |old(Bits())| && k == FromBits(old(Bits())[..n]) && Bits() == old(Bits())[n..]
      ensures k < Pow2(n)
    {
      hide Stream, Pow2, Shl, BitAnd, FromBits;
      if numBits < n { FillBits(); }
      ReceiveTakesBits(codeBuffer, numBits, n, input, zbuffer);
      ToFromBits(Bits()[..n]);
      k := BitAnd(codeBuffer, Shl(1, n) - 1);
      Skip(n);
    }

    // ---------------------------------------------------------------- Huffman codes

    /** _ssfn__zhuffman_decode: the symbol whose code comes next, taken off the stream, or -1. */
    method ZHuffmanDecode(z: ZHuffman) returns (r: int)
      requires ReaderOk() && z.Valid() && |Bits()| >= PADDING
      modifies this`zbuffer, this`numBits, this`codeBuffer
      ensures ReaderOk()
      ensures r == Symbol(z.lens, old(Bits()))
      ensures r >= 0 ==> Bits() == old(Bits())[z.lens[r]..]
      ensures r < 0 ==> Bits() == old(Bits())
    {
      if numBits < 16 { FillBits(); }
      FastLookup(z.fast, z.lens, codeBuffer, numBits, Bits());
      var b := z.fast[BitAnd(codeBuffer, FAST_SIZE - 1)];
      if b != 0 {
        FastParts(b, z.lens[b % 512]);
        var s := Shr(b, 9);
        r := BitAnd(b, 511);
        SymbolIs(z.lens, r, Bits());
        Skip(s);
      } else {
        r := SlowPath(z);
      }
    }

    /** _ssfn__zhuffman_decode_slowpath */
    method SlowPath(z: ZHuffman) returns (r: int)
      requires ReaderOk() && z.Valid() && numBits >= 16
      requires NoShort(z.lens, Bits())
      modifies this`numBits, this`codeBuffer
      ensures ReaderOk()
      ensures r == Symbol(z.lens, old(Bits()))
      ensures r >= 0 ==> Bits() == old(Bits())[z.lens[r]..]
      ensures r < 0 ==> Bits() == old(Bits())
    {
      hide FastTable, Placed, Columns, Kraft, Matches, NoShort, Symbol, Reverse, FromMsb, Stream, Pow2, Shr;
      var k := Reverse(codeBuffer, 16);
      BufferLeads(codeBuffer, numBits, input, zbuffer);
      WindowOfBuffer(codeBuffer, numBits, Bits());
      var s := FAST_BITS + 1;
      while k >= z.maxcode[s]
        invariant 10 <= s <= 16
        invariant forall t :: 10 <= t < s ==> k >= z.maxcode[t]
        decreases 16 - s
      {
        s := s + 1;
      }
      SlowLookup(z.firstcode, z.maxcode, z.firstsymbol, z.value, z.size, z.lens, Bits(), s);
      hide *;
      if s == 16 {
        NoSymbol(z.lens, Bits());
        return -1;
      }
      var b := Shr(k, 16 - s) - z.firstcode[s] + z.firstsymbol[s];
      r := z.value[b];
      SymbolIs(z.lens, r, Bits());
      Skip(s);
    }

    // ------------------------------------------------------------------- output

    /** _ssfn__zexpand, called when need more bytes do not fit behind position pos: the first
        buffer grows to the size stored in the font header, any other refuses. */
    method ZExpand(pos: nat, ghost need: nat) returns (ok: bool)
      requires pos <= zoutStart.Length < pos + need
      requires Room(zoutStart[..pos], zoutStart.Length, need) != Undefined
      modifies this`zout, this`zoutStart
      ensures var room := Room(old(zoutStart[..pos]), old(zoutStart.Length), need);
              ok == room.Ok?
              && (ok ==> fresh(zoutStart) && zoutStart.Length == room.value && pos + need <= zoutStart.Length
                         && zoutStart[..pos] == old(zoutStart[..pos]))
              && (!ok ==> zoutStart == old(zoutStart))
      ensures zout == pos
    {
      zout := pos;
      var limit := zoutStart.Length;
      if limit != 8 { return false; }
      if zoutStart[0] != Magic(0) || zoutStart[1] != Magic(1) || zoutStart[2] != Magic(2) {
        return false;
      }
      limit := Word32(zoutStart[4], zoutStart[5], zoutStart[6], zoutStart[7]);
      var q := new byte[limit];
      for i := 0 to 8
        modifies q
        invariant q[..i] == zoutStart[..i]
      {
        q[i] := zoutStart[i];
      }
      zoutStart := q;
      ok := true;
    }

    /** The byte loop of a copy: len bytes from dist back. A distance of 1 repeats one byte. */
    method CopyBytes(pos: nat, dist: nat, len: nat)
      requires 1 <= dist <= pos && 1 <= len && pos + len <= zoutStart.Length
      modifies zoutStart
      ensures zoutStart[..pos + len] == CopyFrom(old(zoutStart[..pos]), dist, len)
    {
      if dist == 1 {
        RepeatByte(pos, len);
      } else {
        var p, q, n := pos - dist, pos, len;
        while n > 0
          invariant n <= len && q == pos + len - n && p == q - dist
          invariant CopyFrom(zoutStart[..q], dist, n) == CopyFrom(old(zoutStart[..pos]), dist, len)
        {
          zoutStart[q] := zoutStart[p];
          assert zoutStart[..q + 1] == zoutStart[..q] + [zoutStart[p]];
          p, q, n := p + 1, q + 1, n - 1;
        }
      }
    }

    method RepeatByte(pos: nat, len: nat)
      requires 1 <= pos && 1 <= len && pos + len <= zoutStart.Length
      modifies zoutStart
      ensures zoutStart[..pos + len] == CopyFrom(old(zoutStart[..pos]), 1, len)
    {
      var v, q, n := zoutStart[pos - 1], pos, len;
      while n > 0
        invariant n <= len && q == pos + len - n && zoutStart[q - 1] == v
        invariant CopyFrom(zoutStart[..q], 1, n) == CopyFrom(old(zoutStart[..pos]), 1, len)
      {
        zoutStart[q] := v;
        assert zoutStart[..q + 1] == zoutStart[..q] + [v];
        q, n := q + 1, n - 1;
      }
    }

    // ------------------------------------------------------------ compressed blocks

    /** The state a block has reached when its output stands at pos: the C code keeps the output
        position of a compressed block in a local variable until the block ends. */
    ghost function At(pos: nat): State
      requires ReaderOk() && pos <= zoutStart.Length
      reads this, zoutStart
    {
      State(zoutStart[..pos], zoutStart.Length, Bits())
    }

    /** Both tables hold complete codes of the sizes a block allows. */
    ghost predicate TablesReady()
      reads this, zLength, zDistance
    {
      zLength.Valid() && zDistance.Valid() && |zDistance.lens| <= 32
    }

    /** A table value plus its extra bits. */
    method AddExtra(base: nat, extra: nat) returns (v: nat)
      requires ReaderOk() && extra <= 16
      requires TakeExtra(base, extra, Bits()) != Undefined
      modifies this`zbuffer, this`numBits, this`codeBuffer
      ensures ReaderOk()
      ensures TakeExtra(base, extra, old(Bits())) == Ok((v, Bits()))
    {
      v := base;
      if extra != 0 {
        var e := ZReceive(extra);
        v := v + e;
      }
    }

    /** Room for need bytes behind pos. */
    method Reserve(pos: nat, need: nat) returns (ok: bool)
      requires pos <= zoutStart.Length && zout <= zoutStart.Length
      requires Room(zoutStart[..pos], zoutStart.Length, need) != Undefined
      modifies this`zout, this`zoutStart
      ensures var room := Room(old(zoutStart[..pos]), old(zoutStart.Length), need);
              ok == room.Ok?
              && (ok ==> zoutStart.Length == room.value && pos + need <= zoutStart.Length
                         && zoutStart[..pos] == old(zoutStart[..pos]))
      ensures zoutStart == old(zoutStart) || fresh(zoutStart)
      ensures pos <= zoutStart.Length && zout <= zoutStart.Length && (zout == old(zout) || zout == pos)
    {
      ok := true;
      if pos + need > zoutStart.Length {
        ok := ZExpand(pos, need);
      }
    }

    /** The length-and-distance arm of the block loop, from the length symbol on. */
    method CopyMatch(k: nat, pos: nat) returns (ok: bool, next: nat)
      requires ReaderOk() && TablesReady() && k < 31 && pos <= zoutStart.Length && zout <= zoutStart.Length
      requires CopyStep(zDistance.lens, k, At(pos)) != Undefined
      modifies this`zbuffer, this`numBits, this`codeBuffer, this`zout, this`zoutStart, zoutStart
      ensures ReaderOk() && next <= zoutStart.Length && zout <= zoutStart.Length
      ensures zoutStart == old(zoutStart) || fresh(zoutStart)
      ensures var r := CopyStep(zDistance.lens, k, old(At(pos)));
              if ok then r == Ok((true, At(next))) else r == Fail
    {
      hide Stream, Pow2, Symbol, Matches, Take, TakeExtra, Room, CopyFrom, LengthBase, LengthExtra, DistBase, DistExtra;
      hide Kraft, Columns, Placed, FastTable;
      next := pos;
      var len := AddExtra(LengthBase(k), LengthExtra(k));
      var z := ZHuffmanDecode(zDistance);
      if z < 0 { return false, pos; }
      var dist := AddExtra(DistBase(z), DistExtra(z));
      if pos < dist { return false, pos; }
      ok := Reserve(pos, len);
      if !ok { return; }
      if len > 0 {
        CopyBytes(pos, dist, len);
        next := pos + len;
      }
    }

    /** _ssfn__parse_huffman_block: decode up to the end-of-block code. */
    method ParseHuffmanBlock() returns (ok: bool)
      requires Valid() && TablesReady()
      requires Block(zLength.lens, zDistance.lens, St()) != Undefined
      modifies this, zoutStart
      ensures Valid() && (zoutStart == old(zoutStart) || fresh(zoutStart))
      ensures var r := Block(zLength.lens, zDistance.lens, old(St()));
              if ok then r == Ok(St()) else r == Fail
    {
      hide Stream, Pow2, Step, Kraft, Columns, Placed, FastTable;
      var pos: nat := zout;
      ghost var lit, dist, start := zLength.lens, zDistance.lens, St();
      while true
        invariant ReaderOk() && pos <= zoutStart.Length && zout <= zoutStart.Length
        invariant TablesReady() && zLength.lens == lit && zDistance.lens == dist
        invariant zoutStart == old(zoutStart) || fresh(zoutStart)
        invariant Block(lit, dist, At(pos)) == Block(lit, dist, start)
        decreases |Bits()|
      {
        var more;
        ok, more, pos := BlockStep(pos);
        if !ok { return false; }
        if !more {
          zout := pos;
          return true;
        }
      }
    }

    /** One round of the block loop. */
    method BlockStep(pos: nat) returns (ok: bool, more: bool, next: nat)
      requires ReaderOk() && TablesReady() && pos <= zoutStart.Length
      requires zout <= zoutStart.Length
      requires Step(zLength.lens, zDistance.lens, At(pos)) != Undefined
      modifies this`zbuffer, this`numBits, this`codeBuffer, this`zout, this`zoutStart, zoutStart
      ensures ReaderOk() && next <= zoutStart.Length && zout <= zoutStart.Length
      ensures zoutStart == old(zoutStart) || fresh(zoutStart)
      ensures var r := Step(zLength.lens, zDistance.lens, old(At(pos)));
              if ok then r == Ok((more, At(next))) else r == Fail
    {
      hide Stream, Pow2, Symbol, Matches, Take, TakeExtra, Room, CopyFrom, CopyStep;
      hide Kraft, Columns, Placed, FastTable;
      more, next := true, pos;
      var z := ZHuffmanDecode(zLength);
      if z < 256 {
        if z < 0 { return false, false, pos; }
        ok := Reserve(pos, 1);
        if !ok { return; }
        zoutStart[pos] := z;
        next := pos + 1;
        assert zoutStart[..next] == zoutStart[..pos] + [z];
      } else if z == 256 {
        return true, false, pos;
      } else {
        ok, next := CopyMatch(z - 257, pos);
      }
    }

    // --------------------------------------------------------------- stored blocks

    /** The whole bytes left in the bit buffer, at most three after a block header was read. */
    method BufferedBytes() returns (header: seq<byte>)
      requires ReaderOk() && numBits <= 24 && numBits % 8 == 0
      modifies this`numBits, this`codeBuffer
      ensures ReaderOk() && numBits == 0 && |header| == old(numBits) / 8 <= 3
      ensures BytesRead(old(Bits()), header, Bits())
    {
      header := [];
      ghost var start, total := Bits(), numBits / 8;
      NothingRead(start);
      hide Stream, Pow2, BytesRead, BitAnd, FromBits, Shl, Shr;
      while numBits > 0
        invariant ReaderOk() && |header| <= total <= 3
        invariant numBits == 8 * (total - |header|)
        invariant BytesRead(start, header, Bits())
        decreases numBits
      {
        ghost var ahead := Bits();
        ReceiveTakesBits(codeBuffer, numBits, 8, input, zbuffer);
        ShlEight(1);
        NextRead(start, header, ahead);
        header := header + [BitAnd(codeBuffer, 255)];
        Skip(8);
      }
    }

    /** The header bytes taken straight from the input, once the bit buffer is empty. */
    method HeaderBytes(some: seq<byte>, ghost start: seq<bool>) returns (header: seq<byte>)
      requires ReaderOk() && numBits == 0 && |some| <= 4
      requires BytesRead(start, some, Bits()) && |start| >= 32
      modifies this`zbuffer
      ensures ReaderOk() && |header| == 4 && BytesRead(start, header, Bits())
    {
      hide BytesRead, Stream, FromBits, TakeBytes, Pow2;
      header := some;
      while |header| < 4
        invariant ReaderOk() && |header| <= 4
        invariant BytesRead(start, header, Bits())
        decreases 4 - |header|
      {
        StillAhead(start, header, Bits());
        NextByte(codeBuffer, input, zbuffer);
        NextRead(start, header, Bits());
        hide *;
        var b := ZGet8();
        header := header + [b];
      }
    }

    /** The copy loop of a stored block. */
    method CopyStored(len: nat)
      requires zout + len <= zoutStart.Length && zbuffer + len <= |input|
      modifies zoutStart
      ensures zoutStart[..zout + len] == old(zoutStart[..zout]) + input[zbuffer..zbuffer + len]
    {
      for k := 0 to len
        invariant zoutStart[..zout + k] == old(zoutStart[..zout]) + input[zbuffer..zbuffer + k]
      {
        zoutStart[zout + k] := input[zbuffer + k];
        assert zoutStart[..zout + k + 1] == zoutStart[..zout + k] + [input[zbuffer + k]];
      }
    }

    /** Drop the bits before the next byte boundary. */
    method AlignToByte()
      requires ReaderOk() && numBits <= 30
      modifies this`zbuffer, this`numBits, this`codeBuffer
      ensures ReaderOk() && numBits <= 24 && numBits % 8 == 0
      ensures Bits() == Aligned(old(Bits()))
    {
      hide Stream, Pow2, FromBits, BitAnd;
      SevenMask(numBits);
      WholeBytes(numBits, |input| - zbuffer);
      var n := BitAnd(numBits, 7);
      if n != 0 {
        var _ := ZReceive(n);
      }
    }

    /** The four bytes of a stored block's header, some of them already in the bit buffer. */
    method StoredHeader() returns (header: seq<byte>)
      requires ReaderOk() && numBits <= 30 && |Aligned(Bits())| >= 32
      modifies this`zbuffer, this`numBits, this`codeBuffer
      ensures ReaderOk() && numBits == 0 && |header| == 4
      ensures BytesRead(Aligned(old(Bits())), header, Bits())
    {
      hide Stream, Pow2, BytesRead;
      AlignToByte();
      ghost var bits := Bits();
      header := BufferedBytes();
      header := HeaderBytes(header, bits);
    }

    /** _ssfn__parse_uncompressed_block. A block header was just read, so at most 30 bits are buffered. */
    method ParseUncompressedBlock() returns (ok: bool)
      requires Valid() && numBits <= 30
      requires Stored(St()) != Undefined
      modifies this, zoutStart
      ensures Valid() && (zoutStart == old(zoutStart) || fresh(zoutStart))
      ensures var r := Stored(old(St())); if ok then r == Ok(St()) else r == Fail
    {
      hide Stream, Pow2, FromBits, TakeBytes, Aligned, Room, StoredBody;
      var header := StoredHeader();
      ok := StoreBytes(header);
    }

    method StoreBytes(header: seq<byte>) returns (ok: bool)
      requires Valid() && numBits == 0 && |header| == 4
      requires StoredBody(header, St()) != Undefined
      modifies this, zoutStart
      ensures Valid() && (zoutStart == old(zoutStart) || fresh(zoutStart))
      ensures var r := StoredBody(header, old(St())); if ok then r == Ok(St()) else r == Fail
    {
      hide Stream, Pow2, FromBits, TakeBytes, Room, BitXor, BytesBits;
      var len, nlen := Word16(header[0], header[1]), Word16(header[2], header[3]);
      Complement(len);
      if nlen != BitXor(len, 0xFFFF) { return false; }
      ok := Reserve(zout, len);
      if !ok { return; }
      StoredBytes(codeBuffer, input, zbuffer, len);
      CopyStored(len);
      zbuffer := zbuffer + len;
      zout := zout + len;
    }

    // -------------------------------------------------------------- dynamic tables

    /** The loop over the code length code lengths. */
    method ReadCodeLengths(hclen: nat) returns (sizes: seq<int>)
      requires ReaderOk() && hclen <= 19
      requires CodeLengths(Fill(0, 19), 0, hclen, Bits()) != Undefined
      modifies this`zbuffer, this`numBits, this`codeBuffer
      ensures ReaderOk()
      ensures CodeLengths(Fill(0, 19), 0, hclen, old(Bits())) == Ok((sizes, Bits()))
    {
      hide Stream, Pow2, FromBits, Fill;
      sizes := Fill(0, 19);
      for i := 0 to hclen
        invariant ReaderOk() && |sizes| == 19
        invariant CodeLengths(sizes, i, hclen, Bits()) == CodeLengths(Fill(0, 19), 0, hclen, old(Bits()))
      {
        var s := ZReceive(3);
        sizes := sizes[DEZIGZAG[i] := s];
      }
    }

    /** One round of the loop that reads runs of code lengths. */
    method ReadRun(cl: ZHuffman, total: nat, acc: seq<int>) returns (ok: bool, next: seq<int>)
      requires ReaderOk() && cl.Valid() && |cl.lens| == 19 && |acc| < total
      requires Run(cl.lens, total, acc, Bits()) != Undefined
      modifies this`zbuffer, this`numBits, this`codeBuffer
      ensures ReaderOk()
      ensures var r := Run(cl.lens, total, acc, old(Bits())); if ok then r == Ok((next, Bits())) else r == Fail
    {
      hide Stream, Pow2, Symbol, Matches, TakeExtra, Fill, Kraft, Columns, Placed, FastTable;
      next := acc;
      var c := ZHuffmanDecode(cl);
      if c < 0 || c >= 19 { return false, acc; }
      if c < 16 {
        next := acc + [c];
      } else {
        var fill, n := 0, 0;
        if c == 16 {
          n := AddExtra(3, 2);
          if acc == [] { return false, acc; }
          fill := acc[|acc| - 1];
        } else if c == 17 {
          n := AddExtra(3, 3);
        } else {
          n := AddExtra(11, 7);
        }
        if total - |acc| < n { return false, acc; }
        next := acc + Fill(fill, n);
      }
      ok := true;
    }

    method ReadRuns(cl: ZHuffman, total: nat) returns (ok: bool, lens: seq<int>)
      requires ReaderOk() && cl.Valid() && |cl.lens| == 19
      requires Runs(cl.lens, total, [], Bits()) != Undefined
      modifies this`zbuffer, this`numBits, this`codeBuffer
      ensures ReaderOk()
      ensures var r := Runs(cl.lens, total, [], old(Bits())); if ok then r == Ok((lens, Bits())) else r == Fail
    {
      hide Stream, Pow2, Run, Kraft, Columns, Placed, FastTable;
      lens := [];
      ghost var start := Bits();
      while |lens| < total
        invariant ReaderOk() && |lens| <= total
        invariant Runs(cl.lens, total, lens, Bits()) == Runs(cl.lens, total, [], start)
        decreases |Bits()|
      {
        ok, lens := ReadRun(cl, total, lens);
        if !ok { return; }
      }
      ok := true;
    }

    method ReadCounts() returns (hlit: nat, hdist: nat, hclen: nat)
      requires ReaderOk() && Counts(Bits()) != Undefined
      modifies this`zbuffer, this`numBits, this`codeBuffer
      ensures ReaderOk()
      ensures Counts(old(Bits())) == Ok((hlit, hdist, hclen, Bits()))
    {
      hide Stream, Pow2, FromBits;
      hlit := ZReceive(5);
      hlit := hlit + 257;
      hdist := ZReceive(5);
      hdist := hdist + 1;
      hclen := ZReceive(4);
      hclen := hclen + 4;
    }

    method ReadCodeLengthCode(hclen: nat) returns (ok: bool, z: ZHuffman)
      requires ReaderOk() && hclen <= 19
      requires CodeLengthCode(hclen, Bits()) != Undefined
      modifies this`zbuffer, this`numBits, this`codeBuffer
      ensures ReaderOk() && fresh(z)
      ensures ok ==> z.Valid()
      ensures var r := CodeLengthCode(hclen, old(Bits())); if ok then r == Ok((z.lens, Bits())) else r == Fail
    {
      hide Stream, Pow2, CodeLengths, Kraft, Columns, Placed, FastTable, Fill;
      CodeLengthsBound(Fill(0, 19), 0, hclen, Bits());
      z := new ZHuffman();
      var sizes := ReadCodeLengths(hclen);
      ok := z.Build(sizes);
    }

    /** _ssfn__compute_huffman_codes: read the description of both tables and build them. */
    method ComputeHuffmanCodes() returns (ok: bool)
      requires Valid() && Tables(Bits()) != Undefined
      modifies this`zbuffer, this`numBits, this`codeBuffer, zLength, zDistance
      ensures Valid()
      ensures ok ==> TablesReady()
      ensures var r := Tables(old(Bits()));
              if ok then r == Ok((zLength.lens, zDistance.lens, Bits())) else r == Fail
    {
      hide Stream, Pow2, Counts, CodeLengthCode, Runs, Kraft, Columns, Placed, FastTable;
      var hlit, hdist, hclen := ReadCounts();
      var zCodelength;
      ok, zCodelength := ReadCodeLengthCode(hclen);
      if !ok { return; }
      ghost var bits := Bits();
      var lens;
      ok, lens := ReadRuns(zCodelength, hlit + hdist);
      if !ok { return; }
      RunsLengths(zCodelength.lens, hlit + hdist, [], bits);
      ok := zLength.Build(lens[..hlit]);
      if !ok { return; }
      ok := zDistance.Build(lens[hlit..]);
    }

    // --------------------------------------------------------------- whole stream

    /** The first branch of a block: build its tables, the fixed ones or its own, and decode it. */
    method CompressedBlock(fixed: bool) returns (ok: bool)
      requires Valid()
      requires (if fixed then Block(FixedLit(), FixedDist(), St()) else DynamicBlock(St())) != Undefined
      modifies this, zoutStart, zLength, zDistance
      ensures Valid() && (zoutStart == old(zoutStart) || fresh(zoutStart))
      ensures var r := if fixed then Block(FixedLit(), FixedDist(), old(St())) else DynamicBlock(old(St()));
              if ok then r == Ok(St()) else r == Fail
    {
      hide Stream, Pow2, Block, Tables, Kraft, KraftSum, Columns, Placed, FastTable, FixedLit, FixedDist;
      if fixed {
        FixedBuilds();
        ok := zLength.Build(FixedLit());
        if !ok { return; }
        ok := zDistance.Build(FixedDist());
        if !ok { return; }
      } else {
        ok := ComputeHuffmanCodes();
        if !ok { return; }
      }
      ok := ParseHuffmanBlock();
    }

    /** One block with its header. */
    method ParseAnyBlock() returns (ok: bool, fin: nat)
      requires Valid() && AnyBlock(St()) != Undefined
      modifies this, zoutStart, zLength, zDistance
      ensures Valid() && (zoutStart == old(zoutStart) || fresh(zoutStart))
      ensures var r := AnyBlock(old(St())); if ok then r == Ok((fin != 0, St())) else r == Fail
    {
      hide Stream, Pow2, Block, DynamicBlock, Stored, FromBits, FixedLit, FixedDist;
      fin := ZReceive(1);
      var kind := ZReceive(2);
      if kind == 0 {
        ok := ParseUncompressedBlock();
      } else if kind == 3 {
        ok := false;
      } else {
        ok := CompressedBlock(kind == 1);
      }
    }

    /** _ssfn__parse_zlib: blocks until one is marked the last. */
    method ParseZlib() returns (ok: bool)
      requires zbuffer <= |input| && zout <= zoutStart.Length
      requires zLength != zDistance && zLength.Shape() && zDistance.Shape()
      requires Inflate(State(zoutStart[..zout], zoutStart.Length, BytesBits(input[zbuffer..]))) != Undefined
      modifies this, zoutStart, zLength, zDistance
      ensures Valid()
      ensures var r := Inflate(old(State(zoutStart[..zout], zoutStart.Length, BytesBits(input[zbuffer..]))));
              if ok then r == Ok(St()) else r == Fail
    {
      hide Stream, Pow2, AnyBlock, BytesBits, Inflate;
      numBits := 0;
      codeBuffer := 0;
      NothingBuffered(input, zbuffer);
      ghost var start := St();
      while true
        invariant Valid() && (zoutStart == old(zoutStart) || fresh(zoutStart))
        invariant Inflate(St()) == Inflate(start)
        decreases |Bits()|
      {
        InflateUnfolds(St());
        var fin;
        ok, fin := ParseAnyBlock();
        if !ok { return false; }
        if fin != 0 { return true; }
      }
    }
  }

  lemma {:induction false} NothingBuffered(input: seq<byte>, pos: nat)
    requires pos <= |input|
    ensures Stream(0, 0, input, pos) == BytesBits(input[pos..])
  {
    assert ToBits(0, 0) == [];
  }

  lemma {:induction false} BufferLeads(codeBuffer: nat, numBits: nat, input: seq<byte>, pos: nat)
    requires pos <= |input|
    ensures ToBits(codeBuffer, numBits) <= Stream(codeBuffer, numBits, input, pos)
  {
  }

  /** The symbol is determined by the stream. */
  lemma {:induction false} SymbolIs(lens: Lengths, i: nat, bits: seq<bool>)
    requires Kraft(lens) && Matches(lens, i, bits)
    ensures Symbol(lens, bits) == i
  {
    MatchUnique(lens, i, Symbol(lens, bits), bits);
  }

  lemma {:induction false} NoSymbol(lens: Lengths, bits: seq<bool>)
    requires forall i: nat :: !Matches(lens, i, bits)
    ensures Symbol(lens, bits) == -1
  {
  }

  /** A fast table word holds a length and a symbol. */
  lemma {:induction false} FastParts(b: nat, s: nat)
    requires b == 512 * s + b % 512
    ensures Shr(b, 9) == s && BitAnd(b, 511) == b % 512
  {
    Pow2Values();
    AndMask(b, 9);
    LowHigh(b, 9);
    LowBound(b, 9);
    ShlNine(Shr(b, 9));
  }

  /** _ssfn_zlib_decode: inflate a buffer into memory of its own. Failure is a null result. */
  method ZlibDecode(buffer: seq<byte>) returns (out: array?<byte>)
    requires Inflate(State([], 8, BytesBits(buffer))) != Undefined
    ensures var r := Inflate(State([], 8, BytesBits(buffer)));
            if out == null then r == Fail
            else r.Ok? && r.value.out <= out[..] && out.Length == r.value.cap
  {
    var a := new ZBuf(buffer);
    assert a.St() == State([], 8, BytesBits(buffer));
    var ok := a.ParseZlib();
    if ok {
      out := a.zoutStart;
    } else {
      out := null;
    }
  }

  // ---------------------------------------------------------------- table lemmas

  lemma {:induction false} FixedBuilds()
    ensures Kraft(FixedLit()) && Kraft(FixedDist())
  {
    FixedKraft();
  }

  // ------------------------------------------------------------- byte-level lemmas

  /** Reading the bytes bs off the front of start left rest. */
  ghost predicate BytesRead(start: seq<bool>, bs: seq<byte>, rest: seq<bool>) {
    8 * |bs| <= |start| && bs == TakeBytes(start, |bs|) && rest == start[8 * |bs|..]
  }

  lemma {:induction false} NothingRead(start: seq<bool>)
    ensures BytesRead(start, [], start)
  {
  }

  lemma {:induction false} NextRead(start: seq<bool>, bs: seq<byte>, rest: seq<bool>)
    requires BytesRead(start, bs, rest) && |rest| >= 8
    ensures FromBits(rest[..8]) < 256
    ensures BytesRead(start, bs + [FromBits(rest[..8])], rest[8..])
  {
    hide FromBits;
    var n := |bs|;
    ByteOfBits(rest[..8]);
    TakeBytesSnoc(start, n);
    assert rest[..8] == start[8 * n..8 * n + 8];
    assert rest[8..] == start[8 * (n + 1)..];
  }

  lemma {:induction false} StillAhead(start: seq<bool>, bs: seq<byte>, rest: seq<bool>)
    requires BytesRead(start, bs, rest) && |start| >= 32 && |bs| < 4
    ensures |rest| >= 8
  {
  }

  lemma {:induction false} TakeBytesSnoc(s: seq<bool>, n: nat)
    requires 8 * (n + 1) <= |s|
    ensures FromBits(s[8 * n..8 * n + 8]) < 256
    ensures TakeBytes(s, n + 1) == TakeBytes(s, n) + [FromBits(s[8 * n..8 * n + 8])]
    decreases n
  {
    hide FromBits;
    var last := s[8 * n..8 * n + 8];
    ByteOfBits(last);
    if n > 0 {
      TakeBytesSnoc(s[8..], n - 1);
      assert s[8..][8 * (n - 1)..8 * (n - 1) + 8] == last;
      ByteOfBits(s[..8]);
      var first: seq<byte> := [FromBits(s[..8])];
      assert TakeBytes(s, n) == first + TakeBytes(s[8..], n - 1);
      assert TakeBytes(s, n + 1) == first + TakeBytes(s[8..], n);
    } else {
      assert s[0..8] == s[..8];
      assert TakeBytes(s[8..], 0) == [];
    }
  }

  lemma {:induction false} SevenMask(n: nat)
    ensures BitAnd(n, 7) == n % 8
  {
    hide Shl, Shr, Low, BitAnd, Pow2;
    PowThree();
    AndMask(n, 3);
    LowHigh(n, 3);
    LowBound(n, 3);
    ShlThree(Shr(n, 3));
    LastThree(Shr(n, 3), Low(n, 3));
  }

  lemma {:induction false} PowThree()
    ensures Pow2(3) == 8
  {
  }

  lemma {:induction false} LastThree(h: nat, l: nat)
    requires l < 8
    ensures (8 * h + l) % 8 == l
  {
  }

  lemma {:induction false} WholeBytes(n: nat, m: nat)
    ensures (n + 8 * m) % 8 == n % 8 && (n - n % 8) % 8 == 0
  {
  }

  lemma {:induction false} ShlThree(v: nat)
    ensures Shl(v, 3) == 8 * v
  {
    assert Shl(v, 1) == 2 * Shl(v, 0);
    assert Shl(v, 3) == 4 * Shl(v, 1);
  }

  lemma {:induction false} Complement(len: nat)
    requires len < 0x10000
    ensures BitXor(len, 0xFFFF) == 0xFFFF - len
  {
    Pow2Values();
    XorOnes(len, 16);
  }

  /** With an empty bit buffer the next eight bits are the next input byte. */
  lemma {:induction false} NextByte(codeBuffer: nat, input: seq<byte>, pos: nat)
    requires pos < |input|
    ensures var s := Stream(codeBuffer, 0, input, pos);
            FromBits(s[..8]) == input[pos] && s[8..] == Stream(codeBuffer, 0, input, pos + 1)
  {
    hide FromBits, ToBits, Low, Pow2;
    var b := input[pos];
    assert input[pos..][0] == b && input[pos..][1..] == input[pos + 1..];
    FromToBits(b, 8);
    Pow2Values();
    LowSmall(b, 8);
    NoBits(codeBuffer);
    assert Stream(codeBuffer, 0, input, pos) == ToBits(b, 8) + BytesBits(input[pos + 1..]);
  }

  lemma {:induction false} NoBits(codeBuffer: nat)
    ensures ToBits(codeBuffer, 0) == []
  {
  }

  /** With an empty bit buffer the next n bytes of the stream are the next n input bytes. */
  lemma {:induction false} StoredBytes(codeBuffer: nat, input: seq<byte>, pos: nat, n: nat)
    requires pos + n <= |input|
    ensures var s := Stream(codeBuffer, 0, input, pos);
            TakeBytes(s, n) == input[pos..pos + n] && s[8 * n..] == Stream(codeBuffer, 0, input, pos + n)
    decreases n
  {
    hide Stream, FromBits;
    StreamLength(codeBuffer, input, pos);
    if n > 0 {
      NextByte(codeBuffer, input, pos);
      StoredBytes(codeBuffer, input, pos + 1, n - 1);
      BytesAfter(Stream(codeBuffer, 0, input, pos), n);
      assert input[pos..pos + n] == [input[pos]] + input[pos + 1..pos + n];
    }
  }

  lemma {:induction false} StreamLength(codeBuffer: nat, input: seq<byte>, pos: nat)
    requires pos <= |input|
    ensures |Stream(codeBuffer, 0, input, pos)| == 8 * (|input| - pos)
  {
  }

  /** The first of n bytes of a stream, and the rest. */
  lemma {:induction false} BytesAfter(s: seq<bool>, n: nat)
    requires n > 0 && 8 * n <= |s|
    ensures TakeBytes(s, n) == [FromBits(s[..8])] + TakeBytes(s[8..], n - 1) && s[8 * n..] == s[8..][8 * (n - 1)..]
  {
    hide FromBits;
  }
}
