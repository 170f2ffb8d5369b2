/**
 The decoder's bit buffer as a bit stream: codeBuffer holds the next numBits bits, the
 input bytes from the read position on hold the rest. Refilling moves bits from the
 second part to the first; receiving takes bits off the front.
 */
module BitBuffer {
  import opened BitOps
  import opened BitReverse
  import opened Canonical
  import opened HuffmanTable

  /** All bits still to be read. */
  ghost function Stream(codeBuffer: nat, numBits: nat, input: seq<byte>, pos: nat): (s: seq<bool>)
    requires pos <= |input|
    ensures |s| == numBits + 8 * (|input| - pos)
  {
    ToBits(codeBuffer, numBits) + BytesBits(input[pos..])
  }

  /** One round of _ssfn__fill_bits leaves the stream as it was. */
  lemma {:induction false} FillKeepsStream(codeBuffer: nat, numBits: nat, input: seq<byte>, pos: nat)
    requires pos < |input| && codeBuffer < Pow2(numBits) && numBits <= 24
    ensures var c := BitOr(codeBuffer, Shl(input[pos], numBits));
            c < Pow2(numBits + 8)
            && Stream(c, numBits + 8, input, pos + 1) == Stream(codeBuffer, numBits, input, pos)
  {
    var b := input[pos];
    OrShl(codeBuffer, b, numBits);
    ToBitsAppend(codeBuffer, numBits, b, 8);
    assert input[pos..] == [b] + input[pos + 1..];
    AppendBound(codeBuffer, numBits, b);
  }

  lemma {:induction false} AppendBound(c: nat, n: nat, b: byte)
    requires c < Pow2(n)
    ensures c + Shl(b, n) < Pow2(n + 8)
  {
    ShlMonotone(b + 1, 256, n);
    ShlAdd(b, 1, n);
    ShlOne(n);
    Pow2Values();
    ShlPow2(8, n);
  }

  lemma {:induction false} ShlPow2(m: nat, n: nat)
    ensures Shl(Pow2(m), n) == Pow2(m + n)
  {
    if n > 0 { ShlPow2(m, n - 1); }
  }

  /** Masking off and shifting out n bits reads the next n bits of the stream. */
  lemma {:induction false} ReceiveTakesBits(codeBuffer: nat, numBits: nat, n: nat, input: seq<byte>, pos: nat)
    requires n <= numBits && pos <= |input| && codeBuffer < Pow2(numBits)
    ensures var s := Stream(codeBuffer, numBits, input, pos);
            BitAnd(codeBuffer, Shl(1, n) - 1) == FromBits(s[..n])
            && Stream(Shr(codeBuffer, n), numBits - n, input, pos) == s[n..]
            && Shr(codeBuffer, n) < Pow2(numBits - n)
  {
    ShlOne(n);
    AndMask(codeBuffer, n);
    ToBitsSplit(codeBuffer, n, numBits - n);
    FromToBits(codeBuffer, n);
    ShrBound(codeBuffer, numBits - n, n);
    var s := Stream(codeBuffer, numBits, input, pos);
    assert s[..n] == ToBits(codeBuffer, n);
  }

  // ------------------------------------------------------------ table look-ups

  /** No code of at most nine bits comes next. */
  ghost predicate NoShort(lens: Lengths, bits: seq<bool>) {
    forall i: nat :: Matches(lens, i, bits) ==> lens[i] > 9
  }

  /** The word w names the symbol whose code comes next. */
  ghost predicate NamesNext(w: int, lens: Lengths, bits: seq<bool>) {
    w >= 0 && Matches(lens, w % 512, bits) && w == 512 * lens[w % 512] + w % 512 && lens[w % 512] <= 9
  }

  /** The fast table, indexed by the next nine bits: an entry names the symbol whose code
      comes next, an empty slot means that no code of at most nine bits does. */
  lemma {:induction false} FastLookup(fast: seq<int>, lens: Lengths, codeBuffer: nat, numBits: nat, bits: seq<bool>)
    requires |lens| <= 288 && FastTable(fast, lens, |lens|)
    requires numBits >= 16 && ToBits(codeBuffer, numBits) <= bits
    ensures var m := BitAnd(codeBuffer, 511);
            m < FAST_SIZE
            && (fast[m] != 0 ==> NamesNext(fast[m], lens, bits))
            && (fast[m] == 0 ==> NoShort(lens, bits))
  {
    hide FastHit, Low, ToBits, BitAnd, Pow2;
    FirstNine(codeBuffer, numBits, bits);
    var m := BitAnd(codeBuffer, 511);
    if fast[m] != 0 {
      HitMatches(lens, fast[m] % 512, m, bits);
    } else {
      forall i: nat | Matches(lens, i, bits) ensures lens[i] > 9 {
        MatchHits(lens, i, m, bits);
      }
    }
  }

  /** The low nine bits of the buffer are the next nine of the stream. */
  lemma {:induction false} FirstNine(codeBuffer: nat, numBits: nat, bits: seq<bool>)
    requires numBits >= 16 && ToBits(codeBuffer, numBits) <= bits
    ensures BitAnd(codeBuffer, 511) < FAST_SIZE && ToBits(BitAnd(codeBuffer, 511), 9) <= bits
  {
    hide Low, ToBits, BitAnd, Pow2;
    Pow2Values();
    AndMask(codeBuffer, 9);
    LowBound(codeBuffer, 9);
    ToBitsLow(codeBuffer, 9, 9);
    ToBitsSplit(codeBuffer, 9, numBits - 9);
  }

  lemma {:induction false} MatchHits(lens: Lengths, i: nat, m: nat, bits: seq<bool>)
    requires Matches(lens, i, bits) && ToBits(m, 9) <= bits
    ensures i < |lens| && (lens[i] <= 9 ==> FastHit(lens, i, m))
  {
    if lens[i] <= 9 {
      FastHitIffMatches(lens, i, m);
      assert bits[..9] == ToBits(m, 9);
    }
  }

  lemma {:induction false} HitMatches(lens: Lengths, i: nat, m: nat, bits: seq<bool>)
    requires FastHit(lens, i, m) && ToBits(m, 9) <= bits
    ensures i < |lens| && 1 <= lens[i] <= 9 && Matches(lens, i, bits)
  {
    HitInRange(lens, i, m);
    FastHitIffMatches(lens, i, m);
  }

  lemma {:induction false} HitInRange(lens: Lengths, i: nat, m: nat)
    requires FastHit(lens, i, m)
    ensures i < |lens| && 1 <= lens[i] <= 9
  {
  }

  /** The reversed 16 low bits are the 16-bit window. */
  lemma {:induction false} WindowOfBuffer(codeBuffer: nat, numBits: nat, bits: seq<bool>)
    requires numBits >= 16 && ToBits(codeBuffer, numBits) <= bits
    ensures Reverse(codeBuffer, 16) == FromMsb(bits[..16]) < 0x10000
  {
    hide Reverse, ToBits, FromMsb, Pow2;
    ReverseBits(codeBuffer, 16);
    ToBitsSplit(codeBuffer, 16, numBits - 16);
    FromMsbBits(Reverse(codeBuffer, 16), 16);
    assert bits[..16] == ToBits(codeBuffer, 16);
    Pow2Values();
  }

  /** The slow path's scan: with no short code ahead, the first length s from 10 whose limit
      exceeds the window is the length of the next code, or 16 if there is none. */
  lemma {:induction false} SlowLookup(firstcode: seq<int>, maxcode: seq<int>, firstsymbol: seq<int>,
                                      value: seq<int>, size: seq<int>, lens: Lengths, bits: seq<bool>, s: nat)
    requires Kraft(lens) && |lens| <= 288 && |bits| >= 16 && 10 <= s <= 16
    requires Columns(firstcode, maxcode, firstsymbol, lens, 16)
    requires Placed(value, size, lens, |lens|)
    requires NoShort(lens, bits)
    requires forall t :: 10 <= t < s ==> FromMsb(bits[..16]) >= maxcode[t]
    requires s < 16 ==> FromMsb(bits[..16]) < maxcode[s]
    ensures s == 16 ==> forall i: nat :: !Matches(lens, i, bits)
    ensures s < 16 ==>
              var b := Shr(FromMsb(bits[..16]), 16 - s) - firstcode[s] + firstsymbol[s];
              0 <= b < 288 && 0 <= value[b] && Matches(lens, value[b], bits) && lens[value[b]] == s
  {
    var w := FromMsb(bits[..16]);
    NoShortCode(lens, bits);
    forall t | 9 <= t < s ensures Limit(lens, t) <= w { }
    hide FromMsb, Limit, First, FirstSymbol, Kraft, CodeBits;
    if s < 16 {
      var i := OwnerAtLength(lens, w, s);
      MatchesIffOwns(lens, i, bits);
      SlowPosition(lens, i);
    } else {
      forall i: nat ensures !Matches(lens, i, bits) {
        MatchesIffOwns(lens, i, bits);
        IntervalsTile(lens, w);
      }
    }
  }

  lemma {:induction false} SlowPosition(lens: Lengths, i: nat)
    requires i < |lens| && lens[i] >= 1
    ensures Position(lens, i) == Code(lens, i) - First(lens, lens[i]) + FirstSymbol(lens, lens[i])
  {
  }

  /** When no code of at most nine bits comes next, the window lies past their intervals. */
  lemma {:induction false} NoShortCode(lens: Lengths, bits: seq<bool>)
    requires Kraft(lens) && |bits| >= 16
    requires NoShort(lens, bits)
    ensures Limit(lens, 9) <= FromMsb(bits[..16])
  {
    var w := FromMsb(bits[..16]);
    if w < Limit(lens, 9) {
      var s := LengthOfWindow(lens, w, 9);
      var i := OwnerAtLength(lens, w, s);
      MatchesIffOwns(lens, i, bits);
    }
  }
}
