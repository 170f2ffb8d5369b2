/**
 The decoder's bit reversal: four masked swaps on 16 bits, shifted down to the
 wanted width. It turns a Huffman code, packed most significant bit first, into
 the number those bits form when the stream is read least significant bit first.
 */
module BitReverse {
  import opened BitOps

  /** One round of _ssfn__bitreverse16: exchange neighbouring groups of k bits. */
  function SwapRound(n: nat, high: nat, low: nat, k: nat): nat {
    BitOr(Shr(BitAnd(n, high), k), Shl(BitAnd(n, low), k))
  }

  function Reverse16(n: nat): nat {
    var n1 := SwapRound(n, 0xAAAA, 0x5555, 1);
    var n2 := SwapRound(n1, 0xCCCC, 0x3333, 2);
    var n3 := SwapRound(n2, 0xF0F0, 0x0F0F, 4);
    SwapRound(n3, 0xFF00, 0x00FF, 8)
  }

  function Reverse(v: nat, bits: nat): nat
    requires bits <= 16
  {
    Shr(Reverse16(v), 16 - bits)
  }

  /** The place bit i of a swapped word came from, when groups of 2^t bits are exchanged:
      the index with its own bit t flipped. */
  function Partner(i: nat, t: nat): nat {
    if Bit(i, t) then Below(i, t); i - Pow2(t) else i + Pow2(t)
  }

  lemma {:induction false} Below(i: nat, t: nat)
    requires Bit(i, t)
    ensures i >= Pow2(t)
  {
    if t > 0 { Below(i / 2, t - 1); }
  }

  lemma {:induction false} Above(i: nat, t: nat, n: nat)
    requires i < Pow2(n) && t < n && !Bit(i, t)
    ensures i + Pow2(t) < Pow2(n)
  {
    hide Pow2, Bit;
    DoubledPow(n);
    DoubledPow(t);
    LowestBit(i, t);
    if t > 0 { Above(i / 2, t - 1, n - 1); }
  }

  lemma {:induction false} DoubledPow(n: nat)
    ensures Pow2(n) == if n == 0 then 1 else 2 * Pow2(n - 1)
  {
  }

  lemma {:induction false} LowestBit(i: nat, t: nat)
    ensures Bit(i, t) <==> if t == 0 then i % 2 == 1 else Bit(i / 2, t - 1)
  {
  }

  lemma {:induction false} Flip(i: nat, t: nat)
    ensures Bit(i + Pow2(t), t) == !Bit(i, t)
  {
    if t > 0 {
      Flip(i / 2, t - 1);
      assert (i + Pow2(t)) / 2 == i / 2 + Pow2(t - 1);
    }
  }

  lemma {:induction false} PartnerRange(i: nat, t: nat)
    requires i < 16 && t < 4
    ensures Partner(i, t) < 16
  {
    assert Pow2(4) == 16;
    if !Bit(i, t) { Above(i, t, 4); }
  }

  lemma {:induction false} PartnerStep(i: nat, d: nat, t: nat)
    requires d < 2
    ensures Partner(2 * i + d, t + 1) == 2 * Partner(i, t) + d
    ensures Partner(2 * i + d, 0) == 2 * i + 1 - d
  {
    assert (2 * i + d) / 2 == i && (2 * i + d) % 2 == d;
  }

  /** A four-bit index from its binary digits. */
  function Index4(a: nat, b: nat, c: nat, d: nat): nat {
    2 * (2 * (2 * a + b) + c) + d
  }

  lemma {:induction false} PartnerDigits(a: nat, b: nat, c: nat, d: nat)
    requires a < 2 && b < 2 && c < 2 && d < 2
    ensures Partner(Index4(a, b, c, d), 3) == Index4(1 - a, b, c, d)
    ensures Partner(Index4(a, b, c, d), 2) == Index4(a, 1 - b, c, d)
    ensures Partner(Index4(a, b, c, d), 1) == Index4(a, b, 1 - c, d)
    ensures Partner(Index4(a, b, c, d), 0) == Index4(a, b, c, 1 - d)
  {
    hide Partner;
    PartnerStep(0, a, 0);
    PartnerStep(a, b, 0);
    var ab := 2 * a + b;
    PartnerStep(ab, c, 0); PartnerStep(ab, c, 1);
    var abc := 2 * ab + c;
    PartnerStep(abc, d, 0); PartnerStep(abc, d, 1); PartnerStep(abc, d, 2);
  }

  /** Flipping bits 3, 2, 1 and 0 in turn mirrors a four-bit index. */
  lemma {:induction false} PartnerChain(i: nat)
    requires i < 16
    ensures Partner(Partner(Partner(Partner(i, 3), 2), 1), 0) == 15 - i
  {
    var abc, d := i / 2, i % 2;
    var ab, c := abc / 2, abc % 2;
    var a, b := ab / 2, ab % 2;
    assert i == Index4(a, b, c, d) && 15 - i == Index4(1 - a, 1 - b, 1 - c, 1 - d);
    hide Partner, Index4;
    PartnerDigits(a, b, c, d);
    PartnerDigits(1 - a, b, c, d);
    PartnerDigits(1 - a, 1 - b, c, d);
    PartnerDigits(1 - a, 1 - b, 1 - c, d);
  }

  /** The low mask of a round marks the lower group of every pair, the high mask the upper one. */
  ghost predicate Masks(high: nat, low: nat, t: nat) {
    forall i: nat :: Bit(high, i) == (i < 16 && Bit(i, t)) && Bit(low, i) == (i < 16 && !Bit(i, t))
  }

  /** The bits of a four-digit hexadecimal constant, digit by digit. */
  lemma {:induction false} HexBit(d3: nat, d2: nat, d1: nat, d0: nat, i: nat)
    requires d3 < 16 && d2 < 16 && d1 < 16 && d0 < 16
    ensures Bit(4096 * d3 + 256 * d2 + 16 * d1 + d0, i)
         == (i < 16 && DigitBit(if i < 4 then d0 else if i < 8 then d1 else if i < 12 then d2 else d3, i % 4))
    decreases i
  {
    hide Bit, Shr, DigitBit;
    if i < 4 {
      LowDigit(256 * d3 + 16 * d2 + d1, d0, i);
    } else {
      BitOfShr(4096 * d3 + 256 * d2 + 16 * d1 + d0, 4, i - 4);
      ShrFour(256 * d3 + 16 * d2 + d1, d0);
      HexBit(0, d3, d2, d1, i - 4);
      NextDigit(i - 4);
      NoDigit((i - 4) % 4);
    }
  }

  lemma {:induction false} NextDigit(i: nat)
    ensures (i + 4) % 4 == i % 4
  {
  }

  lemma {:induction false} NoDigit(j: nat)
    ensures !DigitBit(0, j)
  {
  }

  /** Bit j of one hexadecimal digit. */
  predicate DigitBit(d: nat, j: nat) {
    if j == 0 then d % 2 == 1
    else if j == 1 then d / 2 % 2 == 1
    else if j == 2 then d / 4 % 2 == 1
    else d / 8 % 2 == 1
  }

  lemma {:induction false} ShrFour(h: nat, d: nat)
    requires d < 16
    ensures Shr(16 * h + d, 4) == h
  {
    var v := 16 * h + d;
    assert v / 2 == 8 * h + d / 2 && v / 2 / 2 == 4 * h + d / 4 && v / 2 / 2 / 2 == 2 * h + d / 8;
    assert Shr(2 * h + d / 8, 1) == Shr(h, 0) == h;
    assert Shr(4 * h + d / 4, 2) == Shr(2 * h + d / 8, 1);
    assert Shr(8 * h + d / 2, 3) == Shr(4 * h + d / 4, 2);
    assert Shr(v, 4) == Shr(8 * h + d / 2, 3);
  }

  lemma {:induction false} LowDigit(h: nat, d: nat, j: nat)
    requires d < 16 && j < 4
    ensures Bit(16 * h + d, j) == DigitBit(d, j)
  {
    var v := 16 * h + d;
    assert v / 2 == 8 * h + d / 2 && v / 2 / 2 == 4 * h + d / 4 && v / 2 / 2 / 2 == 2 * h + d / 8;
    if j == 1 {
      assert Bit(v, 1) == Bit(v / 2, 0);
    } else if j == 2 {
      assert Bit(v, 2) == Bit(v / 2, 1) == Bit(v / 2 / 2, 0);
    } else if j == 3 {
      assert Bit(v, 3) == Bit(v / 2, 2) == Bit(v / 2 / 2, 1) == Bit(v / 2 / 2 / 2, 0);
    }
  }

  lemma {:induction false} Masks0()
    ensures Masks(0xAAAA, 0x5555, 0)
  {
    hide Bit;
    forall i: nat
      ensures Bit(0xAAAA, i) == (i < 16 && Bit(i, 0)) && Bit(0x5555, i) == (i < 16 && !Bit(i, 0))
    {
      HexBit(0xA, 0xA, 0xA, 0xA, i);
      HexBit(0x5, 0x5, 0x5, 0x5, i);
      if i < 16 { LowDigit(0, i, 0); }
    }
  }

  lemma {:induction false} Masks1()
    ensures Masks(0xCCCC, 0x3333, 1)
  {
    hide Bit;
    forall i: nat
      ensures Bit(0xCCCC, i) == (i < 16 && Bit(i, 1)) && Bit(0x3333, i) == (i < 16 && !Bit(i, 1))
    {
      HexBit(0xC, 0xC, 0xC, 0xC, i);
      HexBit(0x3, 0x3, 0x3, 0x3, i);
      if i < 16 { LowDigit(0, i, 1); }
    }
  }

  lemma {:induction false} Masks2()
    ensures Masks(0xF0F0, 0x0F0F, 2)
  {
    hide Bit;
    forall i: nat
      ensures Bit(0xF0F0, i) == (i < 16 && Bit(i, 2)) && Bit(0x0F0F, i) == (i < 16 && !Bit(i, 2))
    {
      HexBit(0xF, 0x0, 0xF, 0x0, i);
      HexBit(0x0, 0xF, 0x0, 0xF, i);
      if i < 16 { LowDigit(0, i, 2); }
    }
  }

  lemma {:induction false} Masks3()
    ensures Masks(0xFF00, 0x00FF, 3)
  {
    hide Bit;
    forall i: nat
      ensures Bit(0xFF00, i) == (i < 16 && Bit(i, 3)) && Bit(0x00FF, i) == (i < 16 && !Bit(i, 3))
    {
      HexBit(0xF, 0xF, 0x0, 0x0, i);
      HexBit(0x0, 0x0, 0xF, 0xF, i);
      if i < 16 { LowDigit(0, i, 3); }
    }
  }

  lemma {:induction false} RoundBitRaw(n: nat, high: nat, low: nat, k: nat, i: nat)
    ensures Bit(SwapRound(n, high, low, k), i)
         == ((Bit(n, i + k) && Bit(high, i + k)) || (i >= k && Bit(n, i - k) && Bit(low, i - k)))
  {
    var up, down := BitAnd(n, high), BitAnd(n, low);
    BitOfOr(Shr(up, k), Shl(down, k), i);
    BitOfShr(up, k, i);
    BitOfAnd(n, high, i + k);
    BitOfShl(down, k, i);
    if i >= k { BitOfAnd(n, low, i - k); }
  }

  lemma {:induction false} RoundBit(n: nat, high: nat, low: nat, t: nat, i: nat)
    requires t < 4 && Masks(high, low, t)
    ensures Bit(SwapRound(n, high, low, Pow2(t)), i) == (i < 16 && Bit(n, Partner(i, t)))
  {
    var k := Pow2(t);
    assert Pow2(4) == 16;
    RoundBitRaw(n, high, low, k, i);
    Flip(i, t);
    assert Bit(high, i + k) == (i + k < 16 && Bit(i + k, t));
    if i < 16 && !Bit(i, t) { Above(i, t, 4); }
    if i >= k {
      Flip(i - k, t);
      assert Bit(low, i - k) == (i - k < 16 && !Bit(i - k, t));
      if i - k < 16 && !Bit(i - k, t) { Above(i - k, t, 4); }
    } else if Bit(i, t) {
      Below(i, t);
    }
  }

  lemma {:induction false} Reverse16Bit(n: nat, i: nat)
    ensures Bit(Reverse16(n), i) == (i < 16 && Bit(n, 15 - i))
  {
    Masks0(); Masks1(); Masks2(); Masks3();
    assert Pow2(0) == 1 && Pow2(1) == 2 && Pow2(2) == 4 && Pow2(3) == 8;
    var n1 := SwapRound(n, 0xAAAA, 0x5555, 1);
    var n2 := SwapRound(n1, 0xCCCC, 0x3333, 2);
    var n3 := SwapRound(n2, 0xF0F0, 0x0F0F, 4);
    RoundBit(n3, 0xFF00, 0x00FF, 3, i);
    if i < 16 {
      RoundBit(n2, 0xF0F0, 0x0F0F, 2, Partner(i, 3));
      RoundBit(n1, 0xCCCC, 0x3333, 1, Partner(Partner(i, 3), 2));
      RoundBit(n, 0xAAAA, 0x5555, 0, Partner(Partner(Partner(i, 3), 2), 1));
      PartnerChain(i);
      PartnerRange(i, 3); PartnerRange(Partner(i, 3), 2); PartnerRange(Partner(Partner(i, 3), 2), 1);
    }
  }

  /** Reversing w bits lists them in the opposite order, whatever stands above them. */
  lemma {:induction false} ReverseBits(v: nat, w: nat)
    requires w <= 16
    ensures Reverse(v, w) < Pow2(w)
    ensures ToBits(Reverse(v, w), w) == MsbBits(v, w)
    ensures MsbBits(Reverse(v, w), w) == ToBits(v, w)
  {
    hide Bit, Reverse16, Shr, Pow2, ToBits, MsbBits;
    forall i: nat
      ensures Bit(Reverse(v, w), i) == (i < w && Bit(v, w - 1 - i))
    {
      BitOfShr(Reverse16(v), 16 - w, i);
      Reverse16Bit(v, i + 16 - w);
    }
    hide Reverse;
    BoundFromBits(Reverse(v, w), w);
    forall i | 0 <= i < w
      ensures ToBits(Reverse(v, w), w)[i] == MsbBits(v, w)[i]
      ensures MsbBits(Reverse(v, w), w)[i] == ToBits(v, w)[i]
    {
      ToBitsAt(Reverse(v, w), w, i);
      MsbBitsAt(v, w, i);
      MsbBitsAt(Reverse(v, w), w, i);
      ToBitsAt(v, w, i);
      assert Bit(Reverse(v, w), w - 1 - i) == Bit(v, i);
    }
  }
}
