/**
 The allocation bitmap: one bit per page, set while the page is in use. Its abstract value is
 the sequence of all its bits.
 */
module Bitmap {
  import opened BitOps

  class Bitmap {
    var bytes: array<byte>   // the C field map

    constructor (size: nat)
      ensures fresh(bytes) && bytes.Length == size
    {
      bytes := new byte[size];
    }

    ghost function Bits(): (s: seq<bool>)
      reads this, bytes
      ensures |s| == 8 * bytes.Length
    {
      BytesBits(bytes[..])
    }

    /** bitmap_set_bit */
    method SetBit(bit: int)
      requires 0 <= bit < 8 * bytes.Length
      modifies bytes
      ensures Bits() == old(Bits())[bit := true]
    {
      ByteWithBit(bytes[..], bit);
      bytes[bit / 8] := BitOr(bytes[bit / 8], Shl(1, bit % 8));
    }

    /** bitmap_unset_bit: the complement of the mask, cut to the byte it is applied to. */
    method UnsetBit(bit: int)
      requires 0 <= bit < 8 * bytes.Length
      modifies bytes
      ensures Bits() == old(Bits())[bit := false]
    {
      ByteWithoutBit(bytes[..], bit);
      bytes[bit / 8] := BitAnd(bytes[bit / 8], 255 - Shl(1, bit % 8));
    }

    /** bitmap_check_bit: non-zero when the bit is set. */
    method CheckBit(bit: int) returns (r: nat)
      requires 0 <= bit < 8 * bytes.Length
      ensures (r != 0) == Bits()[bit]
    {
      BytesBitsAt(bytes[..], bit);
      MaskedBit(bytes[bit / 8], bit % 8);
      r := BitAnd(bytes[bit / 8], Shl(1, bit % 8));
    }

    /** memset(map, 0xFF, size) */
    method SetAll()
      modifies bytes
      ensures forall i :: 0 <= i < |Bits()| ==> Bits()[i]
    {
      for k := 0 to bytes.Length
        invariant forall j :: 0 <= j < k ==> bytes[j] == 255
      {
        bytes[k] := 255;
      }
      forall i | 0 <= i < |Bits()| ensures Bits()[i] {
        BytesBitsAt(bytes[..], i);
        AllOnes(i % 8);
      }
    }
  }

  lemma {:induction false} BytesBitsAt(bs: seq<byte>, i: nat)
    requires i < 8 * |bs|
    ensures BytesBits(bs)[i] == Bit(bs[i / 8], i % 8)
  {
    hide Bit, ToBits;
    if i < 8 {
      ToBitsAt(bs[0], 8, i);
    } else {
      BytesBitsAt(bs[1..], i - 8);
      ByteBefore(i);
    }
  }

  lemma {:induction false} ByteBefore(i: nat)
    requires i >= 8
    ensures i / 8 == (i - 8) / 8 + 1 && i % 8 == (i - 8) % 8
  {
  }

  lemma {:induction false} OneBit(k: nat, j: nat)
    ensures Bit(Shl(1, k), j) == (j == k)
  {
    BitOfShl(1, k, j);
    if j > k { BitOfZero(j - k - 1); }
  }

  /** All bits below n but bit k. */
  lemma {:induction false} AllButOne(n: nat, k: nat, j: nat)
    requires k < n
    ensures Shl(1, k) < Pow2(n)
    ensures Bit(Pow2(n) - 1 - Shl(1, k), j) == (j < n && j != k)
  {
    if k == 0 {
      Evens(n, j);
    } else {
      AllButOne(n - 1, k - 1, if j == 0 then 0 else j - 1);
      assert (Pow2(n) - 1 - Shl(1, k)) / 2 == Pow2(n - 1) - 1 - Shl(1, k - 1);
    }
  }

  lemma {:induction false} Evens(n: nat, j: nat)
    requires n > 0
    ensures Bit(Pow2(n) - 2, j) == (0 < j < n)
  {
    if j > 0 {
      assert (Pow2(n) - 2) / 2 == Pow2(n - 1) - 1;
      Ones(n - 1, j - 1);
    }
  }

  lemma {:induction false} Ones(n: nat, j: nat)
    ensures Bit(Pow2(n) - 1, j) == (j < n)
  {
    if n == 0 {
      BitOfZero(j);
    } else if j > 0 {
      assert (Pow2(n) - 1) / 2 == Pow2(n - 1) - 1;
      Ones(n - 1, j - 1);
    }
  }

  lemma {:induction false} Byte256()
    ensures Pow2(8) == 256
  {
    assert Pow2(4) == 16;
    assert Pow2(8) == 16 * Pow2(4);
  }

  lemma {:induction false} AllOnes(j: nat)
    requires j < 8
    ensures Bit(255, j)
  {
    Byte256();
    Ones(8, j);
  }

  lemma {:induction false} MaskedBit(m: byte, k: nat)
    requires k < 8
    ensures (BitAnd(m, Shl(1, k)) != 0) == Bit(m, k)
  {
    BitOfAnd(m, Shl(1, k), k);
    OneBit(k, k);
    BitOfZero(k);
    if BitAnd(m, Shl(1, k)) != 0 {
      HighBit(BitAnd(m, Shl(1, k)));
      var j: nat :| Bit(BitAnd(m, Shl(1, k)), j);
      BitOfAnd(m, Shl(1, k), j);
      OneBit(k, j);
    }
  }

  /** A byte is below 256 when no bit from 8 on is set. */
  lemma {:induction false} ByteBound(v: nat)
    requires forall j: nat :: j >= 8 ==> !Bit(v, j)
    ensures v < 256
  {
    BoundFromBits(v, 8);
    Byte256();
  }

  lemma {:induction false} HighBitsClear(m: byte, j: nat)
    requires j >= 8
    ensures !Bit(m, j)
  {
    Byte256();
    HighClear(m, 8, j);
  }

  lemma {:induction false} HighClear(v: nat, n: nat, j: nat)
    requires v < Pow2(n) && j >= n
    ensures !Bit(v, j)
  {
    if n == 0 { BitOfZero(j); } else { HighClear(v / 2, n - 1, j - 1); }
  }

  /** Or-ing the mask in sets one bit of the whole bitmap. */
  lemma {:induction false} ByteWithBit(bs: seq<byte>, bit: nat)
    requires bit < 8 * |bs|
    ensures var v := BitOr(bs[bit / 8], Shl(1, bit % 8));
            v < 256 && BytesBits(bs[bit / 8 := v]) == BytesBits(bs)[bit := true]
  {
    var k, j := bit / 8, bit % 8;
    var v := BitOr(bs[k], Shl(1, j));
    forall i: nat ensures Bit(v, i) == (Bit(bs[k], i) || i == j) {
      BitOfOr(bs[k], Shl(1, j), i);
      OneBit(j, i);
    }
    forall i: nat | i >= 8 ensures !Bit(v, i) { HighBitsClear(bs[k], i); }
    ByteBound(v);
    UpdatedByte(bs, bit, v, true);
  }

  lemma {:induction false} ByteWithoutBit(bs: seq<byte>, bit: nat)
    requires bit < 8 * |bs|
    ensures Shl(1, bit % 8) < 256
    ensures var v := BitAnd(bs[bit / 8], 255 - Shl(1, bit % 8));
            v < 256 && BytesBits(bs[bit / 8 := v]) == BytesBits(bs)[bit := false]
  {
    var k, j := bit / 8, bit % 8;
    Byte256();
    AllButOne(8, j, 0);
    var v := BitAnd(bs[k], 255 - Shl(1, j));
    forall i: nat ensures Bit(v, i) == (Bit(bs[k], i) && i < 8 && i != j) {
      BitOfAnd(bs[k], 255 - Shl(1, j), i);
      AllButOne(8, j, i);
    }
    ByteBound(v);
    UpdatedByte(bs, bit, v, false);
  }

  lemma {:induction false} UpdatedByte(bs: seq<byte>, bit: nat, v: byte, b: bool)
    requires bit < 8 * |bs|
    requires forall i: nat :: i < 8 ==> Bit(v, i) == if i == bit % 8 then b else Bit(bs[bit / 8], i)
    ensures BytesBits(bs[bit / 8 := v]) == BytesBits(bs)[bit := b]
  {
    var bs' := bs[bit / 8 := v];
    forall i | 0 <= i < 8 * |bs| ensures BytesBits(bs')[i] == BytesBits(bs)[bit := b][i] {
      BytesBitsAt(bs, i);
      BytesBitsAt(bs', i);
      SameBit(i, bit);
    }
  }

  lemma {:induction false} SameBit(i: nat, j: nat)
    ensures i / 8 == j / 8 && i % 8 == j % 8 ==> i == j
  {
  }
}
