/**
 C's shifts and bitwise operators on non-negative integers, and the view of an
 integer as a sequence of bits. Every operator is defined one bit at a time, so
 every law below is a structural induction over linear arithmetic.

 A word is written as bits in two orders: ToBits lists the least significant bit
 first (the order in which DEFLATE packs data elements), MsbBits the most
 significant bit first (the order in which it packs Huffman codes).
 */
module BitOps {

  type byte = b: int | 0 <= b < 256

  // ---------------------------------------------------------------- operators

  function Pow2(n: nat): (p: nat)
    ensures p >= 1
  {
    if n == 0 then 1 else 2 * Pow2(n - 1)
  }

  /** v << n, without truncation: callers show the result fits their word. */
  function Shl(v: nat, n: nat): (r: nat)
    ensures r >= v
  {
    if n == 0 then v else 2 * Shl(v, n - 1)
  }

  /** v >> n */
  function Shr(v: nat, n: nat): nat {
    if n == 0 then v else Shr(v / 2, n - 1)
  }

  /** a & b */
  function BitAnd(a: nat, b: nat): nat {
    if a == 0 || b == 0 then 0
    else 2 * BitAnd(a / 2, b / 2) + (if a % 2 == 1 && b % 2 == 1 then 1 else 0)
  }

  /** a | b */
  function BitOr(a: nat, b: nat): nat {
    if a == 0 && b == 0 then 0
    else 2 * BitOr(a / 2, b / 2) + (if a % 2 == 1 || b % 2 == 1 then 1 else 0)
  }

  /** a ^ b */
  function BitXor(a: nat, b: nat): nat {
    if a == 0 && b == 0 then 0
    else 2 * BitXor(a / 2, b / 2) + (if a % 2 != b % 2 then 1 else 0)
  }

  /** The n least significant bits of v. */
  function Low(v: nat, n: nat): nat {
    if n == 0 then 0 else 2 * Low(v / 2, n - 1) + v % 2
  }

  predicate Bit(v: nat, i: nat) {
    if i == 0 then v % 2 == 1 else Bit(v / 2, i - 1)
  }

  // ---------------------------------------------------------------- bit lists

  /** The n low bits of v, least significant first. */
  function ToBits(v: nat, n: nat): (s: seq<bool>)
    ensures |s| == n
  {
    if n == 0 then [] else [v % 2 == 1] + ToBits(v / 2, n - 1)
  }

  /** The number whose bits, least significant first, are s. */
  function FromBits(s: seq<bool>): nat {
    if s == [] then 0 else 2 * FromBits(s[1..]) + (if s[0] then 1 else 0)
  }

  /** The n low bits of v, most significant first. */
  function MsbBits(v: nat, n: nat): (s: seq<bool>)
    ensures |s| == n
  {
    if n == 0 then [] else MsbBits(v / 2, n - 1) + [v % 2 == 1]
  }

  /** The number whose bits, most significant first, are s. */
  function FromMsb(s: seq<bool>): nat {
    if s == [] then 0 else 2 * FromMsb(s[..|s| - 1]) + (if s[|s| - 1] then 1 else 0)
  }

  /** The bits of a byte string in the order DEFLATE reads them. */
  function BytesBits(bs: seq<byte>): (s: seq<bool>)
    ensures |s| == 8 * |bs|
  {
    if bs == [] then [] else ToBits(bs[0], 8) + BytesBits(bs[1..])
  }

  // ------------------------------------------------------------ shift algebra

  lemma {:induction false} ShlAdd(a: nat, b: nat, n: nat)
    ensures Shl(a + b, n) == Shl(a, n) + Shl(b, n)
  {
    if n > 0 { ShlAdd(a, b, n - 1); }
  }

  lemma {:induction false} ShlOne(n: nat)
    ensures Shl(1, n) == Pow2(n)
  {
    if n > 0 { ShlOne(n - 1); }
  }

  lemma {:induction false} ShlZero(n: nat)
    ensures Shl(0, n) == 0
  {
    if n > 0 { ShlZero(n - 1); }
  }

  lemma {:induction false} ShlMonotone(a: nat, b: nat, n: nat)
    ensures a <= b ==> Shl(a, n) <= Shl(b, n)
    ensures a < b ==> Shl(a, n) < Shl(b, n)
  {
    if n > 0 { ShlMonotone(a, b, n - 1); }
  }

  lemma {:induction false} ShlShl(a: nat, m: nat, n: nat)
    ensures Shl(Shl(a, m), n) == Shl(a, m + n)
  {
    if n > 0 { ShlShl(a, m, n - 1); }
  }

  lemma {:induction false} ShlDouble(a: nat, n: nat)
    ensures Shl(2 * a, n) == 2 * Shl(a, n)
  {
    if n > 0 { ShlDouble(a, n - 1); }
  }

  lemma {:induction false} ShrShr(v: nat, m: nat, n: nat)
    ensures Shr(Shr(v, m), n) == Shr(v, m + n)
  {
    if m > 0 { ShrShr(v / 2, m - 1, n); }
  }

  /** Shr is integer division: the quotient brackets the dividend. */
  lemma {:induction false} ShrBracket(v: nat, c: nat, n: nat)
    ensures Shr(v, n) == c <==> Shl(c, n) <= v < Shl(c + 1, n)
  {
    if n > 0 { ShrBracket(v / 2, c, n - 1); }
  }

  lemma {:induction false} ShrBound(v: nat, m: nat, n: nat)
    requires v < Pow2(m + n)
    ensures Shr(v, n) < Pow2(m)
  {
    if n > 0 { ShrBound(v / 2, m, n - 1); }
  }

  lemma {:induction false} Pow2Monotone(m: nat, n: nat)
    requires m <= n
    ensures Pow2(m) <= Pow2(n)
  {
    if m < n { Pow2Monotone(m, n - 1); }
  }

  // --------------------------------------------------------------- masks, low

  lemma {:induction false} AndMask(v: nat, n: nat)
    ensures BitAnd(v, Pow2(n) - 1) == Low(v, n)
  {
    if n == 0 {
    } else {
      AndMask(v / 2, n - 1);
      assert (Pow2(n) - 1) / 2 == Pow2(n - 1) - 1;
      if v == 0 { LowSmall(0, n); }
    }
  }

  lemma {:induction false} LowSmall(v: nat, n: nat)
    requires v < Pow2(n)
    ensures Low(v, n) == v
  {
    if n > 0 { LowSmall(v / 2, n - 1); }
  }

  lemma {:induction false} LowBound(v: nat, n: nat)
    ensures Low(v, n) < Pow2(n)
    ensures Low(v, n) <= v
  {
    if n > 0 { LowBound(v / 2, n - 1); }
  }

  lemma {:induction false} LowPeriod(v: nat, n: nat)
    ensures Low(v + Pow2(n), n) == Low(v, n)
  {
    if n > 0 {
      LowPeriod(v / 2, n - 1);
      assert (v + Pow2(n)) / 2 == v / 2 + Pow2(n - 1);
    }
  }

  /** Two numbers less than one period apart with equal low bits are equal. */
  lemma {:induction false} LowGap(a: nat, b: nat, n: nat)
    requires a <= b < a + Pow2(n)
    requires Low(a, n) == Low(b, n)
    ensures a == b
  {
    if n > 0 { LowGap(a / 2, b / 2, n - 1); }
  }

  /** A number is its low part plus its shifted high part. */
  lemma {:induction false} LowHigh(v: nat, n: nat)
    ensures v == Low(v, n) + Shl(Shr(v, n), n)
  {
    if n > 0 {
      LowHigh(v / 2, n - 1);
    }
  }

  lemma {:induction false} OrZero(a: nat)
    ensures BitOr(a, 0) == a && BitOr(0, a) == a
  {
    if a > 0 { OrZero(a / 2); }
  }

  lemma {:induction false} AndZero(a: nat)
    ensures BitAnd(a, 0) == 0 && BitAnd(0, a) == 0
  {
  }

  /** Or-ing a value below 2^n with a multiple of 2^n adds them. */
  lemma {:induction false} OrShl(c: nat, b: nat, n: nat)
    requires c < Pow2(n)
    ensures BitOr(c, Shl(b, n)) == c + Shl(b, n)
  {
    if n == 0 {
      OrZero(b);
    } else {
      OrShl(c / 2, b, n - 1);
      assert Shl(b, n) / 2 == Shl(b, n - 1);
    }
  }

  /** Or-ing a value below 2^n leaves the bits above alone. */
  lemma {:induction false} OrHigh(h: nat, l: nat, c: nat, n: nat)
    requires l < Pow2(n) && c < Pow2(n)
    ensures BitOr(Shl(h, n) + l, c) == Shl(h, n) + BitOr(l, c) && BitOr(l, c) < Pow2(n)
  {
    if n == 0 {
      OrZero(h);
    } else {
      OrHigh(h, l / 2, c / 2, n - 1);
      var v := Shl(h, n) + l;
      assert v / 2 == Shl(h, n - 1) + l / 2 && v % 2 == l % 2;
    }
  }

  lemma {:induction false} OrCommutes(a: nat, b: nat)
    ensures BitOr(a, b) == BitOr(b, a)
  {
    if a > 0 || b > 0 { OrCommutes(a / 2, b / 2); }
  }

  lemma {:induction false} XorOnes(v: nat, n: nat)
    requires v < Pow2(n)
    ensures BitXor(v, Pow2(n) - 1) == Pow2(n) - 1 - v
  {
    if n > 0 {
      XorOnes(v / 2, n - 1);
      var ones := Pow2(n) - 1;
      assert ones / 2 == Pow2(n - 1) - 1 && ones % 2 == 1;
      assert BitXor(v, ones) == 2 * BitXor(v / 2, ones / 2) + (if v % 2 == 1 then 0 else 1);
    }
  }

  // ------------------------------------------------------------ bit list laws

  lemma {:induction false} FromToBits(v: nat, n: nat)
    ensures FromBits(ToBits(v, n)) == Low(v, n)
  {
    if n > 0 {
      FromToBits(v / 2, n - 1);
      assert ToBits(v, n)[1..] == ToBits(v / 2, n - 1);
    }
  }

  lemma {:induction false} ToFromBits(s: seq<bool>)
    ensures FromBits(s) < Pow2(|s|)
    ensures ToBits(FromBits(s), |s|) == s
  {
    if s != [] {
      ToFromBits(s[1..]);
      assert s == [s[0]] + s[1..];
    }
  }

  lemma {:induction false} ToBitsLow(v: nat, n: nat, m: nat)
    requires n <= m
    ensures ToBits(Low(v, m), n) == ToBits(v, n)
  {
    if n > 0 { ToBitsLow(v / 2, n - 1, m - 1); }
  }

  lemma {:induction false} FirstBit(v: nat, n: nat)
    requires n > 0
    ensures ToBits(v, n) == [v % 2 == 1] + ToBits(v / 2, n - 1) && Shr(v, n) == Shr(v / 2, n - 1)
  {
  }

  lemma {:induction false} NoBits(v: nat)
    ensures ToBits(v, 0) == [] && Shr(v, 0) == v
  {
  }

  /** Splitting a word splits its bits. */
  lemma {:induction false} ToBitsSplit(v: nat, m: nat, n: nat)
    ensures ToBits(v, m + n) == ToBits(v, m) + ToBits(Shr(v, m), n)
  {
    hide ToBits, Shr;
    NoBits(v);
    if m > 0 {
      FirstBit(v, m + n);
      FirstBit(v, m);
      ToBitsSplit(v / 2, m - 1, n);
      var b, low, high := [v % 2 == 1], ToBits(v / 2, m - 1), ToBits(Shr(v / 2, m - 1), n);
      assert b + (low + high) == b + low + high;
    }
  }

  /** Appending a value above the n bits already there appends its bits. */
  lemma {:induction false} ToBitsAppend(c: nat, n: nat, b: nat, m: nat)
    requires c < Pow2(n)
    ensures ToBits(c + Shl(b, n), n + m) == ToBits(c, n) + ToBits(b, m)
  {
    if n == 0 {
    } else {
      ToBitsAppend(c / 2, n - 1, b, m);
      assert (c + Shl(b, n)) / 2 == c / 2 + Shl(b, n - 1);
      assert (c + Shl(b, n)) % 2 == c % 2;
      calc {
        ToBits(c + Shl(b, n), n + m);
        [c % 2 == 1] + ToBits(c / 2 + Shl(b, n - 1), n - 1 + m);
        [c % 2 == 1] + (ToBits(c / 2, n - 1) + ToBits(b, m));
        ToBits(c, n) + ToBits(b, m);
      }
    }
  }

  lemma {:induction false} ToBitsAt(v: nat, n: nat, i: nat)
    requires i < n
    ensures ToBits(v, n)[i] == Bit(v, i)
  {
    if i > 0 { ToBitsAt(v / 2, n - 1, i - 1); }
  }

  lemma {:induction false} ToBitsInjective(a: nat, b: nat, n: nat)
    requires a < Pow2(n) && b < Pow2(n)
    requires ToBits(a, n) == ToBits(b, n)
    ensures a == b
  {
    FromToBits(a, n); FromToBits(b, n);
    LowSmall(a, n); LowSmall(b, n);
  }

  lemma {:induction false} MsbBitsAt(v: nat, n: nat, i: nat)
    requires i < n
    ensures MsbBits(v, n)[i] == Bit(v, n - 1 - i)
  {
    if i < n - 1 { MsbBitsAt(v / 2, n - 1, i); }
  }

  lemma {:induction false} FromMsbBits(v: nat, n: nat)
    requires v < Pow2(n)
    ensures FromMsb(MsbBits(v, n)) == v
  {
    if n > 0 {
      FromMsbBits(v / 2, n - 1);
      assert MsbBits(v, n)[..n - 1] == MsbBits(v / 2, n - 1);
    }
  }

  lemma {:induction false} MsbFromBits(s: seq<bool>)
    ensures FromMsb(s) < Pow2(|s|)
    ensures MsbBits(FromMsb(s), |s|) == s
  {
    if s != [] {
      MsbFromBits(s[..|s| - 1]);
      assert s == s[..|s| - 1] + [s[|s| - 1]];
    }
  }

  /** Dropping the last bits of a most-significant-first list is a right shift. */
  lemma {:induction false} FromMsbTake(s: seq<bool>, n: nat)
    requires n <= |s|
    ensures FromMsb(s[..n]) == Shr(FromMsb(s), |s| - n)
  {
    if n < |s| {
      var t := s[..|s| - 1];
      FromMsbTake(t, n);
      assert t[..n] == s[..n];
      assert FromMsb(s) / 2 == FromMsb(t);
    } else {
      assert s[..n] == s;
    }
  }

  // ------------------------------------------------------------- single bits

  lemma {:induction false} BitOfAnd(a: nat, b: nat, i: nat)
    ensures Bit(BitAnd(a, b), i) == (Bit(a, i) && Bit(b, i))
  {
    BitOfZero(i);
    if a != 0 && b != 0 && i > 0 {
      BitOfAnd(a / 2, b / 2, i - 1);
      assert BitAnd(a, b) / 2 == BitAnd(a / 2, b / 2);
    }
  }

  lemma {:induction false} BitOfOr(a: nat, b: nat, i: nat)
    ensures Bit(BitOr(a, b), i) == (Bit(a, i) || Bit(b, i))
  {
    BitOfZero(i);
    if !(a == 0 && b == 0) && i > 0 {
      BitOfOr(a / 2, b / 2, i - 1);
      assert BitOr(a, b) / 2 == BitOr(a / 2, b / 2);
    }
  }

  lemma {:induction false} BitOfZero(i: nat)
    ensures !Bit(0, i)
  {
    if i > 0 { BitOfZero(i - 1); }
  }

  lemma {:induction false} BitOfShl(v: nat, n: nat, i: nat)
    ensures Bit(Shl(v, n), i) == (i >= n && Bit(v, i - n))
  {
    if n > 0 && i > 0 {
      BitOfShl(v, n - 1, i - 1);
      assert Shl(v, n) / 2 == Shl(v, n - 1);
    }
  }

  lemma {:induction false} BitOfShr(v: nat, n: nat, i: nat)
    ensures Bit(Shr(v, n), i) == Bit(v, i + n)
  {
    if n > 0 { BitOfShr(v / 2, n - 1, i); }
  }

  /** Bits at and above n are clear exactly in the numbers below 2^n. */
  lemma {:induction false} BoundFromBits(v: nat, n: nat)
    requires forall i: nat :: i >= n ==> !Bit(v, i)
    ensures v < Pow2(n)
  {
    if n == 0 {
      if v > 0 { HighBit(v); }
    } else {
      forall i: nat | i >= n - 1 ensures !Bit(v / 2, i) {
        assert Bit(v, i + 1) == Bit(v / 2, i);
      }
      BoundFromBits(v / 2, n - 1);
    }
  }

  lemma {:induction false} HighBit(v: nat)
    requires v > 0
    ensures exists i: nat :: Bit(v, i)
  {
    if v % 2 == 1 {
      assert Bit(v, 0);
    } else {
      HighBit(v / 2);
      var i: nat :| Bit(v / 2, i);
      assert Bit(v, i + 1);
    }
  }

  lemma {:induction false} ShlEight(s: nat)
    ensures Shl(s, 8) == 256 * s
  {
    assert Shl(s, 0) == s;
    assert Shl(s, 2) == 4 * Shl(s, 0);
    assert Shl(s, 4) == 4 * Shl(s, 2);
    assert Shl(s, 6) == 4 * Shl(s, 4);
    assert Shl(s, 8) == 4 * Shl(s, 6);
  }

  lemma {:induction false} ShlNine(s: nat)
    ensures Shl(s, 9) == 512 * s
  {
    assert Shl(s, 0) == s;
    assert Shl(s, 1) == 2 * Shl(s, 0);
    assert Shl(s, 3) == 4 * Shl(s, 1);
    assert Shl(s, 5) == 4 * Shl(s, 3);
    assert Shl(s, 7) == 4 * Shl(s, 5);
    assert Shl(s, 9) == 4 * Shl(s, 7);
  }

  lemma {:induction false} PowNine()
    ensures Pow2(9) == 512
  {
    assert Pow2(4) == 16;
    assert Pow2(9) == 32 * Pow2(4);
  }
}
