/**
 Canonical Huffman codes as section 3.2.2 of RFC 1951 defines them: a list of code
 lengths (0 meaning "unused symbol") fixes every code. The codes are studied through
 the 16-bit intervals they own: a 16-bit window of the stream starts with a code
 exactly when its value lies in that code's interval.
 */
module Canonical {
  import opened BitOps

  type Lengths = lens: seq<int> | forall i :: 0 <= i < |lens| ==> 0 <= lens[i] <= 15

  // -------------------------------------------------------------- definitions

  /** How many symbols have length s. */
  function Count(lens: seq<int>, s: int): (c: nat)
    ensures c <= |lens|
  {
    if lens == [] then 0
    else Count(lens[..|lens| - 1], s) + (if lens[|lens| - 1] == s then 1 else 0)
  }

  /** How many earlier symbols share symbol i's length. */
  function Rank(lens: seq<int>, i: nat): nat
    requires i < |lens|
  {
    Count(lens[..i], lens[i])
  }

  /** The numerically smallest code of length s. */
  function First(lens: seq<int>, s: nat): nat
    requires s >= 1
    decreases s, 0
  {
    if s == 1 then 0 else 2 * End(lens, s - 1)
  }

  /** One past the largest code of length s. */
  function End(lens: seq<int>, s: nat): nat
    requires s >= 1
    decreases s, 1
  {
    First(lens, s) + Count(lens, s)
  }

  /** The code of a used symbol. */
  function Code(lens: seq<int>, i: nat): nat
    requires i < |lens| && lens[i] >= 1
  {
    First(lens, lens[i]) + Rank(lens, i)
  }

  /** The code of a used symbol as it appears in the stream. */
  function CodeBits(lens: seq<int>, i: nat): seq<bool>
    requires i < |lens| && lens[i] >= 1
  {
    MsbBits(Code(lens, i), lens[i])
  }

  /** Where the intervals of all codes of length at most s end. */
  function Limit(lens: seq<int>, s: nat): nat
    requires s <= 16
  {
    if s == 0 then 0 else Shl(End(lens, s), 16 - s)
  }

  function Low16(lens: Lengths, i: nat): nat
    requires i < |lens| && lens[i] >= 1
  {
    Shl(Code(lens, i), 16 - lens[i])
  }

  function High16(lens: Lengths, i: nat): nat
    requires i < |lens| && lens[i] >= 1
  {
    Shl(Code(lens, i) + 1, 16 - lens[i])
  }

  /** Symbol i is used and its interval contains the window w. */
  ghost predicate Owns(lens: Lengths, i: nat, w: nat) {
    i < |lens| && lens[i] >= 1 && Low16(lens, i) <= w < High16(lens, i)
  }

  /** The share of the 16-bit code space the lengths claim. */
  function KraftSum(lens: Lengths): nat {
    if lens == [] then 0
    else KraftSum(lens[..|lens| - 1]) + Share(lens[|lens| - 1])
  }

  function Share(s: nat): nat
    requires s <= 15
  {
    if s == 0 then 0 else Shl(1, 16 - s)
  }

  /** Kraft's inequality. */
  predicate Kraft(lens: Lengths) {
    KraftSum(lens) <= 0x10000
  }

  /** How many used symbols have a length below s. */
  function FirstSymbol(lens: seq<int>, s: nat): nat
    requires s >= 1
  {
    if s == 1 then 0 else FirstSymbol(lens, s - 1) + Count(lens, s - 1)
  }

  /** The place of a used symbol in order of length, then symbol. */
  function Position(lens: seq<int>, i: nat): nat
    requires i < |lens| && lens[i] >= 1
  {
    FirstSymbol(lens, lens[i]) + Rank(lens, i)
  }

  // ------------------------------------------------------------------ counting

  lemma {:induction false} CountPrefix(lens: seq<int>, i: nat, s: int)
    requires i < |lens|
    ensures Count(lens[..i + 1], s) == Count(lens[..i], s) + (if lens[i] == s then 1 else 0)
  {
    assert lens[..i + 1][..i] == lens[..i];
  }

  lemma {:induction false} CountAppend(lens: seq<int>, l: int, s: int)
    ensures Count(lens + [l], s) == Count(lens, s) + (if l == s then 1 else 0)
  {
    assert (lens + [l])[..|lens|] == lens;
  }

  lemma {:induction false} CountMonotone(lens: seq<int>, i: nat, j: nat, s: int)
    requires i <= j <= |lens|
    ensures Count(lens[..i], s) <= Count(lens[..j], s)
  {
    if i < j {
      CountMonotone(lens, i, j - 1, s);
      CountPrefix(lens, j - 1, s);
    }
  }

  lemma {:induction false} RankBound(lens: seq<int>, i: nat)
    requires i < |lens|
    ensures Rank(lens, i) < Count(lens, lens[i])
  {
    CountPrefix(lens, i, lens[i]);
    CountMonotone(lens, i + 1, |lens|, lens[i]);
    assert lens[..|lens|] == lens;
  }

  lemma {:induction false} RankIncreases(lens: seq<int>, i: nat, j: nat)
    requires i < j < |lens| && lens[i] == lens[j]
    ensures Rank(lens, i) < Rank(lens, j)
  {
    CountPrefix(lens, i, lens[i]);
    CountMonotone(lens, i + 1, j, lens[i]);
  }

  /** The r-th symbol of length s. */
  lemma {:induction false} Nth(lens: seq<int>, s: int, r: nat) returns (i: nat)
    requires r < Count(lens, s)
    ensures i < |lens| && lens[i] == s && Rank(lens, i) == r
  {
    var n := |lens| - 1;
    if lens[n] == s && r == Count(lens[..n], s) {
      i := n;
    } else {
      i := Nth(lens[..n], s, r);
      assert lens[..n][..i] == lens[..i];
    }
  }

  // ---------------------------------------------------------------- code space

  lemma {:induction false} Pow2Values()
    ensures Pow2(8) == 256 && Pow2(9) == 512 && Pow2(16) == 0x10000
  {
    assert Pow2(4) == 16;
    assert Pow2(8) == 16 * Pow2(4);
    assert Pow2(12) == 16 * Pow2(8);
    assert Pow2(16) == 16 * Pow2(12);
  }

  lemma {:induction false} FullSpace(s: nat)
    requires s <= 16
    ensures Shl(Pow2(s), 16 - s) == 0x10000
  {
    ShlOne(s);
    ShlShl(1, s, 16 - s);
    ShlOne(16);
    Pow2Values();
  }

  lemma {:induction false} LimitStep(lens: seq<int>, s: nat)
    requires 1 <= s <= 16
    ensures Shl(First(lens, s), 16 - s) == Limit(lens, s - 1)
    ensures Limit(lens, s) == Limit(lens, s - 1) + Shl(Count(lens, s), 16 - s)
  {
    ShlAdd(First(lens, s), Count(lens, s), 16 - s);
    if s == 1 {
      ShlZero(15);
    } else {
      ShlDouble(End(lens, s - 1), 16 - s);
    }
  }

  lemma {:induction false} LimitMonotone(lens: seq<int>, s: nat, t: nat)
    requires s <= t <= 16
    ensures Limit(lens, s) <= Limit(lens, t)
  {
    if s < t {
      LimitMonotone(lens, s, t - 1);
      LimitStep(lens, t);
    }
  }

  /** A new last symbol of length l moves every later limit by its share. */
  lemma {:induction false} LimitAppend(lens: Lengths, l: nat, s: nat)
    requires l <= 15 && s <= 15
    ensures Limit(lens + [l], s) == Limit(lens, s) + (if 1 <= l <= s then Share(l) else 0)
  {
    hide Limit, Count, First, Shl;
    if s == 0 {
      LimitZero(lens);
      LimitZero(lens + [l]);
    } else {
      LimitAppend(lens, l, s - 1);
      LimitStep(lens, s);
      LimitStep(lens + [l], s);
      CountAppend(lens, l, s);
      if l == s { ShlAdd(Count(lens, s), 1, 16 - s); }
    }
  }

  lemma {:induction false} LimitZero(lens: Lengths)
    ensures Limit(lens, 0) == 0
  {
  }

  lemma {:induction false} LimitIsKraftSum(lens: Lengths)
    ensures Limit(lens, 15) == KraftSum(lens)
  {
    if lens == [] {
      LimitEmpty(15);
    } else {
      var n := |lens| - 1;
      LimitIsKraftSum(lens[..n]);
      LimitAppend(lens[..n], lens[n], 15);
      assert lens == lens[..n] + [lens[n]];
    }
  }

  lemma {:induction false} LimitEmpty(s: nat)
    requires s <= 16
    ensures Limit([], s) == 0
  {
    if s > 0 {
      LimitEmpty(s - 1);
      LimitStep([], s);
      ShlZero(16 - s);
    }
  }

  lemma {:induction false} FitsIffLimit(lens: seq<int>, s: nat)
    requires 1 <= s <= 16
    ensures End(lens, s) <= Pow2(s) <==> Limit(lens, s) <= 0x10000
  {
    FullSpace(s);
    ShlMonotone(End(lens, s), Pow2(s), 16 - s);
    ShlMonotone(Pow2(s), End(lens, s), 16 - s);
  }

  /** Under Kraft's inequality every length has room for its codes. */
  lemma {:induction false} KraftFits(lens: Lengths, s: nat)
    requires Kraft(lens) && 1 <= s <= 15
    ensures End(lens, s) <= Pow2(s)
    ensures Limit(lens, s) <= 0x10000
  {
    LimitIsKraftSum(lens);
    LimitMonotone(lens, s, 15);
    FitsIffLimit(lens, s);
  }

  lemma {:induction false} CodeFits(lens: Lengths, i: nat)
    requires Kraft(lens) && i < |lens| && lens[i] >= 1
    ensures Code(lens, i) < Pow2(lens[i])
  {
    RankBound(lens, i);
    KraftFits(lens, lens[i]);
  }

  // ----------------------------------------------------------------- intervals

  /** A symbol's interval lies between the limits of the two neighbouring lengths. */
  lemma {:induction false} IntervalInLength(lens: Lengths, i: nat)
    requires i < |lens| && lens[i] >= 1
    ensures Limit(lens, lens[i] - 1) <= Low16(lens, i) < High16(lens, i) <= Limit(lens, lens[i])
  {
    var s := lens[i];
    RankBound(lens, i);
    LimitStep(lens, s);
    ShlMonotone(First(lens, s), Code(lens, i), 16 - s);
    ShlMonotone(Code(lens, i), Code(lens, i) + 1, 16 - s);
    ShlMonotone(Code(lens, i) + 1, End(lens, s), 16 - s);
  }

  /** Intervals follow one another in order of length, then symbol. */
  lemma {:induction false} IntervalsOrdered(lens: Lengths, i: nat, j: nat)
    requires i < |lens| && j < |lens| && lens[i] >= 1 && lens[j] >= 1
    requires lens[i] < lens[j] || (lens[i] == lens[j] && i < j)
    ensures High16(lens, i) <= Low16(lens, j)
  {
    if lens[i] == lens[j] {
      RankIncreases(lens, i, j);
      ShlMonotone(Code(lens, i) + 1, Code(lens, j), 16 - lens[i]);
    } else {
      IntervalInLength(lens, i);
      IntervalInLength(lens, j);
      LimitMonotone(lens, lens[i], lens[j] - 1);
    }
  }

  /** No window is owned twice. */
  lemma {:induction false} OwnerUnique(lens: Lengths, i: nat, j: nat, w: nat)
    requires Owns(lens, i, w) && Owns(lens, j, w)
    ensures i == j
  {
    if i != j {
      if lens[i] < lens[j] || (lens[i] == lens[j] && i < j) {
        IntervalsOrdered(lens, i, j);
      } else {
        IntervalsOrdered(lens, j, i);
      }
    }
  }

  /** A window between the limits of lengths s-1 and s belongs to a code of length s,
      the one its leading s bits spell. */
  lemma {:induction false} OwnerAtLength(lens: Lengths, w: nat, s: nat) returns (i: nat)
    requires 1 <= s <= 15
    requires Limit(lens, s - 1) <= w < Limit(lens, s)
    ensures Owns(lens, i, w) && lens[i] == s && Code(lens, i) == Shr(w, 16 - s)
  {
    var c := Shr(w, 16 - s);
    ShrBracket(w, c, 16 - s);
    LimitStep(lens, s);
    if c < First(lens, s) { ShlMonotone(c + 1, First(lens, s), 16 - s); }
    if c >= End(lens, s) { ShlMonotone(End(lens, s), c, 16 - s); }
    i := Nth(lens, s, c - First(lens, s));
  }

  lemma {:induction false} LengthOfWindow(lens: Lengths, w: nat, s: nat) returns (t: nat)
    requires s <= 15 && w < Limit(lens, s)
    ensures 1 <= t <= s && Limit(lens, t - 1) <= w < Limit(lens, t)
  {
    if w < Limit(lens, s - 1) { t := LengthOfWindow(lens, w, s - 1); } else { t := s; }
  }

  /** The intervals tile [0, Limit(15)): a window is owned exactly when it lies below. */
  lemma {:induction false} IntervalsTile(lens: Lengths, w: nat)
    ensures (exists i: nat :: Owns(lens, i, w)) <==> w < Limit(lens, 15)
  {
    if w < Limit(lens, 15) {
      var s := LengthOfWindow(lens, w, 15);
      var i := OwnerAtLength(lens, w, s);
    }
    forall i: nat | Owns(lens, i, w) ensures w < Limit(lens, 15) {
      IntervalInLength(lens, i);
      LimitMonotone(lens, lens[i], 15);
    }
  }

  // -------------------------------------------------------------- the bit view

  /** The stream continues with symbol i's code. */
  ghost predicate Matches(lens: Lengths, i: nat, bits: seq<bool>) {
    i < |lens| && lens[i] >= 1 && CodeBits(lens, i) <= bits
  }

  /** Having a code as a prefix is having a 16-bit window in the code's interval. */
  lemma {:induction false} MatchesIffOwns(lens: Lengths, i: nat, bits: seq<bool>)
    requires Kraft(lens) && |bits| >= 16
    ensures Matches(lens, i, bits) <==> Owns(lens, i, FromMsb(bits[..16]))
  {
    if i < |lens| && lens[i] >= 1 {
      var l, c, w := lens[i], Code(lens, i), FromMsb(bits[..16]);
      CodeFits(lens, i);
      FromMsbTake(bits[..16], l);
      assert bits[..16][..l] == bits[..l];
      assert Shr(w, 16 - l) == FromMsb(bits[..l]);
      FromMsbBits(c, l);
      MsbFromBits(bits[..l]);
      ShrBracket(w, c, 16 - l);
      assert CodeBits(lens, i) <= bits <==> MsbBits(c, l) == bits[..l];
    }
  }

  /** At most one code is a prefix of the stream. */
  lemma {:induction false} MatchUnique(lens: Lengths, i: nat, j: nat, bits: seq<bool>)
    requires Kraft(lens) && Matches(lens, i, bits) && Matches(lens, j, bits)
    ensures i == j
  {
    var long := bits + MsbBits(0, 16);
    assert Matches(lens, i, long) && Matches(lens, j, long);
    MatchesIffOwns(lens, i, long);
    MatchesIffOwns(lens, j, long);
    OwnerUnique(lens, i, j, FromMsb(long[..16]));
  }

  /** No code is a prefix of another. */
  lemma {:induction false} PrefixFree(lens: Lengths, i: nat, j: nat)
    requires Kraft(lens) && i < |lens| && j < |lens| && lens[i] >= 1 && lens[j] >= 1
    requires CodeBits(lens, i) <= CodeBits(lens, j)
    ensures i == j
  {
    MatchUnique(lens, i, j, CodeBits(lens, j));
  }

  // ------------------------------------------------------------- symbol places

  lemma {:induction false} FirstSymbolMonotone(lens: seq<int>, s: nat, t: nat)
    requires 1 <= s <= t
    ensures FirstSymbol(lens, s) <= FirstSymbol(lens, t)
  {
    if s < t { FirstSymbolMonotone(lens, s, t - 1); }
  }

  lemma {:induction false} PositionInLength(lens: seq<int>, i: nat)
    requires i < |lens| && lens[i] >= 1
    ensures FirstSymbol(lens, lens[i]) <= Position(lens, i) < FirstSymbol(lens, lens[i] + 1)
  {
    RankBound(lens, i);
  }

  lemma {:induction false} PositionInjective(lens: seq<int>, i: nat, j: nat)
    requires i < |lens| && j < |lens| && lens[i] >= 1 && lens[j] >= 1
    requires Position(lens, i) == Position(lens, j)
    ensures i == j
  {
    PositionInLength(lens, i);
    PositionInLength(lens, j);
    if lens[i] < lens[j] { FirstSymbolMonotone(lens, lens[i] + 1, lens[j]); }
    if lens[j] < lens[i] { FirstSymbolMonotone(lens, lens[j] + 1, lens[i]); }
    if i < j { RankIncreases(lens, i, j); }
    if j < i { RankIncreases(lens, j, i); }
  }

  lemma {:induction false} FirstSymbolAppend(lens: seq<int>, l: int, s: nat)
    requires s >= 1
    ensures FirstSymbol(lens + [l], s) == FirstSymbol(lens, s) + (if 1 <= l < s then 1 else 0)
  {
    if s > 1 {
      FirstSymbolAppend(lens, l, s - 1);
      assert (lens + [l])[..|lens|] == lens;
    }
  }

  lemma {:induction false} FirstSymbolEmpty(s: nat)
    requires s >= 1
    ensures FirstSymbol([], s) == 0
  {
    if s > 1 { FirstSymbolEmpty(s - 1); }
  }

  /** There are no more used symbols than symbols. */
  lemma {:induction false} FirstSymbolBound(lens: seq<int>, s: nat)
    requires s >= 1
    ensures FirstSymbol(lens, s) <= |lens|
  {
    if lens == [] {
      FirstSymbolEmpty(s);
    } else {
      var n := |lens| - 1;
      FirstSymbolBound(lens[..n], s);
      FirstSymbolAppend(lens[..n], lens[n], s);
      assert lens == lens[..n] + [lens[n]];
    }
  }
}
