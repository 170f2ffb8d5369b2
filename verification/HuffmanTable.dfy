/**
 The decoder's Huffman table: the arrays _ssfn__zbuild_huffman fills in place, what it
 means for them to represent a list of code lengths, and the two table look-ups.
 */
module HuffmanTable {
  import opened BitOps
  import opened BitReverse
  import opened Canonical

  const FAST_BITS: nat := 9
  const FAST_SIZE: nat := 512

  // ------------------------------------------------------- meaning of the arrays

  /** Slot m of the fast table is one whose low bits spell symbol i's code. */
  predicate FastHit(lens: Lengths, i: nat, m: nat) {
    i < |lens| && 1 <= lens[i] <= FAST_BITS && Low(m, lens[i]) == Reverse(Code(lens, i), lens[i])
  }

  /** The fast table is right about the first n symbols: every slot one of them hits
      holds its length and number, and every other slot is empty. */
  ghost predicate FastTable(fast: seq<int>, lens: Lengths, n: nat) {
    && |fast| == FAST_SIZE
    && (forall i: nat, m: nat :: i < n && m < FAST_SIZE && FastHit(lens, i, m) ==> fast[m] == 512 * lens[i] + i)
    && (forall m: nat :: m < FAST_SIZE ==> fast[m] == 0 || (fast[m] % 512 < n && FastHit(lens, fast[m] % 512, m)))
  }

  /** Every slot whose low s bits are j0 is set to v, and no other slot is touched. */
  ghost predicate Filled(before: seq<int>, after: seq<int>, j0: nat, s: nat, v: nat) {
    && |before| == |after| == FAST_SIZE
    && forall m: nat :: m < FAST_SIZE ==> after[m] == if Low(m, s) == j0 then v else before[m]
  }

  /** The per-length columns are filled for all lengths below n. */
  ghost predicate Columns(firstcode: seq<int>, maxcode: seq<int>, firstsymbol: seq<int>, lens: Lengths, n: nat) {
    && |firstcode| == 16 && |maxcode| == 17 && |firstsymbol| == 16 && n <= 16
    && (forall s :: 1 <= s < n ==> firstcode[s] == First(lens, s))
    && (forall s :: 1 <= s < n ==> firstsymbol[s] == FirstSymbol(lens, s))
    && (forall s :: 1 <= s < n ==> maxcode[s] == Limit(lens, s))
  }

  /** The first n symbols stand at their places. */
  ghost predicate Placed(value: seq<int>, size: seq<int>, lens: Lengths, n: nat) {
    && |value| == 288 && |size| == 288 && n <= |lens|
    && (forall i :: 0 <= i < n && lens[i] >= 1 ==>
          Position(lens, i) < 288 && value[Position(lens, i)] == i && size[Position(lens, i)] == lens[i])
  }

  // ------------------------------------------------------------------ the table

  class ZHuffman {
    var fast: seq<int>
    var firstcode: seq<int>
    var maxcode: seq<int>
    var firstsymbol: seq<int>
    var size: seq<int>
    var value: seq<int>
    ghost var lens: Lengths

    /** The sizes of the C struct's arrays. */
    ghost predicate Shape()
      reads this
    {
      && |fast| == FAST_SIZE && |firstcode| == 16 && |maxcode| == 17
      && |firstsymbol| == 16 && |size| == 288 && |value| == 288
    }

    /** The arrays hold a complete table for the code lengths lens. */
    ghost predicate Valid()
      reads this
    {
      && Shape()
      && |lens| <= 288 && Kraft(lens)
      && Columns(firstcode, maxcode, firstsymbol, lens, 16)
      && maxcode[16] == 0x10000
      && Placed(value, size, lens, |lens|)
      && FastTable(fast, lens, |lens|)
    }

    constructor ()
      ensures Shape()
    {
      fast := seq(FAST_SIZE, _ => 0);
      firstcode := seq(16, _ => 0);
      maxcode := seq(17, _ => 0);
      firstsymbol := seq(16, _ => 0);
      size := seq(288, _ => 0);
      value := seq(288, _ => 0);
      lens := [];
    }

    /** _ssfn__zbuild_huffman: fill the table from a list of code lengths. It fails exactly
        when the lengths claim more than the whole code space. */
    method Build(sizelist: Lengths) returns (ok: bool)
      requires Shape() && |sizelist| <= 288
      modifies this
      ensures Shape()
      ensures ok <==> Kraft(sizelist)
      ensures ok ==> Valid() && lens == sizelist
    {
      var sizes := CountSizes(sizelist);
      fast := seq(FAST_SIZE, _ => 0);
      sizes := sizes[0 := 0];
      for i := 1 to 16
        invariant Shape() && fast == seq(FAST_SIZE, _ => 0)
      {
        ShlOne(i);
        if sizes[i] > Shl(1, i) {
          if Kraft(sizelist) { KraftFits(sizelist, i); }
          return false;
        }
      }
      var nextCode;
      ok, nextCode := FillColumns(sizelist, sizes);
      if !ok { return; }
      maxcode := maxcode[16 := 0x10000];
      FillSymbols(sizelist, nextCode);
    }

    /** The loop over lengths: first code, first symbol and 16-bit limit of each length,
        giving up at the first length whose codes do not fit. */
    method FillColumns(sizelist: Lengths, sizes: seq<int>) returns (ok: bool, nextCode: seq<int>)
      requires |firstcode| == 16 && |maxcode| == 17 && |firstsymbol| == 16 && |sizelist| <= 288
      requires |sizes| == 17 && forall s :: 1 <= s < 16 ==> sizes[s] == Count(sizelist, s)
      modifies `firstcode, `maxcode, `firstsymbol
      ensures |firstcode| == 16 && |maxcode| == 17 && |firstsymbol| == 16
      ensures ok <==> Kraft(sizelist)
      ensures ok ==> Columns(firstcode, maxcode, firstsymbol, sizelist, 16)
      ensures ok ==> |nextCode| == 16 && forall s :: 1 <= s < 16 ==> nextCode[s] == First(sizelist, s)
    {
      var code: nat, k: nat := 0, 0;
      nextCode := seq(16, _ => 0);
      ColumnStart(firstcode, maxcode, firstsymbol, nextCode, sizelist);
      hide *;
      for i := 1 to 16
        invariant |firstcode| == 16 && |maxcode| == 17 && |firstsymbol| == 16 && |nextCode| == 16
        invariant ColumnState(firstcode, maxcode, firstsymbol, nextCode, code, k, sizelist, i)
      {
        ColumnStep(firstcode, maxcode, firstsymbol, nextCode, code, k, sizelist, i);
        nextCode := nextCode[i := code];
        firstcode := firstcode[i := code % 0x10000];
        firstsymbol := firstsymbol[i := k % 0x10000];
        code := code + sizes[i];
        if sizes[i] != 0 && code - 1 >= Shl(1, i) {
          return false, nextCode;
        }
        maxcode := maxcode[i := Shl(code, 16 - i)];
        code := Shl(code, 1);
        k := k + sizes[i];
      }
      ColumnsDone(firstcode, maxcode, firstsymbol, nextCode, code, k, sizelist);
      ok := true;
    }

    /** The loop over symbols, in order: each takes the next code of its length. */
    method FillSymbols(sizelist: Lengths, next: seq<int>)
      requires Shape() && |sizelist| <= 288 && Kraft(sizelist)
      requires |next| == 16 && forall s :: 1 <= s < 16 ==> next[s] == First(sizelist, s)
      requires Columns(firstcode, maxcode, firstsymbol, sizelist, 16) && maxcode[16] == 0x10000
      requires fast == seq(FAST_SIZE, _ => 0)
      modifies `size, `value, `fast, `lens
      ensures Valid() && lens == sizelist
    {
      hide First, Position, FastHit, Kraft;
      var nextCode := next;
      lens := sizelist;
      for i := 0 to |sizelist|
        invariant Shape() && lens == sizelist && |nextCode| == 16
        invariant forall s :: 1 <= s < 16 ==> nextCode[s] == First(sizelist, s) + Count(sizelist[..i], s)
        invariant Placed(value, size, sizelist, i)
        invariant FastTable(fast, sizelist, i)
      {
        var s := sizelist[i];
        NextCodes(sizelist, i);
        if s != 0 {
          PlaceSymbol(sizelist, i, nextCode[s]);
          nextCode := nextCode[s := nextCode[s] + 1];
        } else {
          UnusedSymbol(value, size, fast, sizelist, i);
        }
      }
    }

    /** The body of the symbol loop: put symbol i at its place and in every fast slot its code hits. */
    method PlaceSymbol(sizelist: Lengths, i: nat, code: nat)
      requires |size| == 288 && |value| == 288 && |sizelist| <= 288
      requires Kraft(sizelist) && i < |sizelist| && sizelist[i] >= 1
      requires code == Code(sizelist, i)
      requires Columns(firstcode, maxcode, firstsymbol, sizelist, 16)
      requires Placed(value, size, sizelist, i)
      requires FastTable(fast, sizelist, i)
      modifies `size, `value, `fast
      ensures Placed(value, size, sizelist, i + 1)
      ensures FastTable(fast, sizelist, i + 1)
    {
      PlaceBounds(firstcode, maxcode, firstsymbol, sizelist, i);
      PlacedStep(value, size, sizelist, i);
      hide *;
      var s := sizelist[i];
      var c := code - firstcode[s] + firstsymbol[s];
      var fastv := BitOr(Shl(s, FAST_BITS), i) % 0x10000;
      assert fastv == 512 * s + i;
      size := size[c := s];
      value := value[c := i];
      ghost var fast0 := fast;
      if s <= FAST_BITS {
        ReverseBits(code, s);
        FillFast(Reverse(code, s), s, fastv);
        FastStepShort(fast0, fast, sizelist, i);
      } else {
        FastStepLong(fast, sizelist, i);
      }
    }

    /** The inner loop: every slot whose low s bits are j0. */
    method FillFast(j0: nat, s: nat, fastv: nat)
      requires |fast| == FAST_SIZE && s <= FAST_BITS && j0 < Pow2(s)
      modifies `fast
      ensures Filled(old(fast), fast, j0, s, fastv)
    {
      var j := j0;
      LowSmall(j0, s);
      forall m: nat | m < j0 ensures Low(m, s) == m { LowSmall(m, s); }
      hide Low, Pow2, Shl;
      while j < FAST_SIZE
        invariant |fast| == FAST_SIZE
        invariant Low(j, s) == j0
        invariant forall m: nat :: m < FAST_SIZE ==>
                    fast[m] == if m < j && Low(m, s) == j0 then fastv else old(fast)[m]
      {
        fast := fast[j := fastv];
        ShlOne(s);
        LowPeriod(j, s);
        forall m: nat | j <= m < j + Pow2(s) && Low(m, s) == j0 ensures m == j {
          LowGap(j, m, s);
        }
        j := j + Shl(1, s);
      }
    }
  }

  /** The counting loop: how many symbols have each length. */
  method CountSizes(sizelist: Lengths) returns (sizes: seq<int>)
    ensures |sizes| == 17
    ensures forall s :: 0 <= s < 17 ==> sizes[s] == Count(sizelist, s)
  {
    sizes := seq(17, _ => 0);
    for i := 0 to |sizelist|
      invariant |sizes| == 17
      invariant forall s :: 0 <= s < 17 ==> sizes[s] == Count(sizelist[..i], s)
    {
      forall s | 0 <= s < 17
        ensures Count(sizelist[..i + 1], s) == Count(sizelist[..i], s) + (if sizelist[i] == s then 1 else 0)
      {
        CountPrefix(sizelist, i, s);
      }
      sizes := sizes[sizelist[i] := sizes[sizelist[i]] + 1];
    }
    assert sizelist[..|sizelist|] == sizelist;
  }

  // ------------------------------------------------------------ building, lemmas

  /** No column entry is cut by its 16-bit type. */
  lemma {:induction false} FitsInColumn(lens: Lengths, s: nat)
    requires 1 <= s <= 15 && |lens| <= 288 && First(lens, s) <= Pow2(s)
    ensures First(lens, s) < 0x10000 && FirstSymbol(lens, s) < 0x10000
  {
    Pow2Monotone(s, 15);
    FirstSymbolBound(lens, s);
    assert Pow2(5) == 32 && Pow2(10) == 32 * Pow2(5);
    assert Pow2(15) == 32 * Pow2(10);
  }

  lemma {:induction false} SmallMod(v: nat)
    ensures v < 0x10000 ==> v % 0x10000 == v
  {
  }

  /** The column loop's invariant: the columns below i are right, and code and k stand at
      the first code and first symbol of length i. */
  ghost predicate ColumnState(firstcode: seq<int>, maxcode: seq<int>, firstsymbol: seq<int>, nextCode: seq<int>,
                              code: nat, k: nat, lens: Lengths, i: nat)
  {
    && 1 <= i <= 16 && |lens| <= 288 && |nextCode| == 16
    && Columns(firstcode, maxcode, firstsymbol, lens, i)
    && (forall s :: 1 <= s < i ==> nextCode[s] == First(lens, s))
    && code == First(lens, i) <= Pow2(i)
    && k == FirstSymbol(lens, i)
    && Limit(lens, i - 1) <= 0x10000
  }

  lemma {:induction false} ColumnStart(firstcode: seq<int>, maxcode: seq<int>, firstsymbol: seq<int>,
                                       nextCode: seq<int>, lens: Lengths)
    requires |firstcode| == 16 && |maxcode| == 17 && |firstsymbol| == 16 && |nextCode| == 16 && |lens| <= 288
    ensures ColumnState(firstcode, maxcode, firstsymbol, nextCode, 0, 0, lens, 1)
  {
  }

  lemma {:induction false} ColumnsDone(firstcode: seq<int>, maxcode: seq<int>, firstsymbol: seq<int>,
                                       nextCode: seq<int>, code: nat, k: nat, lens: Lengths)
    requires ColumnState(firstcode, maxcode, firstsymbol, nextCode, code, k, lens, 16)
    ensures Kraft(lens) && Columns(firstcode, maxcode, firstsymbol, lens, 16)
    ensures forall s :: 1 <= s < 16 ==> nextCode[s] == First(lens, s)
  {
    LimitIsKraftSum(lens);
  }

  /** One length of the column loop: its test fails exactly when the code space is overrun there,
      and otherwise the columns are extended. */
  lemma {:induction false} ColumnStep(firstcode: seq<int>, maxcode: seq<int>, firstsymbol: seq<int>,
                                      nextCode: seq<int>, code: nat, k: nat, lens: Lengths, s: nat)
    requires s <= 15 && ColumnState(firstcode, maxcode, firstsymbol, nextCode, code, k, lens, s)
    ensures s >= 1 && |firstcode| == |firstsymbol| == |nextCode| == 16 && |maxcode| == 17
    ensures var n := Count(lens, s);
            if n != 0 && code + n - 1 >= Shl(1, s) then !Kraft(lens)
            else ColumnState(firstcode[s := code % 0x10000], maxcode[s := Shl(code + n, 16 - s)],
                             firstsymbol[s := k % 0x10000], nextCode[s := code],
                             Shl(code + n, 1), k + n, lens, s + 1)
  {
    hide Shl, Limit, First, End, FirstSymbol, Count, Pow2, Kraft;
    FitsInColumn(lens, s);
    SmallMod(code);
    SmallMod(k);
    NextColumn(lens, s);
  }

  /** The running code and symbol counts of the next length, and what the length's test decides. */
  lemma {:induction false} NextColumn(lens: Lengths, s: nat)
    requires 1 <= s <= 15 && First(lens, s) <= Pow2(s)
    ensures var code := First(lens, s) + Count(lens, s);
            Limit(lens, s) == Shl(code, 16 - s) && First(lens, s + 1) == Shl(code, 1)
            && FirstSymbol(lens, s + 1) == FirstSymbol(lens, s) + Count(lens, s)
            && if Count(lens, s) != 0 && code - 1 >= Shl(1, s) then !Kraft(lens)
               else Limit(lens, s) <= 0x10000 && First(lens, s + 1) <= Pow2(s + 1)
  {
    ShlOne(s);
    FitsIffLimit(lens, s);
    if Kraft(lens) { KraftFits(lens, s); }
    assert Shl(End(lens, s), 1) == 2 * End(lens, s);
  }

  /** What the symbol loop needs of symbol i: its place is in the arrays and its fast word is whole. */
  lemma {:induction false} PlaceBounds(firstcode: seq<int>, maxcode: seq<int>, firstsymbol: seq<int>,
                                       lens: Lengths, i: nat)
    requires |lens| <= 288 && i < |lens| && lens[i] >= 1
    requires Columns(firstcode, maxcode, firstsymbol, lens, 16)
    ensures |firstcode| == |firstsymbol| == 16 && |maxcode| == 17
    ensures Position(lens, i) == Code(lens, i) - firstcode[lens[i]] + firstsymbol[lens[i]] < 288
    ensures BitOr(Shl(lens[i], FAST_BITS), i) == 512 * lens[i] + i < 0x10000
    ensures FAST_BITS == 9
  {
    PositionInLength(lens, i);
    FirstSymbolBound(lens, lens[i] + 1);
    FastWord(lens[i], i);
  }

  lemma {:induction false} FastWord(s: nat, i: nat)
    requires s <= 15 && i < 512
    ensures BitOr(Shl(s, FAST_BITS), i) == 512 * s + i < 0x10000
  {
    assert Pow2(9) == 512;
    OrShl(i, s, 9);
    OrCommutes(i, Shl(s, 9));
    ShlNine(s);
  }

  /** Advancing one symbol advances the next code of its length and no other. */
  lemma {:induction false} NextCodes(lens: Lengths, i: nat)
    requires i < |lens|
    ensures forall s :: 0 <= s < 16 ==> Count(lens[..i + 1], s) == Count(lens[..i], s) + (if lens[i] == s then 1 else 0)
  {
    forall s | 0 <= s < 16
      ensures Count(lens[..i + 1], s) == Count(lens[..i], s) + (if lens[i] == s then 1 else 0)
    {
      CountPrefix(lens, i, s);
    }
  }

  /** A symbol of length 0 takes no place and no slot. */
  lemma {:induction false} UnusedSymbol(value: seq<int>, size: seq<int>, fast: seq<int>, lens: Lengths, i: nat)
    requires i < |lens| <= 288 && lens[i] == 0
    requires Placed(value, size, lens, i) && FastTable(fast, lens, i)
    ensures Placed(value, size, lens, i + 1) && FastTable(fast, lens, i + 1)
  {
    forall k: nat, m: nat | k < i + 1 && m < FAST_SIZE && FastHit(lens, k, m) ensures k < i { }
  }

  lemma {:induction false} PlacedStep(value: seq<int>, size: seq<int>, lens: Lengths, i: nat)
    requires i < |lens| && lens[i] >= 1 && Position(lens, i) < 288
    requires |value| == |size| == 288
    requires Placed(value, size, lens, i)
    ensures Placed(value[Position(lens, i) := i], size[Position(lens, i) := lens[i]], lens, i + 1)
  {
    forall k | 0 <= k < i && lens[k] >= 1 ensures Position(lens, k) != Position(lens, i) {
      if Position(lens, k) == Position(lens, i) { PositionInjective(lens, k, i); }
    }
  }

  /** A slot is hit by a symbol exactly when its nine bits start with the symbol's code. */
  lemma {:induction false} FastHitIffMatches(lens: Lengths, i: nat, m: nat)
    requires i < |lens| && 1 <= lens[i] <= FAST_BITS
    ensures FastHit(lens, i, m) <==> Matches(lens, i, ToBits(m, 9))
  {
    var l, c := lens[i], Code(lens, i);
    ReverseBits(c, l);
    ToBitsSplit(m, l, 9 - l);
    ToBitsLow(m, l, l);
    LowBound(m, l);
    if Matches(lens, i, ToBits(m, 9)) {
      assert ToBits(Low(m, l), l) == ToBits(Reverse(c, l), l);
      ToBitsInjective(Low(m, l), Reverse(c, l), l);
    }
  }

  lemma {:induction false} FastHitUnique(lens: Lengths, i: nat, k: nat, m: nat)
    requires Kraft(lens) && FastHit(lens, i, m) && FastHit(lens, k, m)
    ensures i == k
  {
    FastHitIffMatches(lens, i, m);
    FastHitIffMatches(lens, k, m);
    MatchUnique(lens, i, k, ToBits(m, 9));
  }

  /** Filling the slots of symbol n keeps the table right, because no earlier symbol shares them. */
  lemma {:induction false} FastStep(before: seq<int>, after: seq<int>, lens: Lengths, n: nat)
    requires Kraft(lens) && n < |lens| <= 288
    requires FastTable(before, lens, n) && |after| == FAST_SIZE
    requires forall m: nat :: m < FAST_SIZE ==>
               after[m] == if FastHit(lens, n, m) then 512 * lens[n] + n else before[m]
    ensures FastTable(after, lens, n + 1)
  {
    hide FastHit;
    forall i: nat, m: nat | i < n + 1 && m < FAST_SIZE && FastHit(lens, i, m)
      ensures after[m] == 512 * lens[i] + i
    {
      if i < n && FastHit(lens, n, m) { FastHitUnique(lens, i, n, m); }
    }
  }

  lemma {:induction false} FastStepShort(before: seq<int>, after: seq<int>, lens: Lengths, n: nat)
    requires Kraft(lens) && n < |lens| <= 288 && 1 <= lens[n] <= FAST_BITS
    requires FastTable(before, lens, n)
    requires Filled(before, after, Reverse(Code(lens, n), lens[n]), lens[n], 512 * lens[n] + n)
    ensures FastTable(after, lens, n + 1)
  {
    hide Low, Reverse, Code, Kraft, FastTable;
    FastStep(before, after, lens, n);
  }

  lemma {:induction false} FastStepLong(fast: seq<int>, lens: Lengths, n: nat)
    requires Kraft(lens) && n < |lens| <= 288 && lens[n] > FAST_BITS
    requires FastTable(fast, lens, n)
    ensures FastTable(fast, lens, n + 1)
  {
    hide Low, Reverse, Code, Kraft;
    FastStep(fast, fast, lens, n);
  }
}
