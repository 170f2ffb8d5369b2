/**
 Powers: exponentiation by repeated squaring in 32-bit arithmetic, and the smallest power of
 two that is large enough.
 */
module Powers {
  import opened Addresses
  import opened Arithmetic

  function Power(base: int, exponent: nat): int {
    if exponent == 0 then 1 else base * Power(base, exponent - 1)
  }

  function Abs(v: int): nat {
    if v < 0 then -v else v
  }

  lemma {:induction false} PowerSquare(base: int, exponent: nat)
    ensures Power(base * base, exponent) == Power(base, 2 * exponent)
  {
    if exponent > 0 {
      PowerSquare(base, exponent - 1);
      assert Power(base, 2 * exponent) == base * (base * Power(base, 2 * exponent - 2));
      Regroup(base, Power(base, 2 * exponent - 2));
    }
  }

  lemma {:induction false} AbsProduct(a: int, b: int)
    ensures Abs(a * b) == Abs(a) * Abs(b)
  {
  }

  lemma {:induction false} PowerPositive(base: nat, exponent: nat)
    requires base >= 1
    ensures Power(base, exponent) >= 1
  {
    if exponent > 0 {
      PowerPositive(base, exponent - 1);
      AtLeast(base, Power(base, exponent - 1));
    }
  }

  lemma {:induction false} AbsPower(base: int, exponent: nat)
    ensures Abs(Power(base, exponent)) == Power(Abs(base), exponent)
  {
    hide Abs;
    AbsOne();
    if exponent > 0 {
      AbsPower(base, exponent - 1);
      AbsProduct(base, Power(base, exponent - 1));
    }
  }

  lemma {:induction false} AbsOne()
    ensures Abs(1) == 1
  {
  }

  /** A product that is still in range has factors whose products are below the limit. */
  lemma {:induction false} FactorsFit(t: nat, b: nat, e: nat)
    requires e >= 2 && t * Power(b, e) <= 0x8000_0000 && (b > 0 ==> t > 0) && (b <= 1 ==> t <= 1)
    ensures b * b < 0x8000_0000 && b * t < 0x8000_0000
  {
    if b >= 2 {
      PowerPositive(b, e - 2);
      var p := Power(b, e - 2);
      assert Power(b, e) == b * (b * p);
      FactorsProduct(t, b, p);
      SmallSquare(b);
    }
  }

  lemma {:induction false} FactorsProduct(t: nat, b: nat, p: nat)
    requires t >= 1 && b >= 2 && p >= 1
    ensures t * (b * (b * p)) >= b * b && t * (b * (b * p)) >= 2 * (b * t) && b * t >= 1
  {
    Regroup(b, p);
    AtLeast(b, b);
    AtLeast(b * b, p);
    AtLeast(t, b * b * p);
    assert t * (b * (b * p)) == (b * t) * (b * p) by { Shuffle(t, b, b * p); }
    AtLeast(b, p);
    AtLeast(b, t);
    TwoAtLeast(b * t, b * p);
  }

  lemma {:induction false} TwoAtLeast(a: int, b: int)
    requires a >= 1 && b >= 2
    ensures a * b >= 2 * a
  {
    Distribute(a, 2, b - 2);
    NotNegative(a, b - 2);
  }

  /** The limit is no square. */
  lemma {:induction false} SmallSquare(b: nat)
    requires b * b <= 0x8000_0000
    ensures b * b < 0x8000_0000
  {
    if b <= 46340 {
      Distribute(46340, b, 46340 - b);
      NotNegative(46340, 46340 - b);
      Distribute(b, b, 46340 - b);
      NotNegative(b, 46340 - b);
    } else {
      Distribute(b, 46341, b - 46341);
      NotNegative(b, b - 46341);
    }
  }

  /** 1 / base as C divides: zero unless base is 1 or -1. */
  function Inverse(base: int): int
    requires base != 0
  {
    if base == 1 then 1 else if base == -1 then -1 else 0
  }

  /** The base that is raised to |exponent|. */
  function BaseFor(base: int, exponent: int): int
    requires exponent < 0 ==> base != 0
  {
    if exponent < 0 then Inverse(base) else base
  }

  lemma {:induction false} Fits(v: int)
    requires -0x8000_0000 <= v < 0x8000_0000
    ensures ToInt32(v) == v
  {
    if v < 0 {
      var m := v + INT_WORD;
      assert v % INT_WORD == m;
    }
  }

  /** One turn of the loop keeps temp * base^exponent, in value and in size. */
  lemma {:induction false} SquareStep(temp: int, base: int, exponent: nat)
    requires exponent >= 2
    ensures exponent % 2 == 0 ==> temp * Power(base * base, exponent / 2) == temp * Power(base, exponent)
    ensures exponent % 2 == 1 ==> (base * temp) * Power(base * base, (exponent - 1) / 2) == temp * Power(base, exponent)
  {
    PowerSquare(base, exponent / 2);
    if exponent % 2 == 1 {
      assert Power(base, exponent) == base * Power(base, exponent - 1);
      Shuffle(temp, base, Power(base, exponent - 1));
    }
  }

  lemma {:induction false} UnitPowers(n: nat)
    ensures Power(1, n) == 1 && (Power(-1, n) == 1 || Power(-1, n) == -1) && (n > 0 ==> Power(0, n) == 0)
  {
    if n > 0 { UnitPowers(n - 1); }
  }

  /** A negative exponent gives zero exactly for the bases other than 1 and -1. */
  lemma {:induction false} NegativeExponent(base: int, exponent: int)
    requires exponent < 0 && base != 0
    ensures Power(BaseFor(base, exponent), Abs(exponent)) % INT_WORD == 0 <==> base != 1 && base != -1
  {
    hide Power;
    UnitPowers(Abs(exponent));
  }

  /** 1 to the power -3 is 1, and -1 to the power -3 is -1: neither is zero. */
  lemma {:induction false} NegativeExponentOne()
    ensures Power(BaseFor(1, -3), Abs(-3)) % INT_WORD == 1 && Power(BaseFor(-1, -3), Abs(-3)) % INT_WORD == INT_WORD - 1
  {
    assert Power(-1, 3) == -1;
  }

  /** The 32-bit product. */
  function Mul32(a: int, b: int): int {
    ToInt32(a * b)
  }

  /** What the loop keeps: the power still to be taken, in value and in size. */
  ghost predicate Kept(temp: int, base: int, exponent: int, goal: int) {
    && exponent >= 1 && temp * Power(base, exponent) == goal
    && Abs(temp) * Power(Abs(base), exponent) <= 0x8000_0000 && -0x8000_0000 <= goal < 0x8000_0000
    && (base != 0 ==> temp != 0) && (Abs(base) <= 1 ==> Abs(temp) <= 1)
  }

  lemma {:induction false} KeptEven(temp: int, base: int, exponent: int, goal: int)
    requires Kept(temp, base, exponent, goal) && exponent >= 2 && exponent % 2 == 0
    ensures Kept(temp, Mul32(base, base), exponent / 2, goal)
  {
    hide Power, ToInt32;
    NoOverflow(temp, base, exponent, goal);
    SquareStep(temp, base, exponent);
    SquareStep(Abs(temp), Abs(base), exponent);
    AbsProduct(base, base);
    UnitProduct(Abs(base), Abs(temp));
    UnitSquare(Abs(base));
  }

  lemma {:induction false} UnitSquare(b: nat)
    ensures b * b <= 1 ==> b <= 1
  {
    if b >= 2 { TwoAtLeast(b, b); }
  }

  lemma {:induction false} KeptOdd(temp: int, base: int, exponent: int, goal: int)
    requires Kept(temp, base, exponent, goal) && exponent >= 2 && exponent % 2 == 1
    ensures Kept(Mul32(base, temp), Mul32(base, base), (exponent - 1) / 2, goal)
  {
    hide Power, ToInt32, Abs;
    NoOverflow(temp, base, exponent, goal);
    SquareStep(temp, base, exponent);
    SquareStep(Abs(temp), Abs(base), exponent);
    AbsProduct(base, base);
    AbsProduct(base, temp);
    NotZero(base, temp);
    UnitProduct(Abs(base), Abs(temp));
  }

  lemma {:induction false} UnitProduct(b: nat, t: nat)
    requires b <= 1 ==> t <= 1
    ensures b * b <= 1 ==> b * t <= 1
  {
    if b >= 2 { AtLeast(b, b); TwoAtLeast(b, b); }
  }

  lemma {:induction false} NotZero(a: int, b: int)
    requires a != 0 ==> b != 0
    ensures a * a != 0 ==> a * b != 0
  {
  }

  /** The products the loop forms fit an int. */
  lemma {:induction false} NoOverflow(temp: int, base: int, exponent: int, goal: int)
    requires Kept(temp, base, exponent, goal) && exponent >= 2
    ensures Mul32(base, base) == base * base && Mul32(base, temp) == base * temp
  {
    hide Power, ToInt32;
    FactorsFit(Abs(temp), Abs(base), exponent);
    AbsProduct(base, base);
    AbsProduct(base, temp);
    Fits(base * base);
    Fits(base * temp);
  }

  lemma {:induction false} KeptStart(base: int, exponent: int)
    requires exponent >= 1 && -0x8000_0000 <= Power(base, exponent) < 0x8000_0000
    ensures Kept(1, base, exponent, Power(base, exponent))
  {
    hide Power;
    AbsPower(base, exponent);
  }

  lemma {:induction false} KeptEnd(temp: int, base: int, goal: int)
    requires Kept(temp, base, 1, goal)
    ensures Mul32(base, temp) == goal
  {
    hide Power, ToInt32;
    FirstPower(base);
    Commute(base, temp);
    Fits(base * temp);
  }

  /** pow: the power, as an unsigned 32-bit number, whenever it fits an int. For a negative exponent
      the base is inverted first, which leaves 1 and -1 and makes everything else zero. */
  method Pow(base0: int, exponent0: int) returns (r: int)
    requires exponent0 < 0 ==> base0 != 0
    requires -0x8000_0000 <= Power(BaseFor(base0, exponent0), Abs(exponent0)) < 0x8000_0000
    ensures r == Power(BaseFor(base0, exponent0), Abs(exponent0)) % INT_WORD
  {
    hide Power, Mul32, Kept, Inverse;
    var base, exponent := base0, exponent0;
    if exponent == 0 {
      ZerothPower(BaseFor(base0, 0));
      return 1;
    }
    if exponent < 0 {
      base := Inverse(base);
      exponent := -exponent;
    }
    ghost var goal := Power(base, exponent);
    var temp := 1;
    KeptStart(base, exponent);
    while exponent > 1
      invariant exponent >= 1 && Kept(temp, base, exponent, goal)
    {
      if exponent % 2 == 0 {
        KeptEven(temp, base, exponent, goal);
        base := Mul32(base, base);
        exponent := exponent / 2;
      } else {
        KeptOdd(temp, base, exponent, goal);
        temp := Mul32(base, temp);
        base := Mul32(base, base);
        exponent := (exponent - 1) / 2;
      }
    }
    KeptEnd(temp, base, goal);
    r := Mul32(base, temp) % INT_WORD;
  }

  lemma {:induction false} ZerothPower(base: int)
    ensures Power(base, 0) == 1
  {
  }

  lemma {:induction false} FirstPower(base: int)
    ensures Power(base, 1) == base
  {
    assert Power(base, 1) == base * Power(base, 0);
  }

  // ----------------------------------------------------------- next power of two

  /** A 64-bit value shifted left by one. */
  function Twice(v: int): int {
    (2 * v) % WORD
  }

  /** Two doubled k times, in 64 bits. */
  function Doubled(k: nat): int {
    if k == 0 then 2 else Twice(Doubled(k - 1))
  }

  /** The first of the doubled values, from the k-th on, that is at least num. */
  function NextFrom(num: int, k: nat): int
    decreases 62 - k
  {
    if Doubled(k) >= num || k >= 62 then Doubled(k) else NextFrom(num, k + 1)
  }

  /** The smallest power of two, from 2 on, that is at least num. */
  function NextPower(num: int): int {
    NextFrom(num, 0)
  }

  lemma {:induction false} DoubledIs(k: nat)
    ensures k <= 62 ==> Doubled(k) == Power(2, k + 1) && 2 <= Doubled(k) <= 0x8000_0000_0000_0000
    ensures k == 62 ==> Doubled(k) == 0x8000_0000_0000_0000
    ensures k >= 63 ==> Doubled(k) == 0
  {
    hide Power, Doubled;
    TwoTo62();
    PowerNext(62);
    if k <= 62 {
      PowerOfTwo(k);
    } else {
      PowerOfTwo(62);
      DoubledZero(k);
    }
  }

  lemma {:induction false} PowerOfTwo(k: nat)
    requires k <= 62
    ensures Doubled(k) == Power(2, k + 1) && 2 <= Doubled(k) <= 0x8000_0000_0000_0000
  {
    hide Power, Twice, Doubled;
    TwoTo62();
    TwoGrows(1, k + 1);
    TwoGrows(k + 1, 63);
    PowerNext(62);
    FirstPower(2);
    if k == 0 {
      FirstDoubled();
    } else {
      PowerOfTwo(k - 1);
      PowerNext(k);
      DoubledNext(k - 1);
      TwiceIs(Doubled(k - 1));
    }
  }

  lemma {:induction false} TwiceIs(v: int)
    requires 0 <= v && 2 * v < WORD
    ensures Twice(v) == 2 * v
  {
  }

  lemma {:induction false} TwoGrows(j: nat, k: nat)
    requires j <= k
    ensures 1 <= Power(2, j) <= Power(2, k)
    decreases k
  {
    PowerPositive(2, j);
    if j < k { TwoGrows(j, k - 1); }
  }

  lemma {:induction false} TwoTo62()
    ensures 2 * Power(2, 62) == 0x8000_0000_0000_0000
  {
    assert Power(2, 8) == 256;
    PowerSquare(2, 8);
    PowerSquare(2, 16);
    PowerSquare(4, 8);
    assert Power(2, 31) == 0x8000_0000 by { ThirtyOne(); }
    PowerSquare(2, 31);
    TwoSquares(31);
  }

  lemma {:induction false} ThirtyOne()
    ensures Power(2, 31) == 0x8000_0000
  {
    assert Power(2, 7) == 128;
    assert Power(2, 14) == 128 * Power(2, 7);
    assert Power(2, 21) == 128 * Power(2, 14);
    assert Power(2, 28) == 128 * Power(2, 21);
    assert Power(2, 31) == 8 * Power(2, 28);
  }

  lemma {:induction false} TwoSquares(e: nat)
    ensures Power(4, e) == Power(2, e) * Power(2, e)
  {
    if e > 0 { TwoSquares(e - 1); }
  }

  lemma {:induction false} DoubledZero(k: nat)
    requires k >= 63 && Doubled(62) == 0x8000_0000_0000_0000
    ensures Doubled(k) == 0
  {
    DoubledNext(k - 1);
    hide Doubled;
    if k > 63 { DoubledZero(k - 1); }
  }

  lemma {:induction false} DoubledNext(k: nat)
    ensures Doubled(k + 1) == Twice(Doubled(k))
    ensures Twice(0x8000_0000_0000_0000) == 0 && Twice(0) == 0
  {
  }

  /** While it does not wrap, each doubled value is twice the one before. */
  lemma {:induction false} DoubledGrows(k: nat)
    requires 1 <= k <= 62
    ensures Doubled(k) == 2 * Doubled(k - 1)
  {
    hide Doubled;
    DoubledIs(k);
    DoubledIs(k - 1);
    PowerNext(k);
  }

  lemma {:induction false} PowerNext(k: nat)
    ensures Power(2, k + 1) == 2 * Power(2, k)
  {
  }

  lemma {:induction false} DoubledOrder(j: nat, k: nat)
    requires j < k <= 62
    ensures 2 * Doubled(j) <= Doubled(k)
  {
    hide Doubled;
    DoubledGrows(k);
    DoubledIs(j);
    if j < k - 1 {
      DoubledOrder(j, k - 1);
      DoubledIs(k - 1);
    }
  }

  /** Some doubled value reaches num exactly when num is at most 2^63: the loop of next_pow_of_two ends
      for those and for no other, the shifts having reached zero. */
  lemma {:induction false} NextPowerEnds(num: int)
    ensures (exists k: nat :: Doubled(k) >= num) <==> num <= 0x8000_0000_0000_0000
  {
    hide Doubled;
    DoubledIs(62);
    if num > 0x8000_0000_0000_0000 {
      forall k: nat ensures Doubled(k) < num { DoubledIs(k); }
    }
  }

  /** Doubled(k) is at least num and no earlier doubled value is. */
  ghost predicate FirstAbove(num: int, k: nat) {
    k <= 62 && Doubled(k) >= num && forall j: nat :: j < k ==> Doubled(j) < num
  }

  /** The result is a power of two, large enough, and no smaller one is. */
  lemma {:induction false} NextPowerIs(num: int) returns (k: nat)
    requires num <= 0x8000_0000_0000_0000
    ensures FirstAbove(num, k) && NextPower(num) == Doubled(k)
  {
    hide FirstAbove, Doubled, NextFrom;
    k := NextFromIs(num, 0);
  }

  lemma {:induction false} NextFromIs(num: int, k: nat) returns (m: nat)
    requires num <= 0x8000_0000_0000_0000 && k <= 62 && forall j: nat :: j < k ==> Doubled(j) < num
    ensures FirstAbove(num, m) && NextFrom(num, k) == Doubled(m)
    decreases 62 - k
  {
    hide Doubled;
    DoubledIs(62);
    if Doubled(k) >= num || k == 62 { m := k; } else { m := NextFromIs(num, k + 1); }
  }

  /** The first doubled value that is large enough is the result. */
  lemma {:induction false} NextPowerFound(num: int, k: nat, j: nat)
    requires j <= k <= 62 && Doubled(k) >= num && (k > 0 ==> Doubled(k - 1) < num)
    ensures NextFrom(num, j) == Doubled(k)
    decreases k - j
  {
    hide Doubled;
    if j < k {
      DoubledIs(j);
      if j < k - 1 { DoubledOrder(j, k - 1); }
      NextPowerFound(num, k, j + 1);
    }
  }

  /** next_pow_of_two */
  method NextPowOfTwo(num: int) returns (result: int)
    requires 0 <= num <= 0x8000_0000_0000_0000
    ensures result == NextPower(num)
  {
    hide Doubled, NextFrom, Twice;
    result := 2;
    ghost var k: nat := 0;
    FirstDoubled();
    while result < num
      invariant k <= 62 && result == Doubled(k) && (k > 0 ==> Doubled(k - 1) < num)
      decreases 62 - k
    {
      DoubledIs(62);
      DoubledNext(k);
      result := Twice(result);
      k := k + 1;
    }
    NextPowerFound(num, k, 0);
  }

  lemma {:induction false} FirstDoubled()
    ensures Doubled(0) == 2
  {
  }
}
