/**
 How a virtual address selects a table entry at each level: nine bits a level above the
 twelve of the page offset, masked and shifted out as the kernel does it.
 */
module VirtualAddresses {
  import opened BitOps
  import opened PageTables

  /** (va & (0x1ff << s)) >> s */
  function IndexBits(va: nat, s: nat): nat {
    Shr(BitAnd(va, Shl(0x1ff, s)), s)
  }

  function Levels(la57: bool): nat {
    if la57 then 5 else 4
  }

  /** The indices of the page number, top level first. */
  function PathOfPage(page: int, levels: nat): (q: Path)
    ensures |q| == levels && PathOk(q)
    decreases levels
  {
    if levels == 0 then [] else PathOfPage(page / 512, levels - 1) + [page % 512]
  }

  function PathOf(la57: bool, va: int): (q: Path)
    ensures |q| == Levels(la57) && PathOk(q)
  {
    PathOfPage(va / 4096, Levels(la57))
  }

  lemma {:induction false} AndShifted(v: nat, m: nat, s: nat)
    ensures Shr(BitAnd(v, Shl(m, s)), s) == BitAnd(Shr(v, s), m)
  {
    if s > 0 {
      AndShifted(v / 2, m, s - 1);
      assert Shl(m, s) / 2 == Shl(m, s - 1);
      AndHalves(v, Shl(m, s));
    }
  }

  lemma {:induction false} AndHalves(a: nat, b: nat)
    ensures BitAnd(a, b) / 2 == BitAnd(a / 2, b / 2)
  {
    if a == 0 || b == 0 {
      AndZero(a / 2);
      AndZero(b / 2);
    }
  }

  lemma {:induction false} LowNine(v: nat)
    ensures Low(v, 9) == v % 512 && Shr(v, 9) == v / 512
  {
    hide Low, Shr, Shl, Pow2;
    PowNine();
    LowHigh(v, 9);
    LowBound(v, 9);
    ShlNine(Shr(v, 9));
    Group(Shr(v, 9), Low(v, 9));
  }

  /** A number by its low nine bits and the rest. */
  lemma {:induction false} Group(a: int, l: int)
    requires 0 <= l < 512
    ensures (512 * a + l) / 512 == a && (512 * a + l) % 512 == l
  {
  }

  lemma {:induction false} ShrTwelve(v: nat)
    ensures Shr(v, 12) == v / 4096
  {
    LowNine(v);
    ShrShr(v, 9, 3);
    var h := v / 512;
    assert Shr(h, 3) == Shr(h / 2, 2);
    assert Shr(h / 2, 2) == Shr(h / 2 / 2, 1);
    assert Shr(h / 2 / 2, 1) == Shr(h / 2 / 2 / 2, 0);
    hide Shr;
    assert h / 2 / 2 / 2 == h / 8;
  }

  /** The page number above k groups of nine bits. */
  function Above(page: int, k: nat): int
    decreases k
  {
    if k == 0 then page else Above(page / 512, k - 1)
  }

  lemma {:induction false} AboveBits(va: nat, k: nat)
    ensures Above(va / 4096, k) == Shr(va, 12 + 9 * k)
    ensures Above(va / 4096, k) >= 0
  {
    ShrTwelve(va);
    AboveShr(va / 4096, k);
    ShrShr(va, 12, 9 * k);
  }

  lemma {:induction false} AboveShr(page: nat, k: nat)
    ensures Above(page, k) == Shr(page, 9 * k)
  {
    if k > 0 {
      AboveShr(page / 512, k - 1);
      LowNine(page);
      ShrShr(page, 9, 9 * (k - 1));
    }
  }

  /** The masked and shifted bits are the index of their level. */
  lemma {:induction false} IndexBitsIs(va: nat, levels: nat, k: nat)
    requires k < levels
    ensures IndexBits(va, 12 + 9 * k) == PathOfPage(va / 4096, levels)[levels - 1 - k]
  {
    AndShifted(va, 0x1ff, 12 + 9 * k);
    AboveBits(va, k);
    var v := Shr(va, 12 + 9 * k);
    assert BitAnd(v, 511) == Low(v, 9) by {
      PowNine();
      AndMask(v, 9);
    }
    LowNine(v);
    PathEntry(va / 4096, levels, k);
  }

  lemma {:induction false} PathEntry(page: int, levels: nat, k: nat)
    requires k < levels
    ensures PathOfPage(page, levels)[levels - 1 - k] == Above(page, k) % 512
    decreases k
  {
    if k > 0 { PathEntry(page / 512, levels - 1, k - 1); }
  }

  /** 512 to the number of levels. */
  function Pages(levels: nat): (n: nat)
    ensures n >= 1
  {
    if levels == 0 then 1 else 512 * Pages(levels - 1)
  }

  /** Two page numbers in range take the same path only if they are equal. */
  lemma {:induction false} PathsDiffer(a: int, b: int, levels: nat)
    requires 0 <= a < Pages(levels) && 0 <= b < Pages(levels)
    requires PathOfPage(a, levels) == PathOfPage(b, levels)
    ensures a == b
  {
    if levels > 0 {
      var p, q := PathOfPage(a, levels), PathOfPage(b, levels);
      assert p[..levels - 1] == PathOfPage(a / 512, levels - 1);
      assert q[..levels - 1] == PathOfPage(b / 512, levels - 1);
      assert p[levels - 1] == q[levels - 1];
      PathsDiffer(a / 512, b / 512, levels - 1);
    }
  }

  lemma {:induction false} TopIndex(page: int, levels: nat)
    requires levels >= 1 && 0 <= page < Pages(levels)
    ensures PathOfPage(page, levels)[0] == Above(page, levels - 1)
  {
    PathEntry(page, levels, levels - 1);
    AboveRange(page, levels - 1);
  }

  lemma {:induction false} AboveRange(page: int, k: nat)
    requires 0 <= page < Pages(k + 1)
    ensures 0 <= Above(page, k) < 512
  {
    if k > 0 { AboveRange(page / 512, k - 1); }
  }
}
