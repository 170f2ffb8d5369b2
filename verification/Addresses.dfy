/**
 Address arithmetic of the kernel: 64-bit wrap-around, the higher-half mapping, alignment,
 and the conversion to a 32-bit int that the bitmap functions put their index through.
 */
module Addresses {

  const WORD: int := 0x1_0000_0000_0000_0000
  const HALF_LV5: int := 0xFF00_0000_0000_0000
  const HALF_LV4: int := 0xFFFF_8000_0000_0000
  const HALF_CODE: int := 0xFFFF_FFFF_8000_0000
  const PAGE_SIZE: int := 4096
  const INT_WORD: int := 0x1_0000_0000

  function HalfData(la57: bool): int {
    if la57 then HALF_LV5 else HALF_LV4
  }

  function PhysToHigherHalfData(la57: bool, a: int): int {
    (HalfData(la57) + a) % WORD
  }

  function HigherHalfDataToPhys(la57: bool, a: int): int {
    (a - HalfData(la57)) % WORD
  }

  function PhysToHigherHalfCode(a: int): int {
    (HALF_CODE + a) % WORD
  }

  /** Conversion of an unsigned 64-bit value to int. */
  function ToInt32(v: int): int {
    var m := v % INT_WORD;
    if m >= 0x8000_0000 then m - INT_WORD else m
  }

  /** addr & ~(align - 1) for a power of two. */
  function AlignDown(addr: int, align: int): int
    requires align > 0
  {
    addr - addr % align
  }

  function AlignUp(addr: int, align: int): int
    requires align > 0
  {
    AlignDown(addr + align - 1, align)
  }

  /** Where physical address 0x1000 appears in the three regions, and the int of the last 32-bit value. */
  lemma {:induction false} HigherHalves()
    ensures PhysToHigherHalfData(false, 0x1000) == 0xFFFF_8000_0000_1000
    ensures PhysToHigherHalfData(true, 0x1000) == 0xFF00_0000_0000_1000
    ensures PhysToHigherHalfCode(0x1000) == 0xFFFF_FFFF_8000_1000
    ensures ToInt32(0xFFFF_FFFF) == -1 && ToInt32(0x1_7FFF_FFFF) == 0x7FFF_FFFF
  {
  }

  /** The two conversions undo each other on every 64-bit address. */
  lemma {:induction false} HigherHalfInverse(la57: bool, a: int)
    requires 0 <= a < WORD
    ensures HigherHalfDataToPhys(la57, PhysToHigherHalfData(la57, a)) == a
    ensures PhysToHigherHalfData(la57, HigherHalfDataToPhys(la57, a)) == a
  {
    var h := HalfData(la57);
    WrapBack(h + a, h, a);
    WrapBack(a - h, -h, a);
  }

  lemma {:induction false} WrapBack(v: int, h: int, a: int)
    requires 0 <= a < WORD && v == h + a
    ensures (v % WORD - h) % WORD == a
  {
    var q := v / WORD;
    assert v % WORD - h == a - WORD * q;
    SmallWrap(a, -q);
  }

  lemma {:induction false} SmallWrap(a: int, q: int)
    requires 0 <= a < WORD
    ensures (a + WORD * q) % WORD == a
  {
  }

  lemma {:induction false} NoWrap(v: int)
    requires 0 <= v < WORD
    ensures v % WORD == v
  {
  }

  /** pmm_init hands pmm_free physical addresses. Subtracting the higher-half offset from one wraps,
      but by a multiple of 2^32 pages, so the int index still names the page. */
  lemma {:induction false} WrappedIndex(la57: bool, base: int)
    requires 0 <= base && base % PAGE_SIZE == 0 && base / PAGE_SIZE < 0x8000_0000
    ensures ToInt32(HigherHalfDataToPhys(la57, base) / PAGE_SIZE) == base / PAGE_SIZE
  {
    var page := base / PAGE_SIZE;
    if la57 {
      assert base - HALF_LV5 + WORD == base + 0x100_0000_0000_0000;
      SmallWrap(base + 0x100_0000_0000_0000, -1);
      assert (base + 0x100_0000_0000_0000) / PAGE_SIZE == page + INT_WORD * 0x1000;
      WrapInt(page, 0x1000);
    } else {
      assert base - HALF_LV4 + WORD == base + 0x8000_0000_0000;
      SmallWrap(base + 0x8000_0000_0000, -1);
      assert (base + 0x8000_0000_0000) / PAGE_SIZE == page + INT_WORD * 0x8;
      WrapInt(page, 0x8);
    }
  }

  lemma {:induction false} WrapInt(page: int, q: int)
    requires 0 <= page < 0x8000_0000
    ensures ToInt32(page + INT_WORD * q) == page
  {
  }

  /** Consecutive indices stay consecutive while they fit an int. */
  lemma {:induction false} NextIndex(v: int, i: int)
    requires 0 <= ToInt32(v) && 0 <= i && ToInt32(v) + i < 0x8000_0000
    ensures ToInt32(v + i) == ToInt32(v) + i
  {
    WrapInt(ToInt32(v) + i, v / INT_WORD);
  }
}
