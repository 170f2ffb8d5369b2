/**
 The slab allocator as functions on the array of slabs: eleven size classes, each half a page
 of objects of one power of two, handed out and taken back through an array of pointers.
 */
module Slabs {
  import opened Addresses
  import opened Arithmetic
  import opened Powers

  const SLAB_COUNT: int := 11
  const MAX_SLAB_SIZE: int := 2048
  const MAX_OBJECTS_PER_SLAB: int := 1024
  const NULL: int := 0

  /** One size class. Entries of objects that are not NULL are free objects. */
  datatype Slab = Slab(size: int, isFull: bool, start: int, end: int, objects: seq<int>)

  /** 2 to the power i + 1. */
  function SizeOf(i: int): (s: int)
    requires 0 <= i < SLAB_COUNT
    ensures 2 <= s <= MAX_SLAB_SIZE && MAX_SLAB_SIZE % s == 0
    ensures s == Power(2, i + 1)
  {
    SizePower(i);
    if i == 0 then 2 else if i == 1 then 4 else if i == 2 then 8 else if i == 3 then 16
    else if i == 4 then 32 else if i == 5 then 64 else if i == 6 then 128 else if i == 7 then 256
    else if i == 8 then 512 else if i == 9 then 1024 else 2048
  }

  lemma {:induction false} SizePower(i: int)
    requires 0 <= i < SLAB_COUNT
    ensures Power(2, 1) == 2 && Power(2, 2) == 4 && Power(2, 3) == 8 && Power(2, 4) == 16
    ensures Power(2, 5) == 32 && Power(2, 6) == 64 && Power(2, 7) == 128 && Power(2, 8) == 256
    ensures Power(2, 9) == 512 && Power(2, 10) == 1024 && Power(2, 11) == 2048
  {
    assert Power(2, 3) == 8;
    assert Power(2, 6) == 8 * Power(2, 3);
    assert Power(2, 9) == 8 * Power(2, 6);
  }

  function ObjectsIn(i: int): (n: int)
    requires 0 <= i < SLAB_COUNT
    ensures 1 <= n <= MAX_OBJECTS_PER_SLAB && n * SizeOf(i) == MAX_SLAB_SIZE
  {
    MAX_SLAB_SIZE / SizeOf(i)
  }

  // ------------------------------------------------------------------ operations

  /** The first free object among the first n entries, or -1. */
  function FirstFree(o: seq<int>, n: nat): (f: int)
    requires n <= |o|
    ensures -1 <= f < n
    ensures f >= 0 ==> o[f] != NULL && forall k :: 0 <= k < f ==> o[k] == NULL
    ensures f < 0 ==> forall k :: 0 <= k < n ==> o[k] == NULL
  {
    if n == 0 then -1
    else
      var f := FirstFree(o, n - 1);
      if f >= 0 then f else if o[n - 1] != NULL then n - 1 else -1
  }

  /** The first entry handed out among the first n, or -1. */
  function FirstNull(o: seq<int>, n: nat): (f: int)
    requires n <= |o|
    ensures -1 <= f < n
    ensures f >= 0 ==> o[f] == NULL && forall k :: 0 <= k < f ==> o[k] != NULL
    ensures f < 0 ==> forall k :: 0 <= k < n ==> o[k] != NULL
  {
    if n == 0 then -1
    else
      var f := FirstNull(o, n - 1);
      if f >= 0 then f else if o[n - 1] == NULL then n - 1 else -1
  }

  /** Handing out one object of a slab of n: the slab afterwards and the object, or NULL. */
  function Hand(s: Slab, n: nat): (Slab, int)
    requires n <= |s.objects|
  {
    if s.isFull then (s, NULL)
    else
      var f := FirstFree(s.objects, n);
      if f < 0 then (s.(isFull := true), NULL)
      else (s.(objects := s.objects[f := NULL]), s.objects[f])
  }

  /** The test slab_free puts a pointer through. */
  predicate Accepts(s: Slab, p: int)
    requires s.size > 0
  {
    s.start <= p <= s.end && (p - s.start + s.size) % s.size == 0
  }

  /** Putting an accepted pointer into the first entry that is NULL. */
  function TakeBack(s: Slab, n: nat, p: int): Slab
    requires n <= |s.objects|
  {
    var f := FirstNull(s.objects, n);
    if f < 0 then s else s.(objects := s.objects[f := p])
  }

  /** The shape every operation keeps. */
  predicate Shaped(ss: seq<Slab>) {
    |ss| == SLAB_COUNT
    && forall i :: 0 <= i < |ss| ==> ss[i].size == SizeOf(i) && |ss[i].objects| == MAX_OBJECTS_PER_SLAB
  }

  /** slab_alloc */
  function Alloc(ss: seq<Slab>, size: int): (seq<Slab>, int)
    requires Shaped(ss)
  {
    var i := IndexOf(size, SLAB_COUNT);
    if i < 0 then (ss, NULL) else (ss[i := Hand(ss[i], ObjectsIn(i)).0], Hand(ss[i], ObjectsIn(i)).1)
  }

  /** The class of a size among the first n, or -1. */
  function IndexOf(size: int, n: nat): (i: int)
    requires n <= SLAB_COUNT
    ensures -1 <= i < n
    ensures i >= 0 ==> SizeOf(i) == size
    ensures i < 0 ==> forall k :: 0 <= k < n ==> SizeOf(k) != size
  {
    if n == 0 then -1
    else
      var i := IndexOf(size, n - 1);
      if i >= 0 then i else if SizeOf(n - 1) == size then n - 1 else -1
  }

  /** slab_free, from slab i on: every slab that accepts the pointer takes it, until one has no entry
      to put it in. */
  function FreeFrom(ss: seq<Slab>, p: int, i: nat): seq<Slab>
    requires Shaped(ss) && i <= SLAB_COUNT
    decreases SLAB_COUNT - i
  {
    if i == SLAB_COUNT then ss
    else if !Accepts(ss[i], p) then FreeFrom(ss, p, i + 1)
    else if FirstNull(ss[i].objects, ObjectsIn(i)) < 0 then ss
    else FreeFrom(ss[i := TakeBack(ss[i], ObjectsIn(i), p)], p, i + 1)
  }

  function Free(ss: seq<Slab>, p: int): seq<Slab>
    requires Shaped(ss)
  {
    if p == NULL then ss else FreeFrom(ss, p, 0)
  }

  // ---------------------------------------------------------------------- layout

  /** The six pages slab_init takes: whole, not null, apart from each other. */
  predicate PagesOk(pages: seq<int>) {
    |pages| == 6
    && (forall k :: 0 <= k < 6 ==> pages[k] > 0 && pages[k] % PAGE_SIZE == 0)
    && (forall k, l :: 0 <= k < l < 6 ==> pages[k] != pages[l])
  }

  /** Two slabs share a page, half each. */
  function Base(pages: seq<int>, i: int): int
    requires |pages| == 6 && 0 <= i < SLAB_COUNT
  {
    pages[i / 2] + MAX_SLAB_SIZE * (i % 2)
  }

  /** Object j of slab i. */
  function Object(base: int, size: int, j: int): int {
    base + size * j
  }

  predicate Ranged(s: Slab, base: int) {
    s.start == base && s.end == base + 1024 - s.size
  }

  predicate InPlace(ss: seq<Slab>, pages: seq<int>) {
    Shaped(ss) && PagesOk(pages) && forall i :: 0 <= i < SLAB_COUNT ==> Ranged(ss[i], Base(pages, i))
  }

  /** The slabs after slab_init: every object of every slab is free. */
  predicate Fresh(ss: seq<Slab>, pages: seq<int>) {
    InPlace(ss, pages)
    && forall i :: 0 <= i < SLAB_COUNT ==> !ss[i].isFull && FreshObjects(ss[i].objects, Base(pages, i), i)
  }

  predicate FreshObjects(o: seq<int>, base: int, i: int)
    requires 0 <= i < SLAB_COUNT
  {
    |o| >= ObjectsIn(i) && forall j {:trigger o[j]} :: 0 <= j < ObjectsIn(i) ==> o[j] == Object(base, SizeOf(i), j)
  }

  /** Pages apart are a page apart. */
  lemma {:induction false} BasesApart(pages: seq<int>, i: int, k: int)
    requires PagesOk(pages) && 0 <= i < SLAB_COUNT && 0 <= k < SLAB_COUNT && i != k
    ensures Base(pages, i) + MAX_SLAB_SIZE <= Base(pages, k) || Base(pages, k) + MAX_SLAB_SIZE <= Base(pages, i)
  {
    if i / 2 != k / 2 {
      var a, b := pages[i / 2], pages[k / 2];
      WholeApart(a, b);
    } else {
      assert i % 2 != k % 2;
    }
  }

  lemma {:induction false} WholeApart(a: int, b: int)
    requires a % PAGE_SIZE == 0 && b % PAGE_SIZE == 0 && a != b
    ensures a + PAGE_SIZE <= b || b + PAGE_SIZE <= a
  {
    assert a == PAGE_SIZE * (a / PAGE_SIZE) && b == PAGE_SIZE * (b / PAGE_SIZE);
  }

  lemma {:induction false} BaseWhole(pages: seq<int>, i: int)
    requires PagesOk(pages) && 0 <= i < SLAB_COUNT
    ensures Base(pages, i) > 0 && Base(pages, i) % MAX_SLAB_SIZE == 0
    ensures Base(pages, i) % PAGE_SIZE == MAX_SLAB_SIZE * (i % 2)
  {
    var q := pages[i / 2] / PAGE_SIZE;
    assert pages[i / 2] == PAGE_SIZE * q;
    assert Base(pages, i) == MAX_SLAB_SIZE * (2 * q + i % 2);
    HalfPages(q, i % 2);
  }

  lemma {:induction false} HalfPages(q: int, r: int)
    requires r == 0 || r == 1
    ensures (MAX_SLAB_SIZE * (2 * q + r)) % MAX_SLAB_SIZE == 0
    ensures (PAGE_SIZE * q + MAX_SLAB_SIZE * r) % PAGE_SIZE == MAX_SLAB_SIZE * r
  {
  }

  /** Object j lies in its slab's half page, a whole number of sizes from the start. */
  lemma {:induction false} ObjectInside(base: int, i: int, j: int)
    requires 0 <= i < SLAB_COUNT && 0 <= j < ObjectsIn(i)
    ensures base <= Object(base, SizeOf(i), j) && Object(base, SizeOf(i), j) + SizeOf(i) <= base + MAX_SLAB_SIZE
  {
    Spread(SizeOf(i), j, ObjectsIn(i));
  }

  lemma {:induction false} Spread(size: int, j: int, n: int)
    requires size > 0 && 0 <= j < n
    ensures 0 <= size * j && size * j + size <= n * size
  {
    Distribute(size, j, n - j);
    AtLeast(size, n - j);
  }

  lemma {:induction false} ObjectsApart(base: int, size: int, j: int, l: int)
    requires size > 0 && j < l
    ensures Object(base, size, j) + size <= Object(base, size, l)
  {
    Distribute(size, j, l - j);
    AtLeast(size, l - j);
  }

  lemma {:induction false} Multiples(base: int, size: int, j: int, whole: int)
    requires size > 0 && whole > 0 && whole % size == 0 && base % whole == 0
    ensures (base + size * j) % size == 0
  {
    var a, b := base / whole, whole / size;
    assert base == whole * a && whole == size * b;
    assert base + size * j == size * (b * a + j) by { Collect(size, b, a, j); }
    ModZero(size, b * a + j);
  }

  lemma {:induction false} Collect(size: int, b: int, a: int, j: int)
    ensures (size * b) * a + size * j == size * (b * a + j)
  {
  }

  lemma {:induction false} ModZero(size: int, q: int)
    requires size > 0
    ensures (size * q) % size == 0
  {
    ModPlus(size, q, 0);
  }

  lemma {:induction false} ModPlus(size: int, q: int, r: int)
    requires 0 <= r < size
    ensures (size * q + r) % size == r
  {
    var v := size * q + r;
    assert v == size * (v / size) + v % size;
    Unique(size, q, r, v / size, v % size);
  }

  lemma {:induction false} Unique(size: int, q: int, r: int, q': int, r': int)
    requires 0 <= r < size && 0 <= r' < size && size * q + r == size * q' + r'
    ensures q == q' && r == r'
  {
    var d := q' - q;
    Distribute(size, q, d);
    assert size * d == r - r';
    if d >= 1 { AtLeast(size, d); }
    if d <= -1 {
      Negated(size, d);
      AtLeast(size, -d);
    }
  }

  /** All objects of all slabs are aligned to their size and no two of them overlap. */
  lemma {:induction false} LayoutApart(pages: seq<int>, i: int, j: int, k: int, l: int)
    requires PagesOk(pages) && 0 <= i < SLAB_COUNT && 0 <= j < ObjectsIn(i)
    requires 0 <= k < SLAB_COUNT && 0 <= l < ObjectsIn(k)
    ensures var a, b := Object(Base(pages, i), SizeOf(i), j), Object(Base(pages, k), SizeOf(k), l);
            a % SizeOf(i) == 0 && a > 0
            && (a + SizeOf(i) <= b || b + SizeOf(k) <= a || (i == k && j == l))
  {
    assert |pages| == 6;
    hide SizeOf, Base, ObjectsIn, Object, PagesOk;
    BaseWhole(pages, i);
    ObjectAligned(Base(pages, i), i, j);
    ObjectInside(Base(pages, i), i, j);
    ObjectInside(Base(pages, k), k, l);
    if i != k {
      BasesApart(pages, i, k);
    } else if j < l {
      ObjectsApart(Base(pages, i), SizeOf(i), j, l);
    } else if l < j {
      ObjectsApart(Base(pages, i), SizeOf(i), l, j);
    }
  }

  lemma {:induction false} ObjectAligned(base: int, i: int, j: int)
    requires 0 <= i < SLAB_COUNT && base % MAX_SLAB_SIZE == 0
    ensures Object(base, SizeOf(i), j) % SizeOf(i) == 0
  {
    hide SizeOf;
    Multiples(base, SizeOf(i), j, MAX_SLAB_SIZE);
  }

  // ------------------------------------------------------------------ run invariant

  /** p is one of the 2048 / size addresses of slab i. */
  ghost predicate Member(base: int, i: int, p: int)
    requires 0 <= i < SLAB_COUNT
  {
    exists j :: 0 <= j < ObjectsIn(i) && p == Object(base, SizeOf(i), j)
  }

  function NullCount(o: seq<int>, n: nat): nat
    requires n <= |o|
  {
    if n == 0 then 0 else NullCount(o, n - 1) + (if o[n - 1] == NULL then 1 else 0)
  }

  /** The entries that are not NULL are distinct members of the slab, none of them handed out; the
      objects handed out are members, one for each NULL entry. */
  ghost predicate SlabOk(s: Slab, base: int, i: int, out: set<int>)
    requires 0 <= i < SLAB_COUNT
  {
    var n := ObjectsIn(i);
    && n <= |s.objects|
    && (forall j :: 0 <= j < n && s.objects[j] != NULL ==> Member(base, i, s.objects[j]) && s.objects[j] !in out)
    && (forall j, l :: 0 <= j < l < n && s.objects[j] != NULL ==> s.objects[j] != s.objects[l])
    && (forall p :: p in out ==> Member(base, i, p))
    && |out| == NullCount(s.objects, n)
  }

  lemma {:induction false} NullUpdate(o: seq<int>, n: nat, f: nat, p: int)
    requires f < n <= |o|
    ensures NullCount(o[f := p], n) == NullCount(o, n) - (if o[f] == NULL then 1 else 0) + (if p == NULL then 1 else 0)
  {
    if f == n - 1 {
      NullSame(o, o[f := p], n - 1);
    } else {
      NullUpdate(o, n - 1, f, p);
    }
  }

  lemma {:induction false} NullSame(o: seq<int>, o': seq<int>, n: nat)
    requires n <= |o| && n <= |o'| && forall k :: 0 <= k < n ==> o[k] == o'[k]
    ensures NullCount(o, n) == NullCount(o', n)
  {
    if n > 0 { NullSame(o, o', n - 1); }
  }

  lemma {:induction false} NoNull(o: seq<int>, n: nat)
    requires n <= |o|
    ensures (forall k :: 0 <= k < n ==> o[k] != NULL) <==> NullCount(o, n) == 0
  {
    if n > 0 {
      NoNull(o, n - 1);
      if NullCount(o, n) == 0 {
        assert o[n - 1] != NULL;
      }
    }
  }

  /** Handing out: an object that was not out goes out, or, when the slab was found empty once or is
      empty now, nothing does. */
  lemma {:induction false} HandOk(s: Slab, base: int, i: int, out: set<int>)
    requires 0 <= i < SLAB_COUNT && SlabOk(s, base, i, out) && base > 0
    ensures var (s', p) := Hand(s, ObjectsIn(i));
            if p == NULL then SlabOk(s', base, i, out) && s'.objects == s.objects && s'.isFull
            else p !in out && Member(base, i, p) && SlabOk(s', base, i, out + {p}) && s'.isFull == s.isFull
    ensures Hand(s, ObjectsIn(i)).1 == NULL <==> s.isFull || |out| == ObjectsIn(i)
  {
    hide Member, SizeOf;
    var n := ObjectsIn(i);
    var f := FirstFree(s.objects, n);
    AllNull(s.objects, n);
    if !s.isFull && f >= 0 {
      NullUpdate(s.objects, n, f, NULL);
    }
  }

  lemma {:induction false} AllNull(o: seq<int>, n: nat)
    requires n <= |o|
    ensures FirstFree(o, n) < 0 <==> NullCount(o, n) == n
    ensures NullCount(o, n) <= n
  {
    if n > 0 { AllNull(o, n - 1); }
  }

  /** Taking back an object that is out. */
  lemma {:induction false} TakeBackOk(s: Slab, base: int, i: int, out: set<int>, p: int)
    requires 0 <= i < SLAB_COUNT && SlabOk(s, base, i, out) && p in out && p != NULL
    ensures FirstNull(s.objects, ObjectsIn(i)) >= 0
    ensures SlabOk(TakeBack(s, ObjectsIn(i), p), base, i, out - {p})
  {
    hide Member, SizeOf;
    var n, f := ObjectsIn(i), FirstNull(s.objects, ObjectsIn(i));
    assert |out| > 0;
    NoNull(s.objects, n);
    NullUpdate(s.objects, n, f, p);
    assert |out - {p}| == |out| - 1;
  }

  ghost predicate Entered(o: seq<int>, n: nat, p: int)
    requires n <= |o|
  {
    exists j :: 0 <= j < n && o[j] == p
  }

  /** p is in two entries, so it will be handed out twice. */
  ghost predicate Twofold(o: seq<int>, n: nat, p: int)
    requires n <= |o|
  {
    exists j, l :: 0 <= j < l < n && o[j] == o[l] == p
  }

  /** slab_free does not look whether an object is free already: putting it back where an entry is
      NULL makes it appear twice exactly when it was there before. */
  lemma {:induction false} TwiceFreed(s: Slab, n: nat, p: int)
    requires n <= |s.objects| && p != NULL && FirstNull(s.objects, n) >= 0 && !Twofold(s.objects, n, p)
    ensures |TakeBack(s, n, p).objects| == |s.objects|
    ensures Twofold(TakeBack(s, n, p).objects, n, p) <==> Entered(s.objects, n, p)
  {
    var f := FirstNull(s.objects, n);
    var o, o' := s.objects, TakeBack(s, n, p).objects;
    if Entered(o, n, p) {
      var j :| 0 <= j < n && o[j] == p;
      assert o'[j] == p && o'[f] == p && j != f;
    }
    if Twofold(o', n, p) {
      var j, l :| 0 <= j < l < n && o'[j] == o'[l] == p;
      assert o[if j == f then l else j] == p;
    }
  }

  // ------------------------------------------------- operations on all the slabs

  /** Objects out, class by class. */
  ghost predicate SlabsOk(ss: seq<Slab>, pages: seq<int>, outs: seq<set<int>>) {
    InPlace(ss, pages) && |outs| == SLAB_COUNT
    && forall i :: 0 <= i < SLAB_COUNT ==> SlabOk(ss[i], Base(pages, i), i, outs[i])
  }

  lemma {:induction false} FreshOk(ss: seq<Slab>, pages: seq<int>)
    requires Fresh(ss, pages)
    ensures SlabsOk(ss, pages, seq(SLAB_COUNT, k => {}))
  {
    hide SizeOf, Base, FreshObjects, Member;
    forall i | 0 <= i < SLAB_COUNT ensures SlabOk(ss[i], Base(pages, i), i, {}) {
      BaseWhole(pages, i);
      FreshSlab(ss[i], Base(pages, i), i);
    }
  }

  lemma {:induction false} FreshSlab(s: Slab, base: int, i: int)
    requires 0 <= i < SLAB_COUNT && base > 0 && |s.objects| == MAX_OBJECTS_PER_SLAB && FreshObjects(s.objects, base, i)
    ensures SlabOk(s, base, i, {})
  {
    hide SizeOf, Object;
    var n, o := ObjectsIn(i), s.objects;
    forall j | 0 <= j < n ensures o[j] >= base && Member(base, i, o[j]) {
      ObjectInside(base, i, j);
      assert o[j] == Object(base, SizeOf(i), j);
    }
    forall j, l | 0 <= j < l < n ensures o[j] != o[l] {
      ObjectsApart(base, SizeOf(i), j, l);
      assert o[j] == Object(base, SizeOf(i), j) && o[l] == Object(base, SizeOf(i), l);
    }
    NoNull(o, n);
  }

  lemma {:induction false} MemberInside(base: int, i: int, p: int)
    requires 0 <= i < SLAB_COUNT && Member(base, i, p)
    ensures base <= p && p + SizeOf(i) <= base + MAX_SLAB_SIZE
  {
    hide SizeOf, Object;
    var j :| 0 <= j < ObjectsIn(i) && p == Object(base, SizeOf(i), j);
    ObjectInside(base, i, j);
  }

  /** slab_free accepts a member exactly when it ends within the first 1024 bytes of its slab. */
  lemma {:induction false} AcceptsMember(s: Slab, base: int, i: int, p: int)
    requires 0 <= i < SLAB_COUNT && s.size == SizeOf(i) && Ranged(s, base) && Member(base, i, p)
    ensures Accepts(s, p) <==> p + SizeOf(i) <= base + 1024
  {
    hide SizeOf;
    var j :| 0 <= j < ObjectsIn(i) && p == Object(base, SizeOf(i), j);
    ObjectInside(base, i, j);
    Distribute(SizeOf(i), j, 1);
    ModZero(SizeOf(i), j + 1);
  }

  /** What is accepted by a slab is a member of it. */
  lemma {:induction false} AcceptedMember(s: Slab, base: int, i: int, p: int)
    requires 0 <= i < SLAB_COUNT && s.size == SizeOf(i) && Ranged(s, base) && Accepts(s, p)
    ensures Member(base, i, p)
  {
    hide SizeOf;
    var size := SizeOf(i);
    var q := (p - base + size) / size;
    assert p - base + size == size * q;
    Distribute(size, q - 1, 1);
    assert p == Object(base, size, q - 1);
    Quotient(size, q - 1, ObjectsIn(i));
  }

  lemma {:induction false} Quotient(size: int, j: int, n: int)
    requires size > 0 && 0 <= size * j && size * j + size <= 1024 && n * size == 2048
    ensures 0 <= j < n
  {
    if j < 0 {
      Negated(size, j);
      AtLeast(size, -j);
    }
    if j >= n {
      Distribute(size, n, j - n);
      NotNegative(size, j - n);
    }
  }

  /** A pointer into slab i is accepted by no other slab. */
  lemma {:induction false} OthersRefuse(ss: seq<Slab>, pages: seq<int>, i: int, k: int, p: int)
    requires InPlace(ss, pages) && 0 <= i < SLAB_COUNT && 0 <= k < SLAB_COUNT && k != i && Member(Base(pages, i), i, p)
    ensures !Accepts(ss[k], p) && !Member(Base(pages, k), k, p)
  {
    assert |pages| == 6;
    hide SizeOf, Base, Member, PagesOk, Accepts;
    assert Ranged(ss[k], Base(pages, k));
    BasesApart(pages, i, k);
    MemberInside(Base(pages, i), i, p);
    if Member(Base(pages, k), k, p) { MemberInside(Base(pages, k), k, p); }
    if Accepts(ss[k], p) { AcceptedMember(ss[k], Base(pages, k), k, p); }
  }

  /** Whether slab i will take p and what it becomes. */
  function OneTaken(ss: seq<Slab>, p: int, i: int): seq<Slab>
    requires Shaped(ss) && 0 <= i < SLAB_COUNT
  {
    if Accepts(ss[i], p) && FirstNull(ss[i].objects, ObjectsIn(i)) >= 0 then ss[i := TakeBack(ss[i], ObjectsIn(i), p)]
    else ss
  }

  lemma {:induction false} FreeOnly(ss: seq<Slab>, p: int, i: int, k: nat)
    requires Shaped(ss) && 0 <= i < SLAB_COUNT && k <= SLAB_COUNT
    requires forall m :: k <= m < SLAB_COUNT && m != i ==> !Accepts(ss[m], p)
    ensures FreeFrom(ss, p, k) == if k <= i then OneTaken(ss, p, i) else ss
    decreases SLAB_COUNT - k
  {
    hide SizeOf, Accepts, TakeBack;
    if k < SLAB_COUNT {
      if k == i && Accepts(ss[i], p) && FirstNull(ss[i].objects, ObjectsIn(i)) >= 0 {
        TakenShape(ss[i], ObjectsIn(i), p);
        FreeOnly(ss[i := TakeBack(ss[i], ObjectsIn(i), p)], p, i, k + 1);
      } else {
        FreeOnly(ss, p, i, k + 1);
      }
    }
  }

  lemma {:induction false} TakenShape(s: Slab, n: nat, p: int)
    requires n <= |s.objects|
    ensures var s' := TakeBack(s, n, p);
            s'.size == s.size && s'.start == s.start && s'.end == s.end && s'.isFull == s.isFull
            && |s'.objects| == |s.objects|
  {
  }

  lemma {:induction false} HandShape(s: Slab, n: nat)
    requires n <= |s.objects|
    ensures var s' := Hand(s, n).0;
            s'.size == s.size && s'.start == s.start && s'.end == s.end && |s'.objects| == |s.objects|
            && (s.isFull ==> s' == s)
  {
  }

  lemma {:induction false} StillInPlace(ss: seq<Slab>, pages: seq<int>, i: int, s: Slab)
    requires InPlace(ss, pages) && 0 <= i < SLAB_COUNT
    requires s.size == ss[i].size && s.start == ss[i].start && s.end == ss[i].end && |s.objects| == |ss[i].objects|
    ensures InPlace(ss[i := s], pages)
  {
    assert |pages| == 6;
    hide SizeOf, Base, PagesOk;
    assert Ranged(ss[i], Base(pages, i));
    forall k | 0 <= k < SLAB_COUNT ensures Ranged(ss[i := s][k], Base(pages, k)) {
      assert Ranged(ss[k], Base(pages, k));
    }
  }

  lemma {:induction false} ReplaceSlab(ss: seq<Slab>, pages: seq<int>, outs: seq<set<int>>, i: int, s: Slab,
                                       out: set<int>)
    requires SlabsOk(ss, pages, outs) && 0 <= i < SLAB_COUNT && InPlace(ss[i := s], pages)
         && SlabOk(s, Base(pages, i), i, out)
    ensures SlabsOk(ss[i := s], pages, outs[i := out])
  {
    assert |pages| == 6;
    hide SlabOk, Base, SizeOf, Ranged, PagesOk;
    forall k | 0 <= k < SLAB_COUNT ensures SlabOk(ss[i := s][k], Base(pages, k), k, outs[i := out][k]) {
      assert SlabOk(ss[k], Base(pages, k), k, outs[k]);
    }
  }

  /** p is out in no class. */
  ghost predicate NowhereOut(outs: seq<set<int>>, p: int) {
    forall k :: 0 <= k < |outs| ==> p !in outs[k]
  }

  /** What is out after handing out: one object more, if there was one. */
  ghost function OutAfter(ss: seq<Slab>, outs: seq<set<int>>, size: int): seq<set<int>>
    requires Shaped(ss) && |outs| == SLAB_COUNT
  {
    var i, p := IndexOf(size, SLAB_COUNT), Alloc(ss, size).1;
    if i < 0 || p == NULL then outs else outs[i := outs[i] + {p}]
  }

  /** slab_alloc keeps the invariant and never hands out an object that is out already. It fails
      exactly when the size is not one of the eleven, or the class was found empty once, or is empty. */
  lemma {:induction false} AllocKeeps(ss: seq<Slab>, pages: seq<int>, outs: seq<set<int>>, size: int)
    requires SlabsOk(ss, pages, outs)
    ensures var (ss', p) := Alloc(ss, size);
            var i := IndexOf(size, SLAB_COUNT);
            SlabsOk(ss', pages, OutAfter(ss, outs, size))
            && (p != NULL ==> i >= 0 && NowhereOut(outs, p) && Member(Base(pages, i), i, p))
            && (p == NULL <==> i < 0 || ss[i].isFull || |outs[i]| == ObjectsIn(i))
  {
    assert |pages| == 6;
    hide SizeOf, Base, SlabOk, Member, Hand, Accepts, PagesOk;
    var i := IndexOf(size, SLAB_COUNT);
    if i >= 0 {
      var n := ObjectsIn(i);
      var (s', p) := Hand(ss[i], n);
      assert SlabOk(ss[i], Base(pages, i), i, outs[i]);
      BaseWhole(pages, i);
      HandOk(ss[i], Base(pages, i), i, outs[i]);
      HandShape(ss[i], n);
      StillInPlace(ss, pages, i, s');
      if p == NULL {
        ReplaceSlab(ss, pages, outs, i, s', outs[i]);
        assert outs[i := outs[i]] == outs;
      } else {
        ReplaceSlab(ss, pages, outs, i, s', outs[i] + {p});
        forall k | 0 <= k < |outs| ensures p !in outs[k] {
          if k != i {
            OthersRefuse(ss, pages, i, k, p);
            OutMember(ss[k], Base(pages, k), k, outs[k], p);
          }
        }
      }
    }
  }

  lemma {:induction false} OutMember(s: Slab, base: int, i: int, out: set<int>, p: int)
    requires 0 <= i < SLAB_COUNT && SlabOk(s, base, i, out)
    ensures p in out ==> Member(base, i, p)
  {
    hide Member;
  }

  lemma {:induction false} OutIsMember(ss: seq<Slab>, pages: seq<int>, outs: seq<set<int>>, i: int, p: int)
    requires SlabsOk(ss, pages, outs) && 0 <= i < SLAB_COUNT && p in outs[i]
    ensures |pages| == 6 && Member(Base(pages, i), i, p)
  {
    hide SlabOk, Member, Base, Ranged, SizeOf;
    assert SlabOk(ss[i], Base(pages, i), i, outs[i]);
    OutMember(ss[i], Base(pages, i), i, outs[i], p);
  }

  /** slab_free of an object that is out keeps the invariant. It takes the object back exactly when the
      object ends within the first 1024 bytes of its slab, and otherwise does nothing. */
  lemma {:induction false} FreeKeeps(ss: seq<Slab>, pages: seq<int>, outs: seq<set<int>>, i: int, p: int)
    requires SlabsOk(ss, pages, outs) && 0 <= i < SLAB_COUNT && p in outs[i]
    ensures if p + SizeOf(i) <= Base(pages, i) + 1024
            then FirstNull(ss[i].objects, ObjectsIn(i)) >= 0
                 && Free(ss, p) == ss[i := TakeBack(ss[i], ObjectsIn(i), p)]
                 && SlabsOk(Free(ss, p), pages, outs[i := outs[i] - {p}])
            else Free(ss, p) == ss
  {
    assert |pages| == 6;
    hide SizeOf, Base, SlabOk, Member, TakeBack, Accepts, PagesOk, FreeFrom;
    assert Ranged(ss[i], Base(pages, i)) && SlabOk(ss[i], Base(pages, i), i, outs[i]);
    OutMember(ss[i], Base(pages, i), i, outs[i], p);
    AcceptsMember(ss[i], Base(pages, i), i, p);
    BaseWhole(pages, i);
    MemberInside(Base(pages, i), i, p);
    forall m | 0 <= m < SLAB_COUNT && m != i ensures !Accepts(ss[m], p) { OthersRefuse(ss, pages, i, m, p); }
    FreeOnly(ss, p, i, 0);
    TakeBackOk(ss[i], Base(pages, i), i, outs[i], p);
    if Accepts(ss[i], p) {
      var s' := TakeBack(ss[i], ObjectsIn(i), p);
      TakenShape(ss[i], ObjectsIn(i), p);
      StillInPlace(ss, pages, i, s');
      ReplaceSlab(ss, pages, outs, i, s', outs[i] - {p});
    }
  }

  // ------------------------------------------------------------------------ runs

  /** A call of slab_alloc, or of slab_free with an object of class i. */
  datatype Call = Want(size: int) | Return(i: int, p: int)

  datatype Run = Run(ss: seq<Slab>, outs: seq<set<int>>)

  /** Only objects that are out may be given back. */
  ghost predicate Allowed(r: Run, pages: seq<int>, c: Call) {
    SlabsOk(r.ss, pages, r.outs) && (c.Return? ==> 0 <= c.i < SLAB_COUNT && c.p in r.outs[c.i])
  }

  ghost function Next(r: Run, pages: seq<int>, c: Call): Run
    requires Allowed(r, pages, c)
  {
    match c
    case Want(size) => Run(Alloc(r.ss, size).0, OutAfter(r.ss, r.outs, size))
    case Return(i, p) =>
      Run(Free(r.ss, p), if p + SizeOf(i) <= Base(pages, i) + 1024 then r.outs[i := r.outs[i] - {p}] else r.outs)
  }

  ghost predicate AllAllowed(r: Run, pages: seq<int>, cs: seq<Call>)
    decreases |cs|
  {
    cs == [] || (Allowed(r, pages, cs[0]) && AllAllowed(Next(r, pages, cs[0]), pages, cs[1..]))
  }

  ghost function After(r: Run, pages: seq<int>, cs: seq<Call>): Run
    requires AllAllowed(r, pages, cs)
    decreases |cs|
  {
    if cs == [] then r else After(Next(r, pages, cs[0]), pages, cs[1..])
  }

  ghost predicate IsFull(r: Run, i: int) {
    |r.ss| == SLAB_COUNT && 0 <= i < SLAB_COUNT && r.ss[i].isFull
  }

  lemma {:induction false} StepKeeps(r: Run, pages: seq<int>, c: Call, i: int)
    requires Allowed(r, pages, c)
    ensures SlabsOk(Next(r, pages, c).ss, pages, Next(r, pages, c).outs)
    ensures IsFull(r, i) ==> IsFull(Next(r, pages, c), i)
  {
    hide SizeOf, Base, SlabOk, Member, TakeBack, Accepts, PagesOk, Free, Hand, Ranged;
    match c {
      case Want(size) =>
        AllocKeeps(r.ss, pages, r.outs, size);
        var k := IndexOf(size, SLAB_COUNT);
        if k >= 0 { HandShape(r.ss[k], ObjectsIn(k)); }
      case Return(k, p) =>
        FreeKeeps(r.ss, pages, r.outs, k, p);
        TakenShape(r.ss[k], ObjectsIn(k), p);
    }
  }

  /** Over every run from slab_init on the entries that are not NULL stay distinct objects of their slab,
      none of them out, with one NULL entry for each object out; and a class that was found empty once
      stays closed, whatever is given back. */
  lemma {:induction false} RunKeeps(r: Run, pages: seq<int>, cs: seq<Call>, i: int)
    requires SlabsOk(r.ss, pages, r.outs) && AllAllowed(r, pages, cs)
    ensures SlabsOk(After(r, pages, cs).ss, pages, After(r, pages, cs).outs)
    ensures IsFull(r, i) ==> IsFull(After(r, pages, cs), i)
    decreases |cs|
  {
    hide SlabsOk, IsFull, Next, Allowed;
    if cs != [] {
      StepKeeps(r, pages, cs[0], i);
      RunKeeps(Next(r, pages, cs[0]), pages, cs[1..], i);
    }
  }

  /** A closed class serves nothing more. */
  lemma {:induction false} ClosedClass(r: Run, pages: seq<int>, cs: seq<Call>, i: int)
    requires SlabsOk(r.ss, pages, r.outs) && AllAllowed(r, pages, cs) && IsFull(r, i)
    ensures Shaped(After(r, pages, cs).ss) && Alloc(After(r, pages, cs).ss, SizeOf(i)) == (After(r, pages, cs).ss, NULL)
  {
    hide SlabOk, SizeOf, Base, PagesOk, Ranged, AllAllowed, After;
    RunKeeps(r, pages, cs, i);
    var ss := After(r, pages, cs).ss;
    SizesDiffer(i);
    assert ss[i := ss[i]] == ss;
  }

  lemma {:induction false} SizesDiffer(i: int)
    requires 0 <= i < SLAB_COUNT
    ensures IndexOf(SizeOf(i), SLAB_COUNT) == i
  {
    hide Power, IndexOf;
    var k := IndexOf(SizeOf(i), SLAB_COUNT);
  }
}
