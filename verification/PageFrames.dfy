/**
 Page frame allocation as a function of the bitmap: what one request does to the set of pages
 in use, and what holds after any run of requests.
 */
module PageFrames {

  const COUNTER: int := 0x1_0000_0000

  /** Which pages are in use, the usedPages counter (32 bits wide), and how many pages are searched. */
  datatype Frames = Frames(used: seq<bool>, counter: int, pages: nat)

  /** An unsigned 32-bit value. */
  function Wrap32(v: int): (w: int)
    ensures 0 <= w < COUNTER
  {
    v % COUNTER
  }

  /** The lowest page below n that is not in use, or -1. */
  function FirstClear(used: seq<bool>, n: nat): (f: int)
    requires n <= |used|
    ensures -1 <= f < n
    ensures f >= 0 ==> !used[f] && forall i :: 0 <= i < f ==> used[i]
    ensures f < 0 ==> forall i :: 0 <= i < n ==> used[i]
  {
    if n == 0 then -1
    else
      var f := FirstClear(used, n - 1);
      if f >= 0 then f else if used[n - 1] then -1 else n - 1
  }

  /** The bits from from on, count of them, all set to b. */
  function SetRange(used: seq<bool>, from: nat, count: nat, b: bool): (r: seq<bool>)
    requires from + count <= |used|
    ensures |r| == |used|
    ensures forall i :: 0 <= i < |used| ==> r[i] == if from <= i < from + count then b else used[i]
    decreases count
  {
    if count == 0 then used else SetRange(used, from, count - 1, b)[from + count - 1 := b]
  }

  predicate FramesOk(s: Frames) {
    s.pages <= |s.used| && 0 <= s.counter < COUNTER
  }

  /** The page a request is served from, or -1: the counter must not be zero, and neither a
      request for nothing nor page 0, whose address is the null pointer, is ever served. */
  function Served(s: Frames, n: nat): int
    requires FramesOk(s)
  {
    if s.counter == 0 || n == 0 || FirstClear(s.used, s.pages) <= 0 then -1 else FirstClear(s.used, s.pages)
  }

  /** pmm_alloc takes the n pages from the first clear one on, whatever their bits are. */
  function Taken(s: Frames, n: nat): Frames
    requires FramesOk(s) && (Served(s, n) >= 0 ==> Served(s, n) + n <= |s.used|)
  {
    var f := Served(s, n);
    if f < 0 then s
    else Frames(SetRange(s.used, f, n, true), Wrap32(s.counter + n), s.pages)
  }

  /** pmm_free clears the n pages from index on. */
  function Released(s: Frames, index: nat, n: nat): Frames
    requires index + n <= |s.used|
  {
    Frames(SetRange(s.used, index, n, false), Wrap32(s.counter - n), s.pages)
  }

  // -------------------------------------------------------------------- counting

  function ClearCount(used: seq<bool>): nat {
    if used == [] then 0 else ClearCount(used[..|used| - 1]) + (if used[|used| - 1] then 0 else 1)
  }

  /** The n bits from from on are all b. */
  predicate RangeIs(used: seq<bool>, from: nat, n: nat, b: bool)
    requires from + n <= |used|
  {
    forall i :: from <= i < from + n ==> used[i] == b
  }

  /** How many of the n pages from from on are not in use. */
  function ClearIn(used: seq<bool>, from: nat, n: nat): (c: nat)
    requires from + n <= |used|
    ensures c <= n
    ensures c == n <==> RangeIs(used, from, n, false)
    ensures c == 0 <==> RangeIs(used, from, n, true)
    decreases n
  {
    if n == 0 then 0 else ClearIn(used, from, n - 1) + (if used[from + n - 1] then 0 else 1)
  }

  lemma {:induction false} ClearCountUpdate(used: seq<bool>, i: nat, b: bool)
    requires i < |used|
    ensures ClearCount(used[i := b]) == ClearCount(used) + (if used[i] then 0 else -1) + (if b then 0 else 1)
  {
    var n := |used| - 1;
    if i == n {
      assert used[i := b][..n] == used[..n];
    } else {
      ClearCountUpdate(used[..n], i, b);
      assert used[i := b][..n] == used[..n][i := b];
    }
  }

  /** Setting a range takes away the clear pages in it; clearing one adds the used ones. */
  lemma {:induction false} ClearCountRange(used: seq<bool>, from: nat, n: nat, b: bool)
    requires from + n <= |used|
    ensures ClearCount(SetRange(used, from, n, b))
         == ClearCount(used) - ClearIn(used, from, n) + (if b then 0 else n)
    decreases n
  {
    hide ClearCount;
    if n > 0 {
      var before, last := SetRange(used, from, n - 1, b), from + n - 1;
      ClearCountRange(used, from, n - 1, b);
      assert before[last] == used[last] && SetRange(used, from, n, b) == before[last := b];
      assert ClearIn(used, from, n) == ClearIn(used, from, n - 1) + (if used[last] then 0 else 1);
      hide SetRange, ClearIn;
      ClearCountUpdate(before, last, b);
    }
  }

  /** The balance every run keeps: the counter plus the number of clear bits, modulo 2^32. */
  function Balance(s: Frames): int {
    Wrap32(s.counter + ClearCount(s.used))
  }

  /** A request keeps the balance exactly when every page it takes was free. */
  lemma {:induction false} TakenBalance(s: Frames, n: nat)
    requires FramesOk(s) && n < COUNTER && Served(s, n) >= 0 && Served(s, n) + n <= |s.used|
    ensures FramesOk(Taken(s, n))
    ensures Balance(Taken(s, n)) == Balance(s)
       <==> RangeIs(s.used, Served(s, n), n, false)
  {
    hide ClearCount, ClearIn, SetRange, FirstClear, Wrap32, RangeIs;
    var f: nat := Served(s, n);
    var used' := SetRange(s.used, f, n, true);
    var k, c, c' := ClearIn(s.used, f, n), ClearCount(s.used), ClearCount(used');
    assert c' == c - k by { ClearCountRange(s.used, f, n, true); }
    assert Taken(s, n) == Frames(used', Wrap32(s.counter + n), s.pages);
    hide Served, Taken;
    BalanceStep(s.counter, n, c, c', n - k);
  }

  /** Adding n to the counter and removing all but d of n pages moves the balance by d. */
  lemma {:induction false} BalanceStep(counter: int, n: int, c: int, c': int, d: int)
    requires 0 <= d < COUNTER && c' == c - n + d
    ensures Wrap32(Wrap32(counter + n) + c') == Wrap32(counter + c) <==> d == 0
  {
    ModShift(counter + n, c');
    ModEqual(counter + c, d);
    assert counter + n + c' == counter + c + d;
  }

  lemma {:induction false} ModShift(a: int, b: int)
    ensures (a % COUNTER + b) % COUNTER == (a + b) % COUNTER
  {
    var q := a / COUNTER;
    assert a % COUNTER + b == a + b - COUNTER * q;
    ModMultiple(a + b, -q);
  }

  lemma {:induction false} ModMultiple(v: int, q: int)
    ensures (v + COUNTER * q) % COUNTER == v % COUNTER
  {
  }

  lemma {:induction false} ModEqual(v: int, d: int)
    requires 0 <= d < COUNTER
    ensures (v + d) % COUNTER == v % COUNTER <==> d == 0
  {
  }

  /** Giving pages back keeps the balance exactly when every one of them was in use. */
  lemma {:induction false} ReleasedBalance(s: Frames, index: nat, n: nat)
    requires FramesOk(s) && n < COUNTER && index + n <= |s.used|
    ensures FramesOk(Released(s, index, n))
    ensures Balance(Released(s, index, n)) == Balance(s)
       <==> RangeIs(s.used, index, n, true)
  {
    hide ClearCount, ClearIn, SetRange, Wrap32, RangeIs;
    var used' := SetRange(s.used, index, n, false);
    var k, c, c' := ClearIn(s.used, index, n), ClearCount(s.used), ClearCount(used');
    assert c' == c - k + n by { ClearCountRange(s.used, index, n, false); }
    ReleasedShift(s.counter, n, c, c', k);
  }

  lemma {:induction false} ReleasedShift(counter: int, n: int, c: int, c': int, clear: int)
    requires 0 <= clear < COUNTER && c' == c + n - clear
    ensures Wrap32(Wrap32(counter - n) + c') == Wrap32(counter + c) <==> clear == 0
  {
    ModShift(counter - n, c');
    ModEqual(counter + c - clear, clear);
    assert counter - n + c' == counter + c - clear;
  }

  // ------------------------------------------------------- serving several requests

  /** k one-page requests in a row will all be served. */
  ghost predicate CanServe(s: Frames, k: nat) {
    && FramesOk(s) && (s.pages > 0 ==> s.used[0])
    && ClearIn(s.used, 0, s.pages) >= k
    && 0 < s.counter && s.counter + k < COUNTER
  }

  lemma {:induction false} ClearInUpdate(used: seq<bool>, n: nat, i: nat)
    requires i < n <= |used| && !used[i]
    ensures ClearIn(used[i := true], 0, n) == ClearIn(used, 0, n) - 1
  {
    if i == n - 1 {
      ClearInSame(used, used[i := true], n - 1);
    } else {
      ClearInUpdate(used, n - 1, i);
    }
  }

  lemma {:induction false} ClearInSame(used: seq<bool>, used': seq<bool>, n: nat)
    requires n <= |used| && n <= |used'| && forall k :: 0 <= k < n ==> used[k] == used'[k]
    ensures ClearIn(used, 0, n) == ClearIn(used', 0, n)
  {
    if n > 0 { ClearInSame(used, used', n - 1); }
  }

  lemma {:induction false} NoneClear(used: seq<bool>, n: nat)
    requires n <= |used|
    ensures FirstClear(used, n) < 0 ==> ClearIn(used, 0, n) == 0
  {
    if n > 0 { NoneClear(used, n - 1); }
  }

  /** A served page was free, becomes used, and leaves one request fewer to serve. */
  lemma {:induction false} ServeOne(s: Frames, k: nat)
    requires CanServe(s, k) && k >= 1
    ensures var f := Served(s, 1);
            0 < f < s.pages && f + 1 <= |s.used| && !s.used[f]
            && Taken(s, 1).used == s.used[f := true] && Taken(s, 1).pages == s.pages
            && CanServe(Taken(s, 1), k - 1)
            && ClearIn(Taken(s, 1).used, 0, s.pages) == ClearIn(s.used, 0, s.pages) - 1
  {
    var f := FirstClear(s.used, s.pages);
    NoneClear(s.used, s.pages);
    assert SetRange(s.used, f, 1, true) == s.used[f := true];
    ClearInUpdate(s.used, s.pages, f);
    SmallWrap32(s.counter + 1);
  }

  lemma {:induction false} SmallWrap32(v: int)
    requires 0 <= v < COUNTER
    ensures Wrap32(v) == v
  {
  }

  // --------------------------------------------------------------- frames consumed

  /** Of the pages clear in s0 those in use in s are the lowest. */
  ghost predicate Lowest(s0: Frames, s: Frames) {
    |s.used| == |s0.used|
    && forall p, q {:trigger s.used[p], s.used[q]} ::
         0 <= p < q < |s0.used| && !s0.used[p] && !s0.used[q] && s.used[q] ==> s.used[p]
  }

  /** k more frames are in use, the lowest that were clear. */
  ghost predicate Spent(s0: Frames, s: Frames, k: int) {
    && FramesOk(s0) && FramesOk(s) && s.pages == s0.pages && |s.used| == |s0.used|
    && (forall f :: 0 <= f < |s0.used| && s0.used[f] ==> s.used[f])
    && ClearIn(s0.used, 0, s0.pages) - ClearIn(s.used, 0, s.pages) == k
    && Lowest(s0, s)
  }

  lemma {:induction false} SpentTrans(s0: Frames, s: Frames, s': Frames, j: int, k: int)
    requires Spent(s0, s, j) && Spent(s, s', k)
    ensures Spent(s0, s', j + k)
  {
    hide ClearIn;
  }

  /** Spending the frame that is served. */
  lemma {:induction false} SpendOne(s: Frames, k: nat)
    requires CanServe(s, k) && k >= 1
    ensures FramesOk(s) && Served(s, 1) > 0 && Served(s, 1) + 1 <= |s.used| && Served(s, 1) < s.pages && CanServe(s, 1)
    ensures Spent(s, Taken(s, 1), 1) && CanServe(Taken(s, 1), k - 1)
  {
    hide ClearIn, Served, Taken;
    ServeOne(s, k);
    NoneBelow(s);
  }

  lemma {:induction false} NoneBelow(s: Frames)
    requires FramesOk(s)
    ensures forall p :: 0 <= p < Served(s, 1) ==> s.used[p]
  {
  }

  lemma {:induction false} SpendNone(s: Frames)
    requires FramesOk(s)
    ensures Spent(s, s, 0)
  {
    hide ClearIn;
  }

  // ------------------------------------------------------------------------- runs

  /** A caller's request: one page, or one page given back. */
  datatype Request = Take | Give(page: nat)

  /** A run of one-page requests, with the pages handed out and not yet given back. A page may be
      given back only while it is out. */
  datatype Run = Run(s: Frames, out: set<nat>)

  ghost predicate Allowed(r: Run, q: Request) {
    q.Give? ==> q.page in r.out
  }

  ghost function Next(r: Run, q: Request): Run
    requires RunOk(r) && Allowed(r, q)
  {
    match q
    case Take =>
      var f := Served(r.s, 1);
      Run(Taken(r.s, 1), if f < 0 then r.out else r.out + {f})
    case Give(page) => Run(Released(r.s, page, 1), r.out - {page})
  }

  /** Pages out are in use, inside the searched range, and none is page 0. */
  ghost predicate RunOk(r: Run) {
    FramesOk(r.s) && forall p :: p in r.out ==> 0 < p < r.s.pages && r.s.used[p]
  }

  /** Every step keeps this, serves the lowest clear page, never one that is already out, and
      changes no other page's bit. */
  lemma {:induction false} StepKeeps(r: Run, q: Request)
    requires RunOk(r) && Allowed(r, q)
    ensures RunOk(Next(r, q)) && Balance(Next(r, q).s) == Balance(r.s)
    ensures q.Take? && Served(r.s, 1) >= 0 ==>
              var f := Served(r.s, 1);
              f !in r.out && Next(r, q).out == r.out + {f} && f > 0
              && forall p :: 0 <= p < f ==> r.s.used[p]
    ensures forall p :: 0 <= p < |r.s.used| && p !in r.out && p !in Next(r, q).out ==>
              Next(r, q).s.used[p] == r.s.used[p]
  {
    match q {
      case Take =>
        if Served(r.s, 1) >= 0 { TakenBalance(r.s, 1); }
      case Give(page) =>
        ReleasedBalance(r.s, page, 1);
    }
  }

  ghost predicate AllAllowed(r: Run, qs: seq<Request>)
    requires RunOk(r)
    decreases |qs|
  {
    qs == [] || (Allowed(r, qs[0]) && (StepKeeps(r, qs[0]); AllAllowed(Next(r, qs[0]), qs[1..])))
  }

  ghost function After(r: Run, qs: seq<Request>): Run
    requires RunOk(r) && AllAllowed(r, qs)
    decreases |qs|
  {
    if qs == [] then r else (StepKeeps(r, qs[0]); After(Next(r, qs[0]), qs[1..]))
  }

  /** Over every run of one-page requests and matching returns: pages out stay distinct, in use and
      never page 0; a page that is neither out at the start nor at the end of a step is left alone,
      so whatever was reserved from the start stays reserved; and the balance is constant. */
  lemma {:induction false} RunKeeps(r: Run, qs: seq<Request>, reserved: set<nat>)
    requires RunOk(r) && AllAllowed(r, qs)
    requires forall p :: p in reserved ==> p < |r.s.used| && r.s.used[p] && p !in r.out
    ensures var r' := After(r, qs);
            RunOk(r') && Balance(r'.s) == Balance(r.s) && |r'.s.used| == |r.s.used|
            && forall p :: p in reserved ==> r'.s.used[p] && p !in r'.out
    decreases |qs|
  {
    if qs != [] {
      StepKeeps(r, qs[0]);
      RunKeeps(Next(r, qs[0]), qs[1..], reserved);
    }
  }
}
