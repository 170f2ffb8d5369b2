/**
 UTF-8 (RFC 3629, section 3) as the console reads it: ssfn_utf8 takes one character off a string,
 and framebuffer_print_string takes them all.
 */
module Utf8 {

  const CODE_POINTS: int := 0x110000

  /** The byte of a string at an index, its terminator included. */
  function At(s: seq<int>, i: nat): int {
    if i < |s| then s[i] else 0
  }

  /** Six payload bits of a following byte: *s & 0x3F */
  function Low6(b: int): int { b % 64 }

  /** ssfn_utf8: the character at index i and the index after it. The lead byte's bits 7, 5, 4 and 3 tell the
      length; nothing else is looked at. */
  function Decode(s: seq<int>, i: nat): (r: (int, nat))
    ensures i < r.1 <= i + 4
  {
    var b := At(s, i);
    if b / 128 % 2 == 0 then (b, i + 1)
    else if b / 32 % 2 == 0 then (b % 32 * 64 + Low6(At(s, i + 1)), i + 2)
    else if b / 16 % 2 == 0 then (b % 16 * 4096 + Low6(At(s, i + 1)) * 64 + Low6(At(s, i + 2)), i + 3)
    else if b / 8 % 2 == 0 then
      (b % 8 * 0x40000 + Low6(At(s, i + 1)) * 4096 + Low6(At(s, i + 2)) * 64 + Low6(At(s, i + 3)), i + 4)
    else (0, i + 1)
  }

  /** The encoding of a character. */
  function Encode(c: int): (r: seq<int>)
    requires 0 <= c < CODE_POINTS
    ensures 1 <= |r| <= 4 && forall k :: 0 <= k < |r| ==> 0 <= r[k] < 256
  {
    if c < 0x80 then [c]
    else if c < 0x800 then [0xC0 + c / 64, 0x80 + c % 64]
    else if c < 0x10000 then [0xE0 + c / 4096, 0x80 + c / 64 % 64, 0x80 + c % 64]
    else [0xF0 + c / 0x40000, 0x80 + c / 4096 % 64, 0x80 + c / 64 % 64, 0x80 + c % 64]
  }

  predicate Printable(cs: seq<int>) {
    forall k :: 0 <= k < |cs| ==> 0 < cs[k] < CODE_POINTS
  }

  function EncodeAll(cs: seq<int>): seq<int>
    requires Printable(cs)
  {
    if cs == [] then [] else Encode(cs[0]) + EncodeAll(cs[1..])
  }

  lemma {:induction false} Lead(base: int, v: int)
    requires (base == 0xC0 && 2 <= v < 32) || (base == 0xE0 && 0 <= v < 16) || (base == 0xF0 && 0 <= v < 8)
    ensures var b := base + v;
            b / 128 % 2 == 1 && b != 0
            && (base == 0xC0 ==> b / 32 % 2 == 0 && b % 32 == v)
            && (base == 0xE0 ==> b / 32 % 2 == 1 && b / 16 % 2 == 0 && b % 16 == v)
            && (base == 0xF0 ==> b / 32 % 2 == 1 && b / 16 % 2 == 1 && b / 8 % 2 == 0 && b % 8 == v)
  {
  }

  lemma {:induction false} Follow(v: int)
    requires 0 <= v < 64
    ensures Low6(0x80 + v) == v
  {
  }

  lemma {:induction false} Groups(c: int)
    requires 0 <= c < CODE_POINTS
    ensures c == 64 * (c / 64) + c % 64
    ensures c == 4096 * (c / 4096) + 64 * (c / 64 % 64) + c % 64
    ensures c == 0x40000 * (c / 0x40000) + 4096 * (c / 4096 % 64) + 64 * (c / 64 % 64) + c % 64
  {
    var a, b := c / 64, c / 4096;
    assert b == a / 64 && c / 0x40000 == b / 64;
    assert a == 64 * (a / 64) + a % 64 && b == 64 * (b / 64) + b % 64;
  }

  lemma {:induction false} Decode2(s: seq<int>, n: nat, c: int)
    requires 0x80 <= c < 0x800 && At(s, n) == 0xC0 + c / 64 && At(s, n + 1) == 0x80 + c % 64
    ensures Decode(s, n) == (c, n + 2)
  {
    hide At, Low6;
    Groups(c);
    Follow(c % 64);
    Lead(0xC0, c / 64);
  }

  lemma {:induction false} Decode3(s: seq<int>, n: nat, c: int)
    requires 0x800 <= c < 0x10000 && At(s, n) == 0xE0 + c / 4096
    requires At(s, n + 1) == 0x80 + c / 64 % 64 && At(s, n + 2) == 0x80 + c % 64
    ensures Decode(s, n) == (c, n + 3)
  {
    hide At, Low6;
    Groups(c);
    Follow(c % 64);
    Follow(c / 64 % 64);
    Lead(0xE0, c / 4096);
  }

  lemma {:induction false} Decode4(s: seq<int>, n: nat, c: int)
    requires 0x10000 <= c < CODE_POINTS && At(s, n) == 0xF0 + c / 0x40000
    requires At(s, n + 1) == 0x80 + c / 4096 % 64 && At(s, n + 2) == 0x80 + c / 64 % 64 && At(s, n + 3) == 0x80 + c % 64
    ensures Decode(s, n) == (c, n + 4)
  {
    hide At, Low6;
    Groups(c);
    Follow(c % 64);
    Follow(c / 64 % 64);
    Follow(c / 4096 % 64);
    Lead(0xF0, c / 0x40000);
  }

  lemma {:induction false} Decode1(s: seq<int>, n: nat, c: int)
    requires 0 <= c < 0x80 && At(s, n) == c
    ensures Decode(s, n) == (c, n + 1)
  {
    hide At, Low6;
    assert c / 128 == 0;
  }

  /** Decoding takes back what encoding put at an index, and moves just past it. */
  lemma {:induction false} DecodeEncode(pre: seq<int>, c: int, rest: seq<int>)
    requires 0 <= c < CODE_POINTS
    ensures Decode(pre + Encode(c) + rest, |pre|) == (c, |pre| + |Encode(c)|)
    ensures c > 0 ==> At(pre + Encode(c) + rest, |pre|) != 0
  {
    hide Decode;
    var s, e, n := pre + Encode(c) + rest, Encode(c), |pre|;
    assert forall k :: 0 <= k < |e| ==> s[n + k] == e[k];
    if c < 0x80 {
      Decode1(s, n, c);
    } else if c < 0x800 {
      Decode2(s, n, c);
    } else if c < 0x10000 {
      Decode3(s, n, c);
    } else {
      Decode4(s, n, c);
    }
  }

  /** The characters of a string from index i to its terminator. */
  function DecodeAll(s: seq<int>, i: nat): seq<int>
    decreases |s| - i
  {
    if At(s, i) == 0 then [] else var (c, j) := Decode(s, i); [c] + DecodeAll(s, j)
  }

  /** Every string of characters comes back from its encoding. */
  lemma {:induction false} RoundTrip(pre: seq<int>, cs: seq<int>)
    requires Printable(cs)
    ensures DecodeAll(pre + EncodeAll(cs), |pre|) == cs
    decreases |cs|
  {
    hide Decode, Encode;
    var s := pre + EncodeAll(cs);
    if cs != [] {
      var e, tail := Encode(cs[0]), cs[1..];
      assert s == pre + e + EncodeAll(tail);
      DecodeEncode(pre, cs[0], EncodeAll(tail));
      RoundTrip(pre + e, tail);
    }
  }

  /** The decoding loop of framebuffer_print_string, giving the characters it prints. */
  method PrintString(bytes: seq<int>) returns (printed: seq<int>)
    ensures printed == DecodeAll(bytes, 0)
  {
    hide Decode;
    var i := 0;
    printed := [];
    while At(bytes, i) != 0
      invariant i >= 0 && DecodeAll(bytes, 0) == printed + DecodeAll(bytes, i)
      decreases |bytes| - i
    {
      var (unicode, next) := Decode(bytes, i);
      Joined(printed, unicode, DecodeAll(bytes, next));
      printed := printed + [unicode];
      i := next;
    }
  }

  lemma {:induction false} Joined(a: seq<int>, c: int, b: seq<int>)
    ensures a + ([c] + b) == a + [c] + b
  {
  }

  /** One character of each length (RFC 3629, section 3): A, the copyright sign, the euro sign, a smiling face. */
  lemma {:induction false} Examples()
    ensures Encode(0x41) == [0x41] && Decode([0x41], 0) == (0x41, 1)
    ensures Encode(0xA9) == [0xC2, 0xA9] && Decode([0xC2, 0xA9], 0) == (0xA9, 2)
    ensures Encode(0x20AC) == [0xE2, 0x82, 0xAC] && Decode([0xE2, 0x82, 0xAC], 0) == (0x20AC, 3)
    ensures Encode(0x1F600) == [0xF0, 0x9F, 0x98, 0x80] && Decode([0xF0, 0x9F, 0x98, 0x80], 0) == (0x1F600, 4)
  {
    hide Encode, Decode;
    Letter();
    Copyright();
    Euro();
    Smile();
  }

  lemma {:induction false} Letter()
    ensures Encode(0x41) == [0x41] && Decode([0x41], 0) == (0x41, 1)
  {
  }

  lemma {:induction false} Copyright()
    ensures Encode(0xA9) == [0xC2, 0xA9] && Decode([0xC2, 0xA9], 0) == (0xA9, 2)
  {
  }

  lemma {:induction false} Euro()
    ensures Encode(0x20AC) == [0xE2, 0x82, 0xAC] && Decode([0xE2, 0x82, 0xAC], 0) == (0x20AC, 3)
  {
  }

  lemma {:induction false} Smile()
    ensures Encode(0x1F600) == [0xF0, 0x9F, 0x98, 0x80] && Decode([0xF0, 0x9F, 0x98, 0x80], 0) == (0x1F600, 4)
  {
  }
}
