/**
 kprintf's formatter: the directives of a format string, and the loops that write the text into a
 buffer of limited size. The text itself does not depend on the buffer.
 */
module Kprintf {
  import opened Addresses
  import opened Arithmetic
  import opened PageFrames
  import opened Powers
  import opened PrintfLaws
  import opened PrintfText

  /** A variadic argument: a 64-bit slot, or a string. */
  datatype Arg = Word(w: nat) | Str(s: seq<char>)

  const NUL: char := 0 as char

  /** The character of a string at an index, its terminator included. */
  function At(f: seq<char>, i: nat): char {
    if i < |f| then f[i] else NUL
  }

  // ----------------------------------------------------------------- directives

  predicate IsDigit(c: char) { '0' <= c <= '9' }

  predicate IsFlag(c: char) { c == '0' || c == '-' || c == '+' || c == ' ' || c == '#' }

  /** The flag a character stands for, besides those already set. */
  function SetFlag(fl: Flags, c: char): Flags
    requires IsFlag(c)
  {
    Flags(fl.zeropad || c == '0', fl.left || c == '-', fl.plus || c == '+', fl.space || c == ' ', fl.hash || c == '#',
          fl.uppercase, fl.char8, fl.short16, fl.long64, fl.longlong, fl.precision)
  }

  /** The flags from index i on, and where they end. */
  function FlagsFrom(f: seq<char>, i: nat, fl: Flags): (r: (Flags, nat))
    ensures r.1 >= i
    decreases |f| - i
  {
    if IsFlag(At(f, i)) then FlagsFrom(f, i + 1, SetFlag(fl, At(f, i))) else (fl, i)
  }

  /** A decimal number in 32 bits, and where it ends. */
  function AtoiFrom(f: seq<char>, i: nat, acc: nat): (r: (nat, nat))
    ensures r.1 >= i && (IsDigit(At(f, i)) ==> r.1 > i)
    decreases |f| - i
  {
    if IsDigit(At(f, i)) then AtoiFrom(f, i + 1, Wrap32(acc * 10 + (At(f, i) as int - '0' as int))) else (acc, i)
  }

  /** A width or precision: its value, the flags after it, and how far format and arguments are used up. */
  datatype Field = Field(value: nat, fl: Flags, i: nat, a: nat) | NoField

  predicate HasWord(args: seq<Arg>, a: nat) { a < |args| && args[a].Word? }

  predicate HasStr(args: seq<Arg>, a: nat) { a < |args| && args[a].Str? }

  /** A negative width from the arguments means its size, to the left. */
  function WidthField(f: seq<char>, i: nat, args: seq<Arg>, a: nat, fl: Flags): (r: Field)
    ensures r.Field? ==> r.i >= i && r.a >= a
  {
    if IsDigit(At(f, i)) then var (v, j) := AtoiFrom(f, i, 0); Field(v, fl, j, a)
    else if At(f, i) != '*' then Field(0, fl, i, a)
    else if !HasWord(args, a) then NoField
    else
      var w := ToInt32(args[a].w);
      if w < 0 then Field(Wrap32(-w), fl.(left := true), i + 1, a + 1) else Field(w, fl, i + 1, a + 1)
  }

  function PrecisionField(f: seq<char>, i: nat, args: seq<Arg>, a: nat, fl: Flags): (r: Field)
    ensures r.Field? ==> r.i >= i && r.a >= a
  {
    if At(f, i) != '.' then Field(0, fl, i, a)
    else
      var fl' := fl.(precision := true);
      if IsDigit(At(f, i + 1)) then var (v, j) := AtoiFrom(f, i + 1, 0); Field(v, fl', j, a)
      else if At(f, i + 1) != '*' then Field(0, fl', i + 1, a)
      else if !HasWord(args, a) then NoField
      else
        var p := ToInt32(args[a].w);
        Field(if p > 0 then p else 0, fl', i + 2, a + 1)
  }

  /** How many characters a length field has. */
  function LengthSize(f: seq<char>, i: nat): nat {
    var c := At(f, i);
    if c == 'l' || c == 'h' then (if At(f, i + 1) == c then 2 else 1)
    else if c == 't' || c == 'j' || c == 'z' then 1 else 0
  }

  /** The flags a length field of n characters beginning with c sets. */
  function LengthFlags(c: char, n: nat, fl: Flags): Flags {
    if n == 0 then fl
    else if c == 'h' then
      Flags(fl.zeropad, fl.left, fl.plus, fl.space, fl.hash, fl.uppercase, fl.char8 || n == 2, true, fl.long64,
            fl.longlong, fl.precision)
    else
      Flags(fl.zeropad, fl.left, fl.plus, fl.space, fl.hash, fl.uppercase, fl.char8, fl.short16, true,
            fl.longlong || n == 2, fl.precision)
  }

  /** A directive up to its conversion character. */
  datatype Spec = Spec(fl: Flags, width: nat, prec: nat, i: nat, a: nat) | NoSpec

  function Directive(f: seq<char>, i: nat, args: seq<Arg>, a: nat): (r: Spec)
    ensures r.Spec? ==> r.i >= i && r.a >= a
  {
    var (fl, j) := FlagsFrom(f, i, NO_FLAGS);
    var w := WidthField(f, j, args, a, fl);
    if w.NoField? then NoSpec
    else
      var p := PrecisionField(f, w.i, args, w.a, w.fl);
      if p.NoField? then NoSpec
      else
        var n := LengthSize(f, p.i);
        Spec(LengthFlags(At(f, p.i), n, p.fl), w.value, p.value, p.i + n, p.a)
  }

  // ---------------------------------------------------------------- conversions

  predicate IsInteger(c: char) {
    c == 'd' || c == 'i' || c == 'u' || c == 'x' || c == 'X' || c == 'o' || c == 'b'
  }

  function BaseOf(c: char): (b: int)
    ensures 2 <= b <= 16
  {
    if c == 'x' || c == 'X' then 16 else if c == 'o' then 8 else if c == 'b' then 2 else 10
  }

  predicate IsSigned(c: char) { c == 'd' || c == 'i' }

  /** No # in base 10, capitals for X, no sign flags for the unsigned, and no zero padding beside a precision. */
  function IntFlags(c: char, fl: Flags): Flags {
    var f1 := if BaseOf(c) == 10 then fl.(hash := false) else fl;
    var f2 := if c == 'X' then f1.(uppercase := true) else f1;
    var f3 := if IsSigned(c) then f2 else f2.(plus := false, space := false);
    if f3.precision then f3.(zeropad := false) else f3
  }

  /** The low n bits of a word as a signed number. */
  function SignedLow(w: nat, modulus: int): int
    requires modulus >= 2
  {
    var m := w % modulus;
    if m >= modulus / 2 then m - modulus else m
  }

  function SignedArg(w: nat, fl: Flags): int {
    if fl.longlong || fl.long64 then SignedLow(w, WORD)
    else if fl.char8 then SignedLow(w, 256)
    else if fl.short16 then SignedLow(w, 65536)
    else SignedLow(w, INT_WORD)
  }

  function UnsignedArg(w: nat, fl: Flags): nat {
    if fl.longlong || fl.long64 then w % WORD
    else if fl.char8 then w % 256
    else if fl.short16 then w % 65536
    else w % INT_WORD
  }

  function Magnitude(v: int): nat {
    if v > 0 then v else -v
  }

  function IntPiece(c: char, sp: Spec, w: nat): seq<char>
    requires sp.Spec? && IsInteger(c)
  {
    var fl := IntFlags(c, sp.fl);
    if IsSigned(c) then IntText(Magnitude(SignedArg(w, fl)), SignedArg(w, fl) < 0, BaseOf(c), sp.prec, sp.width, fl)
    else IntText(UnsignedArg(w, fl), false, BaseOf(c), sp.prec, sp.width, fl)
  }

  function PointerFlags(fl: Flags): Flags {
    Flags(true, fl.left, fl.plus, fl.space, fl.hash, true, fl.char8, fl.short16, fl.long64, fl.longlong, fl.precision)
  }

  /** When %#p, without a precision, prints a pointer of d digits with its whole mark. Without a - flag the zeros
      fill the width, which costs two digits, unless a sign flag makes the width one less than the digits. */
  lemma {:induction false} PointerShown(v: nat, fl: Flags)
    requires 0 < v < WORD && fl.hash && !fl.precision
    ensures var f, d := PointerFlags(fl), |DigitsOf(v, 16, PointerFlags(fl))|;
            ShowsMarked(IntText(v, false, 16, 0, 16, f), false, v, 16, f)
            <==> if fl.left then d < 16 else if fl.plus || fl.space then d != 14 && d != 15 else d <= 14
  {
    hide DigitsOf, IntText, ShowsMarked;
    var f := PointerFlags(fl);
    HashExact(v, false, 16, 0, 16, f);
    PointerDigits(v, f);
  }

  lemma {:induction false} PointerDigits(v: nat, f: Flags)
    requires 0 < v < WORD && !f.precision
    ensures 1 <= |DigitsOf(v, 16, f)| <= 16 && (|DigitsOf(v, 16, f)| == 16 <==> v >= 0x1000_0000_0000_0000)
  {
    hide DigitsUpTo, Power;
    HexPowers();
    var k := |DigitsOf(v, 16, f)|;
    DigitsTop(v, 16, f.uppercase, 32);
    if k > 16 { PowerGrows(16, 16, k - 1); }
    if k < 16 { PowerGrows(16, k, 15); }
  }

  lemma {:induction false} HexPowers()
    ensures Power(16, 15) == 0x1000_0000_0000_0000 && Power(16, 16) == WORD
  {
    assert Power(16, 4) == 0x1_0000;
    assert Power(16, 8) == 0x1_0000 * Power(16, 4);
    assert Power(16, 12) == 0x1_0000 * Power(16, 8);
    assert Power(16, 15) == 0x1000 * Power(16, 12);
  }

  /** So %#p never prints an address of the higher half as it is. */
  lemma {:induction false} PointerLosesDigits(v: nat, fl: Flags)
    requires 0x1000_0000_0000_0000 <= v < WORD && fl.hash && !fl.precision && (fl.left || !(fl.plus || fl.space))
    ensures !ShowsMarked(IntText(v, false, 16, 0, 16, PointerFlags(fl)), false, v, 16, PointerFlags(fl))
  {
    hide DigitsOf, IntText, ShowsMarked;
    PointerShown(v, fl);
    PointerDigits(v, PointerFlags(fl));
  }

  /** text with spaces up to the width, before it or, with the - flag, behind it. */
  function Spaced(text: seq<char>, width: nat, fl: Flags): seq<char> {
    if fl.left then text + Repeat(' ', width - |text|) else Repeat(' ', width - |text|) + text
  }

  function ByteChar(w: nat): char {
    (w % 256) as char
  }

  /** The part of a string that is printed. */
  function StrPart(s: seq<char>, sp: Spec): seq<char>
    requires sp.Spec?
  {
    if sp.fl.precision then s[..Min(|s|, sp.prec)] else s
  }

  datatype Piece = Piece(text: seq<char>, i: nat, a: nat) | NoPiece

  /** What the conversion character after a directive prints; nothing is defined when the format ends before
      it or the argument is not there. */
  function Convert(f: seq<char>, sp: Spec, args: seq<Arg>): (r: Piece)
    requires sp.Spec?
    ensures r.Piece? ==> r.i == sp.i + 1 <= |f|
  {
    if sp.i >= |f| then NoPiece
    else
      var c := f[sp.i];
      if IsInteger(c) then
        if HasWord(args, sp.a) then Piece(IntPiece(c, sp, args[sp.a].w), sp.i + 1, sp.a + 1) else NoPiece
      else if c == 'c' then
        if HasWord(args, sp.a) then Piece(Spaced([ByteChar(args[sp.a].w)], sp.width, sp.fl), sp.i + 1, sp.a + 1)
        else NoPiece
      else if c == 's' then
        if HasStr(args, sp.a) then Piece(Spaced(StrPart(args[sp.a].s, sp), sp.width, sp.fl), sp.i + 1, sp.a + 1)
        else NoPiece
      else if c == 'p' then
        if HasWord(args, sp.a) then
          Piece(IntText(args[sp.a].w % WORD, false, 16, sp.prec, 16, PointerFlags(sp.fl)), sp.i + 1, sp.a + 1)
        else NoPiece
      else Piece([c], sp.i + 1, sp.a)
  }

  /** The text of a format string from index i and argument a on. */
  datatype Outcome = Text(text: seq<char>) | Undefined

  function Prepend(s: seq<char>, r: Outcome): Outcome {
    match r
    case Text(t) => Text(s + t)
    case Undefined => Undefined
  }

  function Render(f: seq<char>, i: nat, args: seq<Arg>, a: nat): Outcome
    decreases |f| - i
  {
    if i >= |f| then Text([])
    else if f[i] != '%' then Prepend([f[i]], Render(f, i + 1, args, a))
    else
      var sp := Directive(f, i + 1, args, a);
      if sp.NoSpec? then Undefined
      else
        var p := Convert(f, sp, args);
        if p.NoPiece? then Undefined else Prepend(p.text, Render(f, p.i, args, p.a))
  }

  // -------------------------------------------------------------------- the sink

  /** A buffer that held original with the first characters of text written over it. */
  ghost predicate Shows(now: seq<char>, original: seq<char>, text: seq<char>, maxlen: nat) {
    |now| == |original| && maxlen <= |now|
    && forall k :: 0 <= k < |now| ==> now[k] == if k < |text| && k < maxlen then text[k] else original[k]
  }

  /** The same once terminated: at most maxlen - 1 characters of the text and a NUL, the rest untouched. */
  ghost predicate Ends(now: seq<char>, original: seq<char>, text: seq<char>, maxlen: nat) {
    |now| == |original| && maxlen <= |now|
    && forall k :: 0 <= k < |now| ==>
         now[k] == if k < |text| && k < maxlen - 1 then text[k]
                   else if k == Min(|text|, maxlen - 1) then NUL else original[k]
  }

  /** An output function with its buffer; a limit of zero also stands for the null output. */
  class Sink {
    const buffer: array<char>
    const maxlen: nat
    ghost const original: seq<char>
    ghost var text: seq<char>

    constructor (buffer: array<char>, maxlen: nat)
      requires maxlen <= buffer.Length && maxlen < WORD
      ensures this.buffer == buffer && this.maxlen == maxlen && original == buffer[..] && text == [] && Valid()
    {
      this.buffer := buffer;
      this.maxlen := maxlen;
      original := buffer[..];
      text := [];
    }

    ghost predicate Valid()
      reads this, buffer
    {
      Shows(buffer[..], original, text, maxlen) && maxlen < WORD
    }

    /** _out_buffer, for the next character of the text. */
    method Out(character: char, idx: nat)
      requires Valid() && idx == |text|
      modifies `text, buffer
      ensures Valid() && text == old(text) + [character]
    {
      if idx < maxlen { buffer[idx] := character; }
      text := text + [character];
    }

    /** Padding: out(' ') count times. */
    method OutSpaces(idx0: nat, count: int) returns (idx: nat)
      requires Valid() && idx0 == |text|
      modifies `text, buffer
      ensures Valid() && text == old(text) + Repeat(' ', count) && idx == |text|
    {
      hide Shows;
      idx := idx0;
      var i := 0;
      while i < count
        invariant 0 <= i && (i <= count || (i == 0 && count < 0)) && Valid() && idx == |text|
        invariant text == old(text) + Repeat(' ', i)
      {
        Out(' ', idx);
        RepeatMore(old(text), i);
        idx := idx + 1;
        i := i + 1;
      }
      EmptyRepeat(count);
    }

    /** The terminating NUL. */
    method Terminate(idx: nat)
      requires Valid() && idx == |text|
      modifies buffer
      ensures Ends(buffer[..], original, text, maxlen)
    {
      var last := if idx < maxlen then idx else (maxlen - 1) % WORD;
      NotBelow(maxlen);
      if last < maxlen { buffer[last] := NUL; }
    }

    /** _out_rev: the buffer back to front, with spaces up to the width. */
    method OutRev(idx0: nat, buf: array<char>, len0: nat, width: nat, fl: Flags) returns (idx: nat)
      requires Valid() && idx0 == |text| && len0 <= buf.Length && buf != buffer
      modifies `text, buffer
      ensures Valid() && idx == |text| && text == old(text) + Padded(buf[..len0], width, fl)
    {
      hide Shows, Repeat, Reverse, Padded;
      idx := idx0;
      var len, startIdx := len0, idx0;
      ghost var front := if !fl.left && !fl.zeropad then Repeat(' ', width - len0) else [];
      if !fl.left && !fl.zeropad {
        idx := OutSpaces(idx, width - len0);
      }
      ReverseNone(old(text) + front);
      assert text == old(text) + front;
      ghost var digits := buf[..len0];
      while len > 0
        invariant 0 <= len <= len0 == |digits| && Valid() && idx == |text|
        invariant buf[..len0] == digits && text == old(text) + front + Reverse(digits[len..])
        decreases len
      {
        len := len - 1;
        Out(buf[len], idx);
        idx := idx + 1;
        ReverseMore(digits, len);
      }
      assert digits[0..] == digits;
      PaddedParts(digits, width, fl);
      ghost var turned := text;
      if fl.left {
        assert idx - startIdx == len0;
        idx := OutSpaces(idx, width - (idx - startIdx));
        assert text == turned + Repeat(' ', width - len0);
      }
      assert text == old(text) + Padded(buf[..len0], width, fl);
    }
  }

  lemma {:induction false} PaddedParts(buf: seq<char>, width: nat, fl: Flags)
    ensures |Reverse(buf)| == |buf|
    ensures Padded(buf, width, fl) == (if !fl.left && !fl.zeropad then Repeat(' ', width - |buf|) else [])
         + Reverse(buf)
                                      + (if fl.left then Repeat(' ', width - |buf|) else [])
  {
  }

  lemma {:induction false} NotBelow(maxlen: nat)
    ensures maxlen >= 1 && maxlen < WORD ==> (maxlen - 1) % WORD == maxlen - 1
    ensures maxlen == 0 ==> (maxlen - 1) % WORD == WORD - 1
  {
  }

  lemma {:induction false} RepeatMore(s: seq<char>, i: nat)
    ensures s + Repeat(' ', i) + [' '] == s + Repeat(' ', i + 1)
  {
  }

  lemma {:induction false} ReverseNone(s: seq<char>)
    ensures s + Reverse([]) == s
  {
  }

  lemma {:induction false} ReverseMore(s: seq<char>, len: nat)
    requires len < |s|
    ensures Reverse(s[len..]) == Reverse(s[len + 1..]) + [s[len]]
  {
    assert s[len..][1..] == s[len + 1..];
  }

  // ------------------------------------------------------------ integer conversion

  /** buf[len++] = c, if there is room. */
  method Push(buf: array<char>, len0: nat, c: char) returns (len: nat)
    requires buf.Length == NTOA_BUFFER_SIZE && len0 <= NTOA_BUFFER_SIZE
    modifies buf
    ensures len <= NTOA_BUFFER_SIZE && buf[..len] == Append(old(buf[..len0]), c)
  {
    len := len0;
    if len < NTOA_BUFFER_SIZE {
      buf[len] := c;
      len := len + 1;
      assert buf[..len] == old(buf[..len0]) + [c];
    }
  }

  /** Zeros until there are n characters. */
  method FillZeros(buf: array<char>, len0: nat, n: nat) returns (len: nat)
    requires buf.Length == NTOA_BUFFER_SIZE && len0 <= NTOA_BUFFER_SIZE
    modifies buf
    ensures len <= NTOA_BUFFER_SIZE && buf[..len] == ZeroFill(old(buf[..len0]), n)
  {
    len := len0;
    ghost var b := buf[..len0];
    while len < n && len < NTOA_BUFFER_SIZE
      invariant len0 <= len <= NTOA_BUFFER_SIZE && (len <= n || len == len0)
      invariant buf[..len] == b + Repeat('0', len - len0)
    {
      ghost var before := buf[..len];
      buf[len] := '0';
      len := len + 1;
      assert buf[..len] == before + ['0'];
    }
  }

  /** _ntoa_format */
  method NtoaFormat(sink: Sink, idx0: nat, buf: array<char>, len0: nat, negative: bool, base: int, prec: nat,
                    width0: nat, fl: Flags)
      returns (idx: nat)
    requires sink.Valid() && idx0 == |sink.text| && buf != sink.buffer
    requires buf.Length == NTOA_BUFFER_SIZE && len0 <= NTOA_BUFFER_SIZE
    modifies sink`text, sink.buffer, buf
    ensures sink.Valid() && idx == |sink.text|
    ensures sink.text == old(sink.text) + Padded(Formatted(old(buf[..len0]), negative, base, prec, width0, fl),
                                                 SignedWidth(negative, width0, fl), fl)
  {
    hide Shows, Padded, Zeros, Shortened, BaseMark, Signed;
    var signed := negative || fl.plus || fl.space;
    var width := if !fl.left && width0 > 0 && fl.zeropad && signed then width0 - 1 else width0;
    var len := PadZeros(buf, len0, prec, width, fl);
    if fl.hash { len := MarkBase(buf, len, base, prec, width, fl); }
    len := PutSign(buf, len, negative, fl);
    idx := sink.OutRev(idx0, buf, len, width, fl);
  }

  method PadZeros(buf: array<char>, len0: nat, prec: nat, width: nat, fl: Flags) returns (len: nat)
    requires buf.Length == NTOA_BUFFER_SIZE && len0 <= NTOA_BUFFER_SIZE
    modifies buf
    ensures len <= NTOA_BUFFER_SIZE && buf[..len] == Zeros(old(buf[..len0]), prec, width, fl)
  {
    hide ZeroFill;
    len := len0;
    if !fl.left {
      len := FillZeros(buf, len, prec);
      if fl.zeropad { len := FillZeros(buf, len, width); }
    }
  }

  method MarkBase(buf: array<char>, len0: nat, base: int, prec: nat, width: nat, fl: Flags) returns (len: nat)
    requires buf.Length == NTOA_BUFFER_SIZE && len0 <= NTOA_BUFFER_SIZE
    modifies buf
    ensures len <= NTOA_BUFFER_SIZE
    ensures buf[..len] == BaseMark(Shortened(old(buf[..len0]), base, prec, width, fl), base, fl)
  {
    hide Append;
    len := len0;
    ghost var z := buf[..len0];
    if !fl.precision && len > 0 && (len == prec || len == width) {
      len := len - 1;
      if len > 0 && base == 16 { len := len - 1; }
    }
    assert buf[..len] == Shortened(z, base, prec, width, fl);
    if base == 16 && !fl.uppercase {
      len := Push(buf, len, 'x');
    } else if base == 16 && fl.uppercase {
      len := Push(buf, len, 'X');
    } else if base == 2 {
      len := Push(buf, len, 'b');
    }
    len := Push(buf, len, '0');
  }

  method PutSign(buf: array<char>, len0: nat, negative: bool, fl: Flags) returns (len: nat)
    requires buf.Length == NTOA_BUFFER_SIZE && len0 <= NTOA_BUFFER_SIZE
    modifies buf
    ensures len <= NTOA_BUFFER_SIZE && buf[..len] == Signed(old(buf[..len0]), negative, fl)
  {
    hide Append;
    len := len0;
    if negative {
      len := Push(buf, len, '-');
    } else if fl.plus {
      len := Push(buf, len, '+');
    } else if fl.space {
      len := Push(buf, len, ' ');
    }
  }

  /** _ntoa_long, and _ntoa_long_long, which is the same in 64 bits. */
  method NtoaLong(sink: Sink, idx0: nat, value0: nat, negative: bool, base: int, prec: nat, width: nat, flags0: Flags)
      returns (idx: nat)
    requires sink.Valid() && idx0 == |sink.text| && 2 <= base <= 16
    modifies sink`text, sink.buffer
    ensures sink.Valid() && idx == |sink.text|
    ensures sink.text == old(sink.text) + IntText(value0, negative, base, prec, width, flags0)
  {
    hide Shows, Padded, Formatted, SignedWidth, DigitsUpTo, Quot, Rem, FlagsOf;
    var buf := new char[NTOA_BUFFER_SIZE];
    var len := 0;
    var fl := flags0;
    if value0 == 0 {
      fl := Unhashed(flags0);
    } else {
      FlagsOfPositive(value0, flags0);
    }
    if !fl.precision || value0 != 0 {
      len := WriteDigits(buf, value0, base, fl.uppercase);
    }
    idx := NtoaFormat(sink, idx0, buf, len, negative, base, prec, width, fl);
  }

  /** flags &= ~FLAGS_HASH */
  method Unhashed(fl: Flags) returns (f: Flags)
    ensures f == FlagsOf(0, fl) && f.precision == fl.precision && f.uppercase == fl.uppercase
  {
    f := fl.(hash := false);
  }

  /** The digit loop: at most 32 digits, least significant first. */
  method WriteDigits(buf: array<char>, value0: nat, base: int, upper: bool) returns (len: nat)
    requires buf.Length == NTOA_BUFFER_SIZE && 2 <= base <= 16
    modifies buf
    ensures len <= NTOA_BUFFER_SIZE && buf[..len] == DigitsUpTo(value0, base, upper, NTOA_BUFFER_SIZE)
  {
    hide DigitsUpTo, Quot, Rem, DigitChar;
    var value := value0;
    len := 0;
    var more := true;
    ghost var goal := DigitsUpTo(value0, base, upper, NTOA_BUFFER_SIZE);
    assert buf[..0] + goal == goal;
    while more
      invariant len <= NTOA_BUFFER_SIZE && more == ((value != 0 || len == 0) && len < NTOA_BUFFER_SIZE)
      invariant more ==> buf[..len] + DigitsUpTo(value, base, upper, NTOA_BUFFER_SIZE - len) == goal
      invariant !more ==> buf[..len] == goal
      decreases NTOA_BUFFER_SIZE - len
    {
      ghost var before := buf[..len];
      DigitStep(before, value, base, upper, NTOA_BUFFER_SIZE - len, goal);
      buf[len] := DigitChar(Rem(value, base), upper);
      len := len + 1;
      assert buf[..len] == before + [DigitChar(Rem(value, base), upper)];
      value := Quot(value, base);
      more := value != 0 && len < NTOA_BUFFER_SIZE;
    }
  }

  lemma {:induction false} DigitStep(before: seq<char>, value: nat, base: int, upper: bool, n: nat, goal: seq<char>)
    requires 2 <= base <= 16 && n >= 1 && before + DigitsUpTo(value, base, upper, n) == goal
    ensures var after := before + [DigitChar(Rem(value, base), upper)];
            if Quot(value, base) != 0 && n > 1 then after + DigitsUpTo(Quot(value, base), base, upper, n - 1) == goal
            else after == goal
  {
    hide Quot, Rem, DigitChar, DigitsUpTo;
    var d, q := [DigitChar(Rem(value, base), upper)], Quot(value, base);
    DigitsUnfold(value, base, upper, n);
    if q != 0 && n > 1 { Regrouped(before, d, DigitsUpTo(q, base, upper, n - 1)); }
  }

  lemma {:induction false} DigitsUnfold(value: nat, base: int, upper: bool, n: nat)
    requires 2 <= base <= 16 && n >= 1
    ensures DigitsUpTo(value, base, upper, n)
         == if Quot(value, base) != 0 && n > 1 then
              [DigitChar(Rem(value, base), upper)] + DigitsUpTo(Quot(value, base), base, upper, n - 1)
            else [DigitChar(Rem(value, base), upper)]
  {
    hide Quot, Rem, DigitChar;
    var d := [DigitChar(Rem(value, base), upper)];
    assert d + [] == d;
  }

  lemma {:induction false} Regrouped(a: seq<char>, b: seq<char>, c: seq<char>)
    ensures a + (b + c) == a + b + c
  {
  }

  // -------------------------------------------------------------- other conversions

  /** _strnlen_s: the length of a string, or maxsize if that is less. */
  method Strnlen(s: seq<char>, maxsize0: nat) returns (n: nat)
    ensures n == Min(|s|, maxsize0)
  {
    n := 0;
    var maxsize := maxsize0;
    while n < |s| && maxsize > 0
      invariant n <= |s| && 0 <= maxsize && n + maxsize == maxsize0
      decreases |s| - n
    {
      maxsize := maxsize - 1;
      n := n + 1;
    }
  }

  /** The conversion of a character. */
  method OutChar(sink: Sink, idx0: nat, c: char, width: nat, fl: Flags) returns (idx: nat)
    requires sink.Valid() && idx0 == |sink.text|
    modifies sink`text, sink.buffer
    ensures sink.Valid() && idx == |sink.text| && sink.text == old(sink.text) + Spaced([c], width, fl)
  {
    hide Shows, Repeat;
    idx := idx0;
    if !fl.left { idx := sink.OutSpaces(idx, width - 1); }
    sink.Out(c, idx);
    idx := idx + 1;
    if fl.left { idx := sink.OutSpaces(idx, width - 1); }
  }

  /** The characters of a string, no more than a precision allows. */
  method OutPart(sink: Sink, idx0: nat, p: seq<char>, precision0: nat, fl: Flags) returns (idx: nat)
    requires sink.Valid() && idx0 == |sink.text|
    modifies sink`text, sink.buffer
    ensures sink.Valid() && idx == |sink.text|
    ensures sink.text == old(sink.text) + if fl.precision then p[..Min(|p|, precision0)] else p
  {
    hide Shows;
    idx := idx0;
    var k, precision := 0, precision0;
    while k < |p| && (!fl.precision || precision > 0)
      invariant 0 <= k <= |p| && sink.Valid() && idx == |sink.text| && sink.text == old(sink.text) + p[..k]
      invariant fl.precision ==> 0 <= precision && k + precision == precision0
      decreases |p| - k
    {
      if fl.precision { precision := precision - 1; }
      sink.Out(p[k], idx);
      idx := idx + 1;
      assert p[..k + 1] == p[..k] + [p[k]];
      k := k + 1;
    }
    assert p[..|p|] == p;
  }

  /** The conversion of a string. */
  method OutStr(sink: Sink, idx0: nat, p: seq<char>, width: nat, precision: nat, fl: Flags) returns (idx: nat)
    requires sink.Valid() && idx0 == |sink.text| && |p| < INT_WORD && (!fl.precision ==> precision == 0)
    modifies sink`text, sink.buffer
    ensures sink.Valid() && idx == |sink.text|
    ensures sink.text == old(sink.text) + Spaced(if fl.precision then p[..Min(|p|, precision)] else p, width, fl)
  {
    hide Shows, Repeat;
    idx := idx0;
    var l := Strnlen(p, if precision > 0 then precision else WORD - 1);
    if fl.precision { l := if l < precision then l else precision; }
    if !fl.left { idx := sink.OutSpaces(idx, width - l); }
    idx := OutPart(sink, idx, p, precision, fl);
    if fl.left { idx := sink.OutSpaces(idx, width - l); }
  }

  // ------------------------------------------------------------------ directives

  method ParseFlags(f: seq<char>, i0: nat) returns (fl: Flags, i: nat)
    ensures (fl, i) == FlagsFrom(f, i0, NO_FLAGS)
  {
    fl, i := NO_FLAGS, i0;
    var n := 1;
    while n != 0
      invariant i >= i0 && FlagsFrom(f, i0, NO_FLAGS) == FlagsFrom(f, i, fl)
      invariant n == 0 ==> !IsFlag(At(f, i))
      decreases |f| - i, n
    {
      if IsFlag(At(f, i)) {
        fl := SetFlag(fl, At(f, i));
        i := i + 1;
        n := 1;
      } else {
        n := 0;
      }
    }
  }

  /** _atoi */
  method Atoi(f: seq<char>, i0: nat) returns (n: nat, i: nat)
    ensures (n, i) == AtoiFrom(f, i0, 0)
  {
    hide Wrap32;
    n, i := 0, i0;
    while IsDigit(At(f, i))
      invariant AtoiFrom(f, i0, 0) == AtoiFrom(f, i, n)
      decreases |f| - i
    {
      n := Wrap32(n * 10 + (At(f, i) as int - '0' as int));
      i := i + 1;
    }
  }

  method ParseWidth(f: seq<char>, i: nat, args: seq<Arg>, a: nat, fl: Flags) returns (r: Field)
    ensures r == WidthField(f, i, args, a, fl)
  {
    hide ToInt32, Wrap32;
    if IsDigit(At(f, i)) {
      var v, j := Atoi(f, i);
      r := Field(v, fl, j, a);
    } else if At(f, i) == '*' {
      if !HasWord(args, a) { return NoField; }
      var w := ToInt32(args[a].w);
      if w < 0 {
        r := Field(Wrap32(-w), fl.(left := true), i + 1, a + 1);
      } else {
        r := Field(w, fl, i + 1, a + 1);
      }
    } else {
      r := Field(0, fl, i, a);
    }
  }

  method ParsePrecision(f: seq<char>, i: nat, args: seq<Arg>, a: nat, fl0: Flags) returns (r: Field)
    ensures r == PrecisionField(f, i, args, a, fl0)
  {
    hide ToInt32, Wrap32;
    if At(f, i) != '.' { return Field(0, fl0, i, a); }
    var fl := fl0.(precision := true);
    if IsDigit(At(f, i + 1)) {
      var v, j := Atoi(f, i + 1);
      r := Field(v, fl, j, a);
    } else if At(f, i + 1) == '*' {
      if !HasWord(args, a) { return NoField; }
      var p := ToInt32(args[a].w);
      r := Field(if p > 0 then p else 0, fl, i + 2, a + 1);
    } else {
      r := Field(0, fl, i + 1, a);
    }
  }

  /** Everything of a directive but its conversion. */
  method ParseDirective(f: seq<char>, i: nat, args: seq<Arg>, a: nat) returns (r: Spec)
    ensures r == Directive(f, i, args, a)
  {
    hide FlagsFrom, WidthField, PrecisionField, LengthFlags;
    var fl, j := ParseFlags(f, i);
    var w := ParseWidth(f, j, args, a, fl);
    if w.NoField? { return NoSpec; }
    var p := ParsePrecision(f, w.i, args, w.a, w.fl);
    if p.NoField? { return NoSpec; }
    var n := LengthSize(f, p.i);
    r := Spec(LengthFlags(At(f, p.i), n, p.fl), w.value, p.value, p.i + n, p.a);
  }

  /** A precision is there only with its flag. */
  lemma {:induction false} PrecisionFlag(f: seq<char>, i: nat, args: seq<Arg>, a: nat)
    ensures var sp := Directive(f, i, args, a);
            sp.Spec? && !sp.fl.precision ==> sp.prec == 0
  {
    hide FlagsFrom, AtoiFrom, ToInt32, Wrap32;
  }

  // ------------------------------------------------------------------ the formatter

  /** Strings whose length fits an unsigned int. */
  predicate ArgsOk(args: seq<Arg>) {
    forall k :: 0 <= k < |args| && args[k].Str? ==> |args[k].s| < INT_WORD
  }

  /** The conversion of a directive. */
  method OutPiece(sink: Sink, idx0: nat, f: seq<char>, sp: Spec, args: seq<Arg>) returns (idx: nat, i: nat, a: nat)
    requires sink.Valid() && idx0 == |sink.text| && sp.Spec? && Convert(f, sp, args).Piece? && ArgsOk(args)
    requires !sp.fl.precision ==> sp.prec == 0
    modifies sink`text, sink.buffer
    ensures sink.Valid() && idx == |sink.text|
    ensures var p := Convert(f, sp, args);
            sink.text == old(sink.text) + p.text && i == p.i && a == p.a
  {
    hide Shows, IntText, Repeat, IntFlags, SignedArg, UnsignedArg, Spaced, BaseOf, Magnitude;
    var c := f[sp.i];
    i, a := sp.i + 1, sp.a + 1;
    if IsInteger(c) {
      var w, fl, base := args[sp.a].w, IntFlags(c, sp.fl), BaseOf(c);
      if IsSigned(c) {
        var value := SignedArg(w, fl);
        idx := NtoaLong(sink, idx0, Magnitude(value), value < 0, base, sp.prec, sp.width, fl);
      } else {
        idx := NtoaLong(sink, idx0, UnsignedArg(w, fl), false, base, sp.prec, sp.width, fl);
      }
    } else if c == 'c' {
      idx := OutChar(sink, idx0, ByteChar(args[sp.a].w), sp.width, sp.fl);
    } else if c == 's' {
      idx := OutStr(sink, idx0, args[sp.a].s, sp.width, sp.prec, sp.fl);
    } else if c == 'p' {
      idx := NtoaLong(sink, idx0, args[sp.a].w % WORD, false, 16, sp.prec, 16, PointerFlags(sp.fl));
    } else {
      sink.Out(c, idx0);
      idx := idx0 + 1;
      a := sp.a;
    }
  }

  /** _vsnprintf: whatever the limit of the buffer, the whole text is counted, and its first maxlen - 1
      characters and a NUL are what the buffer shows. */
  method Vsnprintf(sink: Sink, format: seq<char>, args: seq<Arg>) returns (r: int)
    requires sink.Valid() && sink.text == [] && ArgsOk(args)
    requires Render(format, 0, args, 0).Text?
    modifies sink`text, sink.buffer
    ensures sink.text == Render(format, 0, args, 0).text
    ensures Ends(sink.buffer[..], sink.original, sink.text, sink.maxlen)
    ensures r == ToInt32(|sink.text|)
  {
    hide Shows, Ends, Directive, Convert, ToInt32, ArgsOk;
    var idx, i, a := 0, 0, 0;
    while i < |format|
      invariant i >= 0 && a >= 0 && sink.Valid() && idx == |sink.text|
      invariant Render(format, 0, args, 0) == Prepend(sink.text, Render(format, i, args, a))
      decreases |format| - i
    {
      ghost var before := sink.text;
      if format[i] != '%' {
        sink.Out(format[i], idx);
        idx := idx + 1;
        RenderChar(format, i, args, a, before);
        i := i + 1;
      } else {
        var sp := ParseDirective(format, i + 1, args, a);
        RenderPiece(format, i, args, a, before);
        PrecisionFlag(format, i + 1, args, a);
        idx, i, a := OutPiece(sink, idx, format, sp, args);
      }
    }
    RenderEnd(format, i, args, a, sink.text);
    sink.Terminate(idx);
    r := ToInt32(idx);
  }

  lemma {:induction false} RenderChar(f: seq<char>, i: nat, args: seq<Arg>, a: nat, before: seq<char>)
    requires i < |f| && f[i] != '%'
    ensures Prepend(before, Render(f, i, args, a)) == Prepend(before + [f[i]], Render(f, i + 1, args, a))
  {
    hide Directive, Convert;
    var r := Render(f, i + 1, args, a);
    if r.Text? { assert before + ([f[i]] + r.text) == before + [f[i]] + r.text; }
  }

  lemma {:induction false} RenderPiece(f: seq<char>, i: nat, args: seq<Arg>, a: nat, before: seq<char>)
    requires i < |f| && f[i] == '%' && Prepend(before, Render(f, i, args, a)).Text?
    ensures var sp := Directive(f, i + 1, args, a);
            sp.Spec? && var p := Convert(f, sp, args);
            p.Piece? && i < p.i <= |f|
            && Prepend(before, Render(f, i, args, a)) == Prepend(before + p.text, Render(f, p.i, args, p.a))
  {
    hide Directive, Convert;
    var sp := Directive(f, i + 1, args, a);
    if sp.Spec? {
      var p := Convert(f, sp, args);
      if p.Piece? {
        var r := Render(f, p.i, args, p.a);
        if r.Text? { assert before + (p.text + r.text) == before + p.text + r.text; }
      }
    }
  }

  lemma {:induction false} RenderEnd(f: seq<char>, i: nat, args: seq<Arg>, a: nat, before: seq<char>)
    requires i >= |f|
    ensures Prepend(before, Render(f, i, args, a)) == Text(before)
  {
    assert before + [] == before;
  }

  // --------------------------------------------------------------- reading back

  predicate AllDigits(s: seq<char>) {
    forall k :: 0 <= k < |s| ==> IsDigit(s[k])
  }

  lemma {:induction false} DecimalDigits(value: nat, upper: bool, n: nat)
    requires n >= 1
    ensures AllDigits(DigitsUpTo(value, 10, upper, n))
    decreases n
  {
    hide Quot, Rem;
    if Quot(value, 10) != 0 && n > 1 { DecimalDigits(Quot(value, 10), upper, n - 1); }
  }

  lemma {:induction false} BodyDigits(value: nat, negative: bool, prec: nat, width: nat, fl: Flags)
    ensures AllDigits(Body(value, negative, 10, prec, width, fl))
  {
    hide DigitsUpTo;
    DecimalDigits(value, fl.uppercase, 32);
    var ds := DigitsOf(value, 10, fl);
    assert AllDigits(ds);
    hide DigitsOf;
    assert AllDigits(ZeroFill(ds, prec));
    assert AllDigits(Zeros(ds, prec, SignedWidth(negative, width, fl), fl));
  }

  /** Having read the first k digits, _atoi holds their value modulo 2^32. */
  lemma {:induction false} AtoiPrefix(s: seq<char>, k: nat)
    requires AllDigits(s) && k <= |s|
    ensures AtoiFrom(s, 0, 0) == AtoiFrom(s, k, Wrap32(ReadValue(s[..k], 10)))
  {
    hide Wrap32;
    if k > 0 {
      AtoiPrefix(s, k - 1);
      var r, d := ReadValue(s[..k - 1], 10), s[k - 1] as int - '0' as int;
      assert s[..k][..k - 1] == s[..k - 1];
      assert ReadValue(s[..k], 10) == r * 10 + DigitValue(s[k - 1]);
      WrapDigit(r, d);
    } else {
      SmallWrap32(0);
    }
  }

  lemma {:induction false} WrapDigit(r: int, d: int)
    ensures Wrap32(Wrap32(r) * 10 + d) == Wrap32(r * 10 + d)
  {
    var q := r / COUNTER;
    assert Wrap32(r) * 10 + d == r * 10 + d + COUNTER * (-10 * q);
    ModMultiple(r * 10 + d, -10 * q);
  }

  /** The digits kprintf prints in base 10, _atoi reads back: the value modulo 2^32, all of them used up. */
  lemma {:induction false} AtoiReadsBack(value: nat, negative: bool, prec: nat, width: nat, fl: Flags)
    requires value < WORD
    ensures var body := Body(value, negative, 10, prec, width, fl);
            AtoiFrom(body, 0, 0) == (Wrap32(value), |body|)
  {
    hide Wrap32, Body, ReadValue, AllDigits;
    var body := Body(value, negative, 10, prec, width, fl);
    BodyDigits(value, negative, prec, width, fl);
    AtoiPrefix(body, |body|);
    assert body[..|body|] == body;
    BodyValue(value, negative, 10, prec, width, fl);
    assert At(body, |body|) == NUL;
  }
}
