/**
 Directives as a programmer writes them, flags, width, precision and length letters, and what the formatter reads
 out of them.
 */
module PrintfDirectives {
  import opened Addresses
  import opened Arithmetic
  import opened Kprintf
  import opened PageFrames
  import opened Powers
  import opened PrintfLaws
  import opened PrintfText

  /** A width or precision: left out, written in decimal, or taken from the arguments. */
  datatype Amount = Absent | Number(n: nat) | Star

  /** The parts of a directive between the percent sign and the conversion character. */
  datatype Written = Written(flags: seq<char>, width: Amount, point: bool, prec: Amount, length: seq<char>)

  function Decimal(n: nat): seq<char> {
    Reverse(DigitsUpTo(n, 10, false, 32))
  }

  function AmountText(a: Amount): seq<char> {
    match a
    case Absent => ""
    case Number(n) => Decimal(n)
    case Star => "*"
  }

  function PrecisionText(w: Written): seq<char> {
    if w.point then "." + AmountText(w.prec) else ""
  }

  function SpecText(w: Written): seq<char> {
    w.flags + (AmountText(w.width) + (PrecisionText(w) + w.length))
  }

  predicate AllFlags(s: seq<char>) {
    forall k :: 0 <= k < |s| ==> IsFlag(s[k])
  }

  predicate IsLength(s: seq<char>) {
    s == "" || s == "l" || s == "ll" || s == "h" || s == "hh" || s == "t" || s == "j" || s == "z"
  }

  /** Numbers fit an unsigned int. A width of zero is left out: written, its digit would be a flag. */
  predicate WrittenOk(w: Written) {
    AllFlags(w.flags) && IsLength(w.length) && (!w.point ==> w.prec == Absent)
    && (w.width.Number? ==> 0 < w.width.n < COUNTER) && (w.prec.Number? ==> w.prec.n < COUNTER)
  }

  /** A character no part of a directive begins with, as every conversion character is. */
  predicate Stops(c: char) {
    !IsFlag(c) && !IsDigit(c) && c != '*' && c != '.' && c != 'l' && c != 'h' && c != 't' && c != 'j' && c != 'z'
  }

  function Stars(a: Amount): nat {
    if a.Star? then 1 else 0
  }

  /** The arguments the stars stand for are there. */
  predicate ArgsThere(w: Written, args: seq<Arg>, a: nat) {
    (w.width.Star? ==> HasWord(args, a)) && (w.prec.Star? ==> HasWord(args, a + Stars(w.width)))
  }

  /** The number an amount stands for, signed as an argument may be. */
  function AmountOf(m: Amount, args: seq<Arg>, a: nat): int
    requires m.Star? ==> HasWord(args, a)
  {
    match m
    case Absent => 0
    case Number(n) => n
    case Star => ToInt32(args[a].w)
  }

  /** What a directive says. A negative width means its size, to the left; a negative precision none. */
  function Meaning(w: Written, args: seq<Arg>, a: nat, end: nat): Spec
    requires ArgsThere(w, args, a)
  {
    var width, prec := AmountOf(w.width, args, a), AmountOf(w.prec, args, a + Stars(w.width));
    Spec(Flags('0' in w.flags, '-' in w.flags || width < 0, '+' in w.flags, ' ' in w.flags, '#' in w.flags, false,
               w.length == "hh", w.length == "h" || w.length == "hh",
               w.length == "l" || w.length == "ll" || w.length == "t" || w.length == "j" || w.length == "z",
               w.length == "ll", w.point),
         Abs(width), Max(prec, 0), end, a + Stars(w.width) + Stars(w.prec))
  }

  // -------------------------------------------------------------- reading the parts

  lemma {:induction false} Ahead(f: seq<char>, i: nat, s: seq<char>, t: seq<char>)
    requires i <= |f| && f[i..] == s + t
    ensures i + |s| <= |f| && f[i + |s|..] == t && At(f, i) == (if s == [] then At(t, 0) else s[0])
    ensures |s| > 1 || (|s| == 1 && t != []) ==> At(f, i + 1) == (s + t)[1]
    ensures |s| == 1 ==> At(f, i + 1) == At(t, 0)
  {
    assert f[i + |s|..] == f[i..][|s|..];
    assert |f| - i == |s| + |t|;
    assert |s + t| > 0 ==> f[i] == f[i..][0];
    assert |s + t| > 1 ==> f[i + 1] == f[i..][1];
  }

  /** Flags are read up to the first character that is none. */
  lemma {:induction false} FlagsRead(f: seq<char>, i: nat, s: seq<char>, t: seq<char>, fl: Flags)
    requires i <= |f| && f[i..] == s + t && AllFlags(s) && !IsFlag(At(t, 0))
    ensures FlagsFrom(f, i, fl) == (WithFlags(fl, s), i + |s|)
    decreases |s|
  {
    hide SetFlag, WithFlags;
    Ahead(f, i, s, t);
    NoFlags(fl, s);
    if s != [] {
      Ahead(f, i, s[..1], s[1..] + t);
      assert s[..1] + (s[1..] + t) == s + t;
      FlagsRead(f, i + 1, s[1..], t, SetFlag(fl, s[0]));
      FirstFlag(fl, s);
    }
  }

  /** The flags of s, besides those already set. */
  function WithFlags(fl: Flags, s: seq<char>): Flags {
    Flags(fl.zeropad || '0' in s, fl.left || '-' in s, fl.plus || '+' in s, fl.space || ' ' in s, fl.hash || '#' in s,
          fl.uppercase, fl.char8, fl.short16, fl.long64, fl.longlong, fl.precision)
  }

  lemma {:induction false} NoFlags(fl: Flags, s: seq<char>)
    ensures s == [] ==> WithFlags(fl, s) == fl
  {
  }

  lemma {:induction false} FirstFlag(fl: Flags, s: seq<char>)
    requires s != [] && AllFlags(s) && IsFlag(s[0])
    ensures WithFlags(SetFlag(fl, s[0]), s[1..]) == WithFlags(fl, s)
  {
    hide SetFlag, AllFlags, WithFlags, OthersKept, IsFlag;
    var one := SetFlag(fl, s[0]);
    OneFlag(fl, s[0]);
    WithFlagsIs(one, s[1..]);
    WithFlagsIs(fl, s);
    KeptTwice(fl, one, WithFlags(one, s[1..]), WithFlags(fl, s));
    FirstOf('0', s);
    FirstOf('-', s);
    FirstOf('+', s);
    FirstOf(' ', s);
    FirstOf('#', s);
    SameFlags(WithFlags(one, s[1..]), WithFlags(fl, s));
  }

  lemma {:induction false} FirstOf(c: char, s: seq<char>)
    requires s != []
    ensures c in s <==> s[0] == c || c in s[1..]
  {
    assert s == [s[0]] + s[1..];
  }

  lemma {:induction false} OneFlag(fl: Flags, c: char)
    requires IsFlag(c)
    ensures var r := SetFlag(fl, c);
            r.zeropad == (fl.zeropad || c == '0') && r.left == (fl.left || c == '-') && r.plus == (fl.plus || c == '+')
            && r.space == (fl.space || c == ' ') && r.hash == (fl.hash || c == '#') && OthersKept(fl, r)
  {
  }

  /** The fields no flag character sets. */
  predicate OthersKept(fl: Flags, r: Flags) {
    r.uppercase == fl.uppercase && r.char8 == fl.char8 && r.short16 == fl.short16 && r.long64 == fl.long64
    && r.longlong == fl.longlong && r.precision == fl.precision
  }

  lemma {:induction false} WithFlagsIs(fl: Flags, s: seq<char>)
    ensures var r := WithFlags(fl, s);
            r.zeropad == (fl.zeropad || '0' in s) && r.left == (fl.left || '-' in s) && r.plus == (fl.plus || '+' in s)
            && r.space == (fl.space || ' ' in s) && r.hash == (fl.hash || '#' in s) && OthersKept(fl, r)
  {
  }

  lemma {:induction false} SameFlags(a: Flags, b: Flags)
    requires a.zeropad == b.zeropad && a.left == b.left && a.plus == b.plus && a.space == b.space && a.hash == b.hash
    requires OthersKept(a, b)
    ensures a == b
  {
  }

  lemma {:induction false} KeptTwice(a: Flags, b: Flags, c: Flags, d: Flags)
    requires OthersKept(a, b) && OthersKept(b, c) && OthersKept(a, d)
    ensures OthersKept(c, d)
  {
  }

  /** Having read k digits, _atoi holds their value modulo 2^32. */
  lemma {:induction false} AtoiAhead(f: seq<char>, i: nat, s: seq<char>, t: seq<char>, k: nat)
    requires i <= |f| && f[i..] == s + t && AllDigits(s) && k <= |s|
    ensures AtoiFrom(f, i, 0) == AtoiFrom(f, i + k, Wrap32(ReadValue(s[..k], 10)))
  {
    hide Wrap32;
    if k > 0 {
      AtoiAhead(f, i, s, t, k - 1);
      var d := s[k - 1] as int - '0' as int;
      assert s[..k][..k - 1] == s[..k - 1];
      assert f[i + k - 1] == f[i..][k - 1] == s[k - 1];
      WrapDigit(ReadValue(s[..k - 1], 10), d);
    } else {
      SmallWrap32(0);
    }
  }

  lemma {:induction false} DecimalDigitsOnly(n: nat)
    ensures AllDigits(Decimal(n)) && |Decimal(n)| >= 1
  {
    hide DigitsUpTo;
    DecimalDigits(n, false, 32);
  }

  /** A number written in decimal is read back, up to the first character that is no digit. */
  lemma {:induction false} DecimalRead(f: seq<char>, i: nat, n: nat, t: seq<char>)
    requires i <= |f| && f[i..] == Decimal(n) + t && n < COUNTER && !IsDigit(At(t, 0))
    ensures AtoiFrom(f, i, 0) == (n, i + |Decimal(n)|) && IsDigit(At(f, i))
  {
    hide Wrap32, Decimal, ReadValue, AllDigits;
    var s := Decimal(n);
    Ahead(f, i, s, t);
    Ahead(f, i + |s|, [], t);
    assert f[i + |s|..] == [] + t;
    DecimalDigitsOnly(n);
    FirstIsDigit(s);
    AtoiAhead(f, i, s, t, |s|);
    assert s[..|s|] == s;
    DecimalValue(n);
    SmallWrap32(n);
  }

  lemma {:induction false} FirstIsDigit(s: seq<char>)
    requires AllDigits(s) && s != []
    ensures IsDigit(s[0])
  {
  }

  lemma {:induction false} DecimalValue(n: nat)
    requires n < COUNTER
    ensures ReadValue(Decimal(n), 10) == n
  {
    hide DigitsUpTo, Power, Reverse, ReadValue, ValueOf;
    ReadReverse(DigitsUpTo(n, 10, false, 32), 10);
    DigitCount(n, 10, false);
    DigitsExact(n, 10, false);
  }

  /** A number above zero does not begin with a zero, which would be a flag. */
  lemma {:induction false} NoLeadingZero(n: nat)
    requires 0 < n < COUNTER
    ensures |Decimal(n)| >= 1 && !IsFlag(Decimal(n)[0])
  {
    hide DigitsUpTo, Power, Reverse, ValueOf, BelowBase;
    var ds := DigitsUpTo(n, 10, false, 32);
    var k := |ds| - 1;
    DigitCount(n, 10, false);
    DigitsExact(n, 10, false);
    DigitsTop(n, 10, false, 32);
    DigitsBelow(n, 10, false, 32);
    PrefixBelow(ds, 10, k);
    ZerosValue(ds[..k], 1, 10);
    assert ds == ds[..k] + [ds[k]];
    OneZero();
    LastFirst(ds);
    DecimalDigitsOnly(n);
  }

  lemma {:induction false} OneZero()
    ensures Repeat('0', 1) == "0"
  {
  }

  lemma {:induction false} LastFirst(s: seq<char>)
    requires s != []
    ensures |Reverse(s)| == |s| && Reverse(s)[0] == s[|s| - 1]
  {
  }

  function LeftWhen(fl: Flags, b: bool): Flags {
    if b then fl.(left := true) else fl
  }

  function PointWhen(fl: Flags, b: bool): Flags {
    if b then fl.(precision := true) else fl
  }

  lemma {:induction false} WidthRead(f: seq<char>, i: nat, m: Amount, t: seq<char>, args: seq<Arg>, a: nat, fl: Flags)
    requires i <= |f| && f[i..] == AmountText(m) + t && (m.Number? ==> m.n < COUNTER) && (m.Star? ==> HasWord(args, a))
    requires !IsDigit(At(t, 0)) && At(t, 0) != '*'
    ensures var v := AmountOf(m, args, a);
            WidthField(f, i, args, a, fl)
            == Field(Abs(v), LeftWhen(fl, v < 0), i + |AmountText(m)|, a + Stars(m))
  {
    hide Decimal, ToInt32, Wrap32, AtoiFrom;
    Ahead(f, i, AmountText(m), t);
    if m.Number? {
      DecimalRead(f, i, m.n, t);
    } else if m.Star? {
      IntRange(args[a].w);
      if ToInt32(args[a].w) < 0 { SmallWrap32(-ToInt32(args[a].w)); }
    }
  }

  lemma {:induction false} IntRange(w: nat)
    ensures -0x8000_0000 <= ToInt32(w) < 0x8000_0000
  {
  }

  lemma {:induction false} PrecisionRead(f: seq<char>, i: nat, w: Written, t: seq<char>, args: seq<Arg>, a: nat,
                                         fl: Flags)
    requires i <= |f| && f[i..] == PrecisionText(w) + t && WrittenOk(w) && (w.prec.Star? ==> HasWord(args, a))
    requires !IsDigit(At(t, 0)) && At(t, 0) != '*' && At(t, 0) != '.'
    ensures PrecisionField(f, i, args, a, fl)
         == Field(Max(AmountOf(w.prec, args, a), 0), PointWhen(fl, w.point), i + |PrecisionText(w)|, a + Stars(w.prec))
  {
    hide Decimal, ToInt32, AtoiFrom, AllFlags, IsLength;
    Ahead(f, i, PrecisionText(w), t);
    if w.point {
      var m := AmountText(w.prec);
      assert "." + (m + t) == PrecisionText(w) + t;
      Ahead(f, i, ".", m + t);
      Ahead(f, i + 1, m, t);
      if w.prec.Number? { DecimalRead(f, i + 1, w.prec.n, t); }
    }
  }

  /** The flags a length sets, besides those already set. */
  function WithLength(fl: Flags, s: seq<char>): Flags {
    Flags(fl.zeropad, fl.left, fl.plus, fl.space, fl.hash, fl.uppercase, fl.char8 || s == "hh",
          fl.short16 || s == "h" || s == "hh",
          fl.long64 || s == "l" || s == "ll" || s == "t" || s == "j" || s == "z", fl.longlong || s == "ll",
          fl.precision)
  }

  lemma {:induction false} LengthRead(f: seq<char>, i: nat, s: seq<char>, t: seq<char>, fl: Flags)
    requires i <= |f| && f[i..] == s + t && IsLength(s) && Stops(At(t, 0))
    ensures LengthSize(f, i) == |s| && LengthFlags(At(f, i), |s|, fl) == WithLength(fl, s)
  {
    hide LengthFlags, WithLength;
    LengthSpan(f, i, s, t);
    Ahead(f, i, s, t);
    if s == [] { NoLength(At(t, 0), fl); } else { LengthSets(s, fl); }
  }

  lemma {:induction false} LengthSpan(f: seq<char>, i: nat, s: seq<char>, t: seq<char>)
    requires i <= |f| && f[i..] == s + t && IsLength(s) && Stops(At(t, 0))
    ensures LengthSize(f, i) == |s|
  {
    Ahead(f, i, s, t);
  }

  lemma {:induction false} NoLength(c: char, fl: Flags)
    ensures LengthFlags(c, 0, fl) == WithLength(fl, [])
  {
  }

  lemma {:induction false} LengthSets(s: seq<char>, fl: Flags)
    requires IsLength(s) && s != []
    ensures LengthFlags(s[0], |s|, fl) == WithLength(fl, s)
  {
    hide IsLength, WithLength;
    HalfLetters(s);
    LongLetters(s);
    WithLengthIs(fl, s, s[0] == 'h', |s| == 2);
  }

  lemma {:induction false} HalfLetters(s: seq<char>)
    requires IsLength(s) && s != []
    ensures s[0] == 'h' <==> s == "h" || s == "hh"
    ensures s[0] == 'h' && |s| == 2 <==> s == "hh"
  {
  }

  lemma {:induction false} LongLetters(s: seq<char>)
    requires IsLength(s) && s != []
    ensures s[0] != 'h' <==> s == "l" || s == "ll" || s == "t" || s == "j" || s == "z"
    ensures s[0] != 'h' && |s| == 2 <==> s == "ll"
  {
  }

  lemma {:induction false} WithLengthIs(fl: Flags, s: seq<char>, half: bool, two: bool)
    requires (half && two <==> s == "hh") && (half <==> s == "h" || s == "hh") && (!half && two <==> s == "ll")
    requires !half <==> s == "l" || s == "ll" || s == "t" || s == "j" || s == "z"
    ensures WithLength(fl, s)
         == Flags(fl.zeropad, fl.left, fl.plus, fl.space, fl.hash, fl.uppercase, fl.char8 || (half && two),
                  fl.short16 || half, fl.long64 || !half, fl.longlong || (!half && two), fl.precision)
  {
  }

  /** Where each part ends, the next character is none of its own. */
  predicate PartsApart(w: Written, rest: seq<char>) {
    !IsFlag(At(FromWidth(w, rest), 0)) && Beyond(At(FromPrecision(w, rest), 0)) && Beyond(At(FromLength(w, rest), 0))
    && At(FromLength(w, rest), 0) != '.'
  }

  predicate Beyond(c: char) {
    !IsDigit(c) && c != '*'
  }

  lemma {:induction false} Ends(w: Written, rest: seq<char>)
    requires WrittenOk(w) && Stops(At(rest, 0))
    ensures PartsApart(w, rest)
  {
    hide Decimal, AllFlags;
    if w.width.Number? { NoLeadingZero(w.width.n); }
  }

  lemma {:induction false} MeaningIs(w: Written, args: seq<Arg>, a: nat, end: nat, v: int, p: int)
    requires ArgsThere(w, args, a) && v == AmountOf(w.width, args, a) && p == AmountOf(w.prec, args, a + Stars(w.width))
    ensures Meaning(w, args, a, end)
         == Spec(WithLength(PointWhen(LeftWhen(WithFlags(NO_FLAGS, w.flags), v < 0), w.point), w.length), Abs(v),
                 Max(p, 0), end, a + Stars(w.width) + Stars(w.prec))
  {
    hide AmountOf, Abs, Max;
  }

  /** Reading part by part. */
  lemma {:induction false} PartsRead(f: seq<char>, i: nat, args: seq<Arg>, a: nat, fl: Flags, j: nat, w: Field,
                                     p: Field,
                                     n: nat, fl4: Flags)
    requires FlagsFrom(f, i, NO_FLAGS) == (fl, j) && w == WidthField(f, j, args, a, fl) && w.Field?
    requires p == PrecisionField(f, w.i, args, w.a, w.fl) && p.Field?
    requires n == LengthSize(f, p.i) && fl4 == LengthFlags(At(f, p.i), n, p.fl)
    ensures Directive(f, i, args, a) == Spec(fl4, w.value, p.value, p.i + n, p.a)
  {
    hide FlagsFrom, WidthField, PrecisionField, LengthSize, LengthFlags, At;
  }

  lemma {:induction false} SpecSize(w: Written)
    ensures |SpecText(w)| == |w.flags| + |AmountText(w.width)| + |PrecisionText(w)| + |w.length|
  {
    hide AmountText, PrecisionText;
  }

  /** What stands in a format from a directive's flags on. */
  function From(w: Written, rest: seq<char>): seq<char> {
    w.flags + FromWidth(w, rest)
  }

  function FromWidth(w: Written, rest: seq<char>): seq<char> {
    AmountText(w.width) + FromPrecision(w, rest)
  }

  function FromPrecision(w: Written, rest: seq<char>): seq<char> {
    PrecisionText(w) + FromLength(w, rest)
  }

  function FromLength(w: Written, rest: seq<char>): seq<char> {
    w.length + rest
  }

  lemma {:induction false} DirectiveAt(f: seq<char>, i: nat, w: Written, rest: seq<char>, args: seq<Arg>, a: nat)
    requires i <= |f| && f[i..] == From(w, rest) && WrittenOk(w) && Stops(At(rest, 0)) && ArgsThere(w, args, a)
    ensures Directive(f, i, args, a) == Meaning(w, args, a, i + |SpecText(w)|)
  {
    hide *;
    Ends(w, rest);
    StarsThere(w, args, a);
    var fl1, j := WithFlags(NO_FLAGS, w.flags), i + |w.flags|;
    FlagsPart(f, i, w, rest);
    var wf := WidthPart(f, j, w, rest, args, a, fl1);
    var pf := PrecisionPart(f, wf.i, w, rest, args, wf.a, wf.fl);
    var fl4 := LengthPart(f, pf.i, w, rest, pf.fl);
    PartsRead(f, i, args, a, fl1, j, wf, pf, |w.length|, fl4);
    SpecSize(w);
    MeaningIs(w, args, a, i + |SpecText(w)|, AmountOf(w.width, args, a), AmountOf(w.prec, args, a + Stars(w.width)));
  }

  lemma {:induction false} StarsThere(w: Written, args: seq<Arg>, a: nat)
    requires ArgsThere(w, args, a)
    ensures w.width.Star? ==> HasWord(args, a)
    ensures w.prec.Star? ==> HasWord(args, a + Stars(w.width))
  {
  }

  lemma {:induction false} FlagsPart(f: seq<char>, i: nat, w: Written, rest: seq<char>)
    requires i <= |f| && f[i..] == From(w, rest) && WrittenOk(w) && PartsApart(w, rest)
    ensures FlagsFrom(f, i, NO_FLAGS) == (WithFlags(NO_FLAGS, w.flags), i + |w.flags|)
    ensures i + |w.flags| <= |f| && f[i + |w.flags|..] == FromWidth(w, rest)
  {
    hide FlagsFrom, WithFlags, FromWidth, FromPrecision, IsFlag, IsDigit, AllFlags;
    FlagsRead(f, i, w.flags, FromWidth(w, rest), NO_FLAGS);
    Ahead(f, i, w.flags, FromWidth(w, rest));
  }

  lemma {:induction false} WidthPart(f: seq<char>, i: nat, w: Written, rest: seq<char>, args: seq<Arg>, a: nat,
                                     fl: Flags)
      returns (r: Field)
    requires i <= |f| && f[i..] == FromWidth(w, rest) && WrittenOk(w) && PartsApart(w, rest) && ArgsThere(w, args, a)
    ensures r == WidthField(f, i, args, a, fl)
    ensures var v := AmountOf(w.width, args, a);
            r == Field(Abs(v), LeftWhen(fl, v < 0), i + |AmountText(w.width)|, a + Stars(w.width))
    ensures i + |AmountText(w.width)| <= |f| && f[i + |AmountText(w.width)|..] == FromPrecision(w, rest)
  {
    hide WidthField, FromPrecision, IsFlag, IsDigit, AllFlags, IsLength, AmountText, AmountOf, Abs, LeftWhen,
         FromLength,
         PrecisionText;
    WidthRead(f, i, w.width, FromPrecision(w, rest), args, a, fl);
    Ahead(f, i, AmountText(w.width), FromPrecision(w, rest));
    r := WidthField(f, i, args, a, fl);
  }

  lemma {:induction false} PrecisionPart(f: seq<char>, i: nat, w: Written, rest: seq<char>, args: seq<Arg>, a: nat,
                                         fl: Flags) returns (r: Field)
    requires i <= |f| && f[i..] == FromPrecision(w, rest) && WrittenOk(w) && PartsApart(w, rest)
    requires w.prec.Star? ==> HasWord(args, a)
    ensures r == PrecisionField(f, i, args, a, fl)
         == Field(Max(AmountOf(w.prec, args, a), 0), PointWhen(fl, w.point), i + |PrecisionText(w)|, a + Stars(w.prec))
    ensures i + |PrecisionText(w)| <= |f| && f[i + |PrecisionText(w)|..] == FromLength(w, rest)
  {
    hide PrecisionField, FromLength, IsFlag, IsDigit, AllFlags, IsLength, AmountOf, Max, PointWhen, PrecisionText;
    PrecisionRead(f, i, w, FromLength(w, rest), args, a, fl);
    Ahead(f, i, PrecisionText(w), FromLength(w, rest));
    r := PrecisionField(f, i, args, a, fl);
  }

  lemma {:induction false} LengthPart(f: seq<char>, i: nat, w: Written, rest: seq<char>, fl: Flags) returns (r: Flags)
    requires i <= |f| && f[i..] == FromLength(w, rest) && WrittenOk(w) && Stops(At(rest, 0))
    ensures LengthSize(f, i) == |w.length| && r == LengthFlags(At(f, i), |w.length|, fl) == WithLength(fl, w.length)
  {
    hide LengthSize, LengthFlags, WithLength, IsLength, AllFlags, Stops;
    LengthRead(f, i, w.length, rest, fl);
    r := WithLength(fl, w.length);
  }

  lemma {:induction false} SpecBehind(pre: seq<char>, w: Written, rest: seq<char>)
    ensures |pre + SpecText(w) + rest| >= |pre| && (pre + SpecText(w) + rest)[|pre|..] == From(w, rest)
  {
    hide AmountText, PrecisionText;
    assert (pre + SpecText(w) + rest)[|pre|..] == SpecText(w) + rest;
  }

  /** A directive that was written out is read back: flags, width, precision, length and where it ends, whatever
      stands before it, and with the arguments its stars stand for used up. */
  lemma {:induction false} DirectiveRead(pre: seq<char>, w: Written, rest: seq<char>, args: seq<Arg>, a: nat)
    requires WrittenOk(w) && Stops(At(rest, 0)) && ArgsThere(w, args, a)
    ensures Directive(pre + SpecText(w) + rest, |pre|, args, a) == Meaning(w, args, a, |pre| + |SpecText(w)|)
  {
    hide *;
    SpecBehind(pre, w, rest);
    DirectiveAt(pre + SpecText(w) + rest, |pre|, w, rest, args, a);
  }
}
