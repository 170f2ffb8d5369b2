/**
 What every written directive prints, told from its characters: base, sign, letters and the bits kept of the argument,
 strings and characters as explicit texts, and how the texts of a format follow one another.
 */
module PrintfConversions {
  import opened Addresses
  import opened Arithmetic
  import opened Kprintf
  import opened PageFrames
  import opened Powers
  import opened PrintfDirectives
  import opened PrintfLaws
  import opened PrintfText

  // -------------------------------------------------------- formats put together

  lemma {:induction false} AtBehind(pre: seq<char>, f: seq<char>, i: nat)
    ensures At(pre + f, |pre| + i) == At(f, i)
  {
  }

  lemma {:induction false} FlagsBehind(pre: seq<char>, f: seq<char>, i: nat, fl: Flags)
    ensures FlagsFrom(pre + f, |pre| + i, fl) == (FlagsFrom(f, i, fl).0, |pre| + FlagsFrom(f, i, fl).1)
    decreases |f| - i
  {
    hide SetFlag;
    AtBehind(pre, f, i);
    if IsFlag(At(f, i)) { FlagsBehind(pre, f, i + 1, SetFlag(fl, At(f, i))); }
  }

  lemma {:induction false} AtoiBehind(pre: seq<char>, f: seq<char>, i: nat, acc: nat)
    ensures AtoiFrom(pre + f, |pre| + i, acc) == (AtoiFrom(f, i, acc).0, |pre| + AtoiFrom(f, i, acc).1)
    decreases |f| - i
  {
    hide Wrap32;
    AtBehind(pre, f, i);
    if IsDigit(At(f, i)) { AtoiBehind(pre, f, i + 1, Wrap32(acc * 10 + (At(f, i) as int - '0' as int))); }
  }

  /** A field read n characters further on. */
  function FieldAt(n: nat, r: Field): Field {
    match r
    case Field(v, fl, i, a) => Field(v, fl, n + i, a)
    case NoField => NoField
  }

  function SpecAt(n: nat, sp: Spec): Spec {
    match sp
    case Spec(fl, width, prec, i, a) => Spec(fl, width, prec, n + i, a)
    case NoSpec => NoSpec
  }

  lemma {:induction false} WidthBehind(pre: seq<char>, f: seq<char>, i: nat, args: seq<Arg>, a: nat, fl: Flags)
    ensures WidthField(pre + f, |pre| + i, args, a, fl) == FieldAt(|pre|, WidthField(f, i, args, a, fl))
  {
    hide AtoiFrom, ToInt32, Wrap32, At;
    AtBehind(pre, f, i);
    AtoiBehind(pre, f, i, 0);
  }

  lemma {:induction false} PrecisionBehind(pre: seq<char>, f: seq<char>, i: nat, args: seq<Arg>, a: nat, fl: Flags)
    ensures PrecisionField(pre + f, |pre| + i, args, a, fl) == FieldAt(|pre|, PrecisionField(f, i, args, a, fl))
  {
    hide AtoiFrom, ToInt32, At;
    AtBehind(pre, f, i);
    AtBehind(pre, f, i + 1);
    AtoiBehind(pre, f, i + 1, 0);
  }

  lemma {:induction false} LengthBehind(pre: seq<char>, f: seq<char>, i: nat)
    ensures LengthSize(pre + f, |pre| + i) == LengthSize(f, i)
  {
    hide At;
    AtBehind(pre, f, i);
    AtBehind(pre, f, i + 1);
  }

  lemma {:induction false} DirectiveBehind(pre: seq<char>, f: seq<char>, i: nat, args: seq<Arg>, a: nat)
    ensures Directive(pre + f, |pre| + i, args, a) == SpecAt(|pre|, Directive(f, i, args, a))
  {
    hide FlagsFrom, WidthField, PrecisionField, LengthSize, LengthFlags, At;
    var (fl, j) := FlagsFrom(f, i, NO_FLAGS);
    FlagsBehind(pre, f, i, NO_FLAGS);
    WidthBehind(pre, f, j, args, a, fl);
    var w := WidthField(f, j, args, a, fl);
    if w.Field? {
      PrecisionBehind(pre, f, w.i, args, w.a, w.fl);
      var p := PrecisionField(f, w.i, args, w.a, w.fl);
      if p.Field? {
        LengthBehind(pre, f, p.i);
        AtBehind(pre, f, p.i);
      }
    }
  }

  lemma {:induction false} ConvertBehind(pre: seq<char>, f: seq<char>, sp: Spec, args: seq<Arg>)
    requires sp.Spec?
    ensures var p := Convert(f, sp, args);
            Convert(pre + f, SpecAt(|pre|, sp), args)
            == if p.Piece? then Piece(p.text, |pre| + p.i, p.a) else NoPiece
  {
    hide IntText, IntFlags, SignedArg, UnsignedArg, BaseOf, Spaced, PointerFlags, Min;
  }

  /** What is printed does not depend on the text before. */
  lemma {:induction false} RenderBehind(pre: seq<char>, f: seq<char>, i: nat, args: seq<Arg>, a: nat)
    ensures Render(pre + f, |pre| + i, args, a) == Render(f, i, args, a)
    decreases |f| - i
  {
    hide Directive, Convert, SpecAt;
    if i < |f| {
      if f[i] != '%' {
        RenderBehind(pre, f, i + 1, args, a);
      } else {
        DirectiveBehind(pre, f, i + 1, args, a);
        var sp := Directive(f, i + 1, args, a);
        SpecMoved(|pre|, sp);
        if sp.Spec? {
          ConvertBehind(pre, f, sp, args);
          var p := Convert(f, sp, args);
          if p.Piece? { RenderBehind(pre, f, p.i, args, p.a); }
        }
      }
    }
  }

  lemma {:induction false} SpecMoved(n: nat, sp: Spec)
    ensures SpecAt(n, sp).Spec? <==> sp.Spec?
  {
  }

  /** Text without a percent sign is printed as it is. */
  lemma {:induction false} TextPrinted(pre: seq<char>, f: seq<char>, args: seq<Arg>, a: nat)
    requires '%' !in pre
    ensures Render(pre + f, 0, args, a) == Prepend(pre, Render(f, 0, args, a))
    decreases |pre|
  {
    hide Directive, Convert;
    var r := Render(f, 0, args, a);
    if pre == [] {
      assert pre + f == f;
      if r.Text? { assert [] + r.text == r.text; }
    } else {
      var tail := pre[1..] + f;
      assert pre + f == [pre[0]] + tail;
      TextPrinted(pre[1..], f, args, a);
      RenderBehind([pre[0]], tail, 0, args, a);
      if r.Text? { assert [pre[0]] + (pre[1..] + r.text) == pre + r.text; }
    }
  }

  /** Wherever the directive stands, its text comes between the text before it and what the rest of the format
      prints, which goes on with argument next. */
  ghost predicate PrintsAs(w: Written, c: char, args: seq<Arg>, a: nat, text: seq<char>, next: nat) {
    forall pre, rest :: '%' !in pre ==>
      Render(pre + ("%" + SpecText(w) + [c]) + rest, 0, args, a) == Prepend(pre + text, Render(rest, 0, args, next))
  }

  /** One directive at the front of a format. */
  lemma {:induction false} DirectivePrinted(w: Written, c: char, rest: seq<char>, args: seq<Arg>, a: nat,
                                            text: seq<char>, next: nat)
    requires WrittenOk(w) && Stops(c) && ArgsThere(w, args, a)
    requires Convert([c] + rest, Meaning(w, args, a, 0), args) == Piece(text, 1, next)
    ensures Render("%" + SpecText(w) + [c] + rest, 0, args, a) == Prepend(text, Render(rest, 0, args, next))
  {
    hide Directive, Convert, Stops, SpecText, Meaning;
    var all, front := "%" + SpecText(w) + [c] + rest, "%" + SpecText(w);
    assert all == front + ([c] + rest);
    assert At([c] + rest, 0) == c;
    DirectiveRead("%", w, [c] + rest, args, a);
    MeaningMoved(w, args, a, |front|);
    ConvertBehind(front, [c] + rest, Meaning(w, args, a, 0), args);
    RenderBehind(front + [c], rest, 0, args, next);
    assert all == (front + [c]) + rest;
  }

  lemma {:induction false} MeaningMoved(w: Written, args: seq<Arg>, a: nat, n: nat)
    requires ArgsThere(w, args, a)
    ensures Meaning(w, args, a, 0).Spec? && SpecAt(n, Meaning(w, args, a, 0)) == Meaning(w, args, a, n)
  {
    hide AmountOf, Abs, Max;
  }

  lemma {:induction false} Anywhere(w: Written, c: char, args: seq<Arg>, a: nat, text: seq<char>, next: nat)
    requires WrittenOk(w) && Stops(c) && ArgsThere(w, args, a)
    requires forall rest :: Convert([c] + rest, Meaning(w, args, a, 0), args) == Piece(text, 1, next)
    ensures PrintsAs(w, c, args, a, text, next)
  {
    hide Convert, Stops, SpecText, Meaning, WrittenOk, ArgsThere, Render;
    forall pre, rest | '%' !in pre
      ensures Render(pre + ("%" + SpecText(w) + [c]) + rest, 0, args, a)
           == Prepend(pre + text, Render(rest, 0, args, next))
    {
      var f, r := "%" + SpecText(w) + [c] + rest, Render(rest, 0, args, next);
      DirectivePrinted(w, c, rest, args, a, text, next);
      assert pre + ("%" + SpecText(w) + [c]) + rest == pre + f;
      TextPrinted(pre, f, args, a);
      if r.Text? { assert pre + (text + r.text) == pre + text + r.text; }
    }
  }

  // ------------------------------------------------------- characters and strings

  /** The argument behind those the stars stand for. */
  function Next(w: Written, a: nat): nat {
    a + Stars(w.width) + Stars(w.prec)
  }

  /** A character, in as many columns as the width asks for. */
  lemma {:induction false} CharPrinted(w: Written, args: seq<Arg>, a: nat)
    requires WrittenOk(w) && ArgsThere(w, args, a) && HasWord(args, Next(w, a))
    ensures var width, c := AmountOf(w.width, args, a), (args[Next(w, a)].w % 256) as char;
            var pad := Repeat(' ', Abs(width) - 1);
            PrintsAs(w, 'c', args, a, if '-' in w.flags || width < 0 then [c] + pad else pad + [c], Next(w, a) + 1)
  {
    hide WrittenOk, AmountOf, Repeat, PrintsAs;
    var width, c := AmountOf(w.width, args, a), (args[Next(w, a)].w % 256) as char;
    var pad := Repeat(' ', Abs(width) - 1);
    Anywhere(w, 'c', args, a, if '-' in w.flags || width < 0 then [c] + pad else pad + [c], Next(w, a) + 1);
  }

  /** A string, or as much of it as the precision allows, in as many columns as the width asks for. */
  lemma {:induction false} StringPrinted(w: Written, args: seq<Arg>, a: nat)
    requires WrittenOk(w) && ArgsThere(w, args, a) && HasStr(args, Next(w, a))
    ensures var width, prec := AmountOf(w.width, args, a), AmountOf(w.prec, args, a + Stars(w.width));
            var s := args[Next(w, a)].s;
            var part := if !w.point || prec >= |s| then s else if prec <= 0 then "" else s[..prec];
            var pad := Repeat(' ', Abs(width) - |part|);
            PrintsAs(w, 's', args, a, if '-' in w.flags || width < 0 then part + pad else pad + part, Next(w, a) + 1)
  {
    hide WrittenOk, AmountOf, Repeat, PrintsAs;
    var width, prec := AmountOf(w.width, args, a), AmountOf(w.prec, args, a + Stars(w.width));
    var s := args[Next(w, a)].s;
    var part := if !w.point || prec >= |s| then s else if prec <= 0 then "" else s[..prec];
    var pad := Repeat(' ', Abs(width) - |part|);
    assert part == StrPart(s, Meaning(w, args, a, 0));
    Anywhere(w, 's', args, a, if '-' in w.flags || width < 0 then part + pad else pad + part, Next(w, a) + 1);
  }

  /** Any other character stands for itself, the percent sign among them, and takes no argument. */
  lemma {:induction false} OtherPrinted(w: Written, c: char, args: seq<Arg>, a: nat)
    requires WrittenOk(w) && ArgsThere(w, args, a) && Stops(c)
    requires c !in "diuxXobcsp"
    ensures PrintsAs(w, c, args, a, [c], Next(w, a))
  {
    hide WrittenOk, AmountOf, PrintsAs;
    OtherCharacter(c);
    Anywhere(w, c, args, a, [c], Next(w, a));
  }

  lemma {:induction false} OtherCharacter(c: char)
    requires c !in "diuxXobcsp"
    ensures !IsInteger(c) && c != 'c' && c != 's' && c != 'p'
  {
    var s := "diuxXobcsp";
    assert s[0] == 'd' && s[1] == 'i' && s[2] == 'u' && s[3] == 'x' && s[4] == 'X';
    assert s[5] == 'o' && s[6] == 'b' && s[7] == 'c' && s[8] == 's' && s[9] == 'p';
  }

  // ------------------------------------------------------------------- numbers

  function Letters(upper: bool): seq<char> {
    if upper then "0123456789ABCDEF" else "0123456789abcdef"
  }

  /** Each digit is the letter of its value, and is read as it. */
  lemma {:induction false} DigitLetters(d: nat, upper: bool)
    requires d < 16
    ensures DigitChar(d, upper) == Letters(upper)[d] && DigitValue(Letters(upper)[d]) == d
  {
  }

  /** A value in a base, without leading zeros; none of its digits if it is a zero with a precision; and in base 2
      no more than 32 digits of it. */
  predicate IsNumber(ds: seq<char>, value: nat, base: int, upper: bool, point: bool)
    requires 2 <= base <= 16
  {
    (forall k :: 0 <= k < |ds| ==> ds[k] in Letters(upper)[..base])
    && if value == 0 && point then ds == ""
       else if base == 2 && value >= 0x1_0000_0000 then |ds| == 32 && ReadValue(ds, 2) == value % 0x1_0000_0000
       else ds != "" && (ds[0] == '0' ==> ds == "0") && ReadValue(ds, base) == value
  }

  /** An integer as it is printed: spaces, sign, mark of the base, zeros, digits, spaces. */
  datatype Shown = Shown(before: nat, sign: seq<char>, mark: seq<char>, zeros: nat, digits: seq<char>, after: nat)

  function Laid(s: Shown): seq<char> {
    Repeat(' ', s.before) + (s.sign + (s.mark + (Repeat('0', s.zeros) + s.digits))) + Repeat(' ', s.after)
  }

  /** What a directive asks for. */
  datatype Asked = Asked(sign: seq<char>, mark: seq<char>, base: int, prec: nat, width: nat, left: bool, zeropad: bool,
                         point: bool)

  /** How a number of so many digits is laid out in 32 characters. Zeros fill precision and width, unless it stands
      to the left; a mark first takes one digit, two in base 16, from a number that fills the width and was given no
      precision; then as much of mark and sign is put in front as there is room for; spaces fill the width. */
  predicate LaidOut(s: Shown, digits: seq<char>, k: Asked) {
    var d := |digits|;
    var room := if !k.left && k.zeropad && k.width > 0 && k.sign != "" then k.width - 1 else k.width;
    var z := if k.left then d else Max(Max(d, Min(k.prec, 32)), if k.zeropad then Min(room, 32) else 0);
    var full := k.mark != "" && !k.point && z > 0 && (z == k.prec || z == room);
    var kept := if !full then z else if k.base == 16 && z > 1 then z - 2 else z - 1;
    var spaces := Max(0, room - |s.sign| - |s.mark| - kept);
    s.digits == digits[d - Min(d, kept)..] && s.zeros == kept - Min(d, kept)
    && s.mark == k.mark[|k.mark| - Min(|k.mark|, 32 - Min(kept, 32))..]
    && s.sign == (if kept + |s.mark| < 32 then k.sign else "")
    && s.before == (if k.left || k.zeropad then 0 else spaces)
    && s.after == (if k.left then spaces else 0)
  }

  // ------------------------------------------------------------ digits are a number

  lemma {:induction false} DigitsAreLetters(value: nat, base: int, upper: bool, n: nat)
    requires 2 <= base <= 16 && n >= 1
    ensures forall k :: 0 <= k < |DigitsUpTo(value, base, upper, n)| ==>
      DigitsUpTo(value, base, upper, n)[k] in Letters(upper)[..base]
    decreases n
  {
    hide Quot, Rem, DigitChar, Letters;
    var d := Rem(value, base);
    DigitIsLetter(d, base, upper);
    if Quot(value, base) != 0 && n > 1 { DigitsAreLetters(Quot(value, base), base, upper, n - 1); }
  }

  lemma {:induction false} DigitIsLetter(d: nat, base: int, upper: bool)
    requires d < base <= 16
    ensures |Letters(upper)| == 16 && DigitChar(d, upper) in Letters(upper)[..base]
  {
    DigitLetters(d, upper);
    assert Letters(upper)[..base][d] == Letters(upper)[d];
  }

  /** The last digit written, the first to be read, is no zero. */
  lemma {:induction false} TopNotZero(value: nat, base: int, upper: bool, n: nat)
    requires 2 <= base <= 16 && n >= 1 && 0 < value < Power(base, n)
    ensures var ds := DigitsUpTo(value, base, upper, n);
            ds[|ds| - 1] != '0'
    decreases n
  {
    hide Quot, Rem, DigitChar, Power;
    var q, d := Quot(value, base), Rem(value, base);
    DivMod(value, base);
    ZeroLetter(d, upper);
    if q == 0 {
      assert base * q == 0;
    } else {
      PowerUnfold(base, n);
      QuotBelow(value, base, Power(base, n - 1));
      if n > 1 { TopNotZero(q, base, upper, n - 1); }
    }
  }

  lemma {:induction false} ZeroLetter(d: nat, upper: bool)
    requires d < 16
    ensures DigitChar(d, upper) == '0' <==> d == 0
  {
  }

  lemma {:induction false} QuotBelow(value: nat, base: int, p: int)
    requires base >= 1 && value < base * p
    ensures Quot(value, base) < p
  {
    hide Quot, Rem;
    DivMod(value, base);
    if Quot(value, base) >= p { Scale(base, p, Quot(value, base)); }
  }

  lemma {:induction false} TwoTo32()
    ensures Power(2, 32) == 0x1_0000_0000
  {
    assert Power(2, 8) == 256;
    assert Power(2, 16) == 256 * Power(2, 8);
    assert Power(2, 24) == 256 * Power(2, 16);
    assert Power(2, 32) == 256 * Power(2, 24);
  }

  lemma {:induction false} NumberWritten(value: nat, base: int, fl: Flags)
    requires base in {2, 8, 10, 16} && value < 0x1_0000_0000_0000_0000
    ensures IsNumber(Reverse(DigitsOf(value, base, fl)), value, base, fl.uppercase, fl.precision)
  {
    hide DigitsUpTo, Power, ReadValue, ValueOf, Letters, Reverse, Quot, Rem;
    if value > 0 || !fl.precision {
      var ds := DigitsUpTo(value, base, fl.uppercase, 32);
      DigitsAreLetters(value, base, fl.uppercase, 32);
      Turned16(ds);
      ReadReverse(ds, base);
      TwoTo32();
      if base == 2 && value >= 0x1_0000_0000 {
        DigitsValue(value, 2, fl.uppercase, 32);
        RemIs(value);
        DigitsTop(value, 2, fl.uppercase, 32);
        if |ds| < 32 { PowerGrows(2, |ds|, 32); }
      } else {
        if base >= 8 { DigitCount(value, base, fl.uppercase); }
        DigitsExact(value, base, fl.uppercase);
        if value > 0 { TopNotZero(value, base, fl.uppercase, 32); } else { ZeroDigits(base, fl.uppercase); }
      }
    } else {
      assert Reverse([]) == [];
    }
  }

  lemma {:induction false} RemIs(value: nat)
    ensures Rem(value, 0x1_0000_0000) == value % 0x1_0000_0000
  {
  }

  lemma {:induction false} ZeroDigits(base: int, upper: bool)
    requires 2 <= base <= 16
    ensures DigitsUpTo(0, base, upper, 32) == "0" && Reverse("0") == "0"
  {
  }

  lemma {:induction false} Turned16(ds: seq<char>)
    ensures |Reverse(ds)| == |ds|
    ensures ds != [] ==> Reverse(ds) != [] && Reverse(ds)[0] == ds[|ds| - 1]
    ensures forall k :: 0 <= k < |ds| ==> Reverse(ds)[k] == ds[|ds| - 1 - k]
  {
  }

  // -------------------------------------------------------------- numbers laid out

  lemma {:induction false} ZerosTurned(ds: seq<char>, m: nat)
    ensures Reverse(ds + Repeat('0', m)) == Repeat('0', m) + Reverse(ds)
  {
  }

  lemma {:induction false} PrefixTurned(ds: seq<char>, n: nat)
    requires n <= |ds|
    ensures |Reverse(ds)| == |ds| && Reverse(ds[..n]) == Reverse(ds)[|ds| - n..]
  {
  }

  /** The number itself, as the # flag leaves it. */
  lemma {:induction false} CoreTurned(ds: seq<char>, h: seq<char>)
    requires h == (if |h| >= |ds| then ds + Repeat('0', |h| - |ds|) else ds[..|h|])
    ensures |Reverse(ds)| == |ds| && |Reverse(h)| == |h|
    ensures Reverse(h) == Repeat('0', |h| - Min(|ds|, |h|)) + Reverse(ds)[|ds| - Min(|ds|, |h|)..]
  {
    hide Reverse, Repeat;
    if |h| >= |ds| {
      ZerosTurned(ds, |h| - |ds|);
      PrefixTurned(ds, |ds|);
    } else {
      PrefixTurned(ds, |h|);
      NoRepeat('0');
    }
    TurnedLength(ds);
    TurnedLength(h);
    assert Reverse(ds)[0..] == Reverse(ds);
  }

  lemma {:induction false} TurnedLength(s: seq<char>)
    ensures |Reverse(s)| == |s|
  {
  }

  lemma {:induction false} NoRepeat(c: char)
    ensures Repeat(c, 0) == []
  {
  }

  lemma {:induction false} ArrangedLaid(sign: seq<char>, mark: seq<char>, zeros: nat, digits: seq<char>, spaces: nat,
                                        fl: Flags)
    ensures Arranged(sign, mark + (Repeat('0', zeros) + digits), spaces, fl)
         == Laid(Shown(if fl.left then 0 else spaces, sign, mark, zeros, digits, if fl.left then spaces else 0))
  {
    hide Repeat;
    NoRepeat(' ');
    var n := mark + (Repeat('0', zeros) + digits);
    assert [] + (sign + n) + Repeat(' ', spaces) == sign + n + Repeat(' ', spaces);
    assert Repeat(' ', spaces) + (sign + n) + [] == Repeat(' ', spaces) + sign + n;
  }

  /** The parts a number is laid out in, once it has its digits. */
  function Parts(digits: seq<char>, kept: nat, mark: seq<char>, sign: seq<char>, w: nat, fl: Flags): Shown {
    var spaces := if fl.zeropad && !fl.left then 0 else Max(0, w - |sign| - |mark| - kept);
    Shown(if fl.left then 0 else spaces, sign, mark, kept - Min(|digits|, kept),
          digits[|digits| - Min(|digits|, kept)..], if fl.left then spaces else 0)
  }

  lemma {:induction false} PartsLaid(ds: seq<char>, h: seq<char>, mark: seq<char>, sign: seq<char>, w: nat, fl: Flags)
    requires h == (if |h| >= |ds| then ds + Repeat('0', |h| - |ds|) else ds[..|h|])
    ensures |Reverse(ds)| == |ds|
    ensures Arranged(sign, mark + Reverse(h), if fl.zeropad && !fl.left then 0
                     else Max(0, w - |sign| - |mark| - |h|), fl)
         == Laid(Parts(Reverse(ds), |h|, mark, sign, w, fl))
  {
    hide Reverse, Repeat, Arranged, Laid;
    CoreTurned(ds, h);
    ArrangedLaid(sign, mark, |h| - Min(|ds|, |h|), Reverse(ds)[|ds| - Min(|ds|, |h|)..],
                 if fl.zeropad && !fl.left then 0 else Max(0, w - |sign| - |mark| - |h|), fl);
  }

  /** As much of a mark as there is room for behind a number of n characters. */
  function MarkShown(mark: seq<char>, n: nat): seq<char> {
    mark[|mark| - Min(|mark|, 32 - Min(n, 32))..]
  }

  lemma {:induction false} MarkedTurned(h: seq<char>, base: int, fl: Flags)
    requires |h| <= NTOA_BUFFER_SIZE && base in {2, 8, 10, 16}
    ensures var b, mark := BaseMark(h, base, fl), MarkShown(Mark(base, fl), |h|);
            Reverse(b) == mark + Reverse(h) && |b| == |mark| + |h|
  {
    hide BaseMark, Reverse;
    MarkedCore(h, base, fl);
    var mark := Mark(base, fl);
    assert "" + Reverse(h) == Reverse(h);
    assert mark[0..] == mark && mark[|mark|..] == "";
    if |mark| == 2 { assert mark[1..] == [mark[1]]; }
  }

  /** What _ntoa_long prints, for every value, sign, base, precision, width and flags. */
  lemma {:induction false} TextLaid(value: nat, negative: bool, base: int, prec: nat, width: nat, fl: Flags)
      returns (s: Shown, digits: seq<char>)
    requires base in {2, 8, 10, 16} && value < 0x1_0000_0000_0000_0000
    ensures IntText(value, negative, base, prec, width, fl) == Laid(s)
    ensures IsNumber(digits, value, base, fl.uppercase, fl.precision) && (base >= 8 ==> |digits| <= 22)
    ensures LaidOut(s, digits, Asked(SignText(negative, fl), if fl.hash && value > 0 then Mark(base, fl) else "", base,
                                     prec, width, fl.left, fl.zeropad, fl.precision))
  {
    hide IntText, Reverse, Repeat, DigitsOf, IsNumber, Laid, Arranged, BaseMark, SignedWidth, SignText, Mark, Parts,
         LaidOut, Zeros, PrintfLaws.Kept, ZerosLength, MarkShown, Padded, Signed, HashNumber, BelowBase, Max;
    var ds, w := DigitsOf(value, base, fl), SignedWidth(negative, width, fl);
    digits := Reverse(ds);
    NumberWritten(value, base, fl);
    DigitsFew(value, base, fl);
    if fl.hash && value > 0 {
      var h := HashNumber(value, base, prec, w, fl);
      var mark := MarkShown(Mark(base, fl), |h|);
      var sign := if |mark| + |h| < 32 then SignText(negative, fl) else "";
      HashTextIs(value, negative, base, prec, width, fl);
      HashNumberIs(value, base, prec, w, fl);
      MarkedTurned(h, base, fl);
      Regroup4(w, |sign|, |mark|, |h|);
      PartsLaid(ds, h, mark, sign, w, fl);
      s := Parts(digits, |h|, mark, sign, w, fl);
      HashedOut(digits, negative, base, prec, width, fl);
    } else {
      var z := Zeros(ds, prec, w, fl);
      var sign := if |z| < 32 then SignText(negative, fl) else "";
      NoHash(value, negative, base, prec, width, fl);
      PaddedIs(z, negative, w, fl);
      ZerosTotal(ds, prec, w, fl);
      ZerosAre(ds, prec, w, fl);
      Regroup4(w, |sign|, 0, |z|);
      assert "" + Reverse(z) == Reverse(z);
      PartsLaid(ds, z, "", sign, w, fl);
      s := Parts(digits, |z|, "", sign, w, fl);
      PlainOut(digits, negative, base, prec, width, fl);
    }
  }

  lemma {:induction false} DigitsFew(value: nat, base: int, fl: Flags)
    requires 2 <= base <= 16 && value < 0x1_0000_0000_0000_0000
    ensures |Reverse(DigitsOf(value, base, fl))| == |DigitsOf(value, base, fl)|
    ensures base >= 8 ==> |DigitsOf(value, base, fl)| <= 22
  {
    hide DigitsUpTo, Power;
    if base >= 8 { DigitCount(value, base, fl.uppercase); }
  }

  lemma {:induction false} Regroup4(w: int, a: int, b: int, c: int)
    ensures w - a - (b + c) == w - a - b - c && w - (a + c) == w - a - c && w - a - 0 - c == w - a - c
  {
  }

  lemma {:induction false} RoomIs(negative: bool, width: nat, fl: Flags)
    ensures SignedWidth(negative, width, fl)
         == (if !fl.left && fl.zeropad && width > 0 && SignText(negative, fl) != "" then width - 1 else width)
  {
  }

  lemma {:induction false} HashedOut(digits: seq<char>, negative: bool, base: int, prec: nat, width: nat, fl: Flags)
    requires base in {2, 8, 10, 16}
    ensures var w := SignedWidth(negative, width, fl);
            var kept := PrintfLaws.Kept(ZerosLength(|digits|, prec, w, fl), base, prec, w, fl);
            var mark := MarkShown(Mark(base, fl), kept);
            kept <= 32 ==>
              LaidOut(Parts(digits, kept, mark, if |mark| + kept < 32 then SignText(negative, fl) else "", w, fl),
                      digits,
                      Asked(SignText(negative, fl), Mark(base, fl), base, prec, width, fl.left, fl.zeropad,
                            fl.precision))
  {
    hide SignedWidth, SignText, Mark, Max;
    RoomIs(negative, width, fl);
    MarkThere(base, fl);
  }

  lemma {:induction false} MarkThere(base: int, fl: Flags)
    ensures Mark(base, fl) != ""
  {
  }

  lemma {:induction false} PlainOut(digits: seq<char>, negative: bool, base: int, prec: nat, width: nat, fl: Flags)
    ensures var w := SignedWidth(negative, width, fl);
            var z := ZerosLength(|digits|, prec, w, fl);
            z <= 32 ==>
              LaidOut(Parts(digits, z, "", if z < 32 then SignText(negative, fl) else "", w, fl), digits,
                      Asked(SignText(negative, fl), "", base, prec, width, fl.left, fl.zeropad, fl.precision))
  {
    hide SignedWidth, SignText, Max;
    RoomIs(negative, width, fl);
  }

  // ------------------------------------------------------------ integers and pointers

  /** The numbers the bits a length field keeps can tell apart. */
  function Modulus(length: seq<char>): int {
    if length == "hh" then 0x100
    else if length == "h" then 0x1_0000
    else if length == "" then 0x1_0000_0000
    else 0x1_0000_0000_0000_0000
  }

  lemma {:induction false} LowBits(x: nat, m: int, q: int, v: int)
    requires m in {0x100, 0x1_0000, 0x1_0000_0000, 0x1_0000_0000_0000_0000} && x == m * q + v
    ensures 0 <= v < m ==> x % m == v
    ensures -m <= 2 * v < m ==> SignedLow(x, m) == v
  {
    hide SignedLow, Rem;
    if 0 <= v < m { UniqueMod(x, m, q, v); }
    if -m <= v < 0 {
      Distribute(m, q, -1);
      UniqueMod(x, m, q - 1, v + m);
    }
    RemainderIs(x, m);
    HalfIs(m);
  }

  lemma {:induction false} RemainderIs(x: nat, m: int)
    requires m >= 2
    ensures x % m == Rem(x, m) && SignedLow(x, m) == if Rem(x, m) >= m / 2 then Rem(x, m) - m else Rem(x, m)
  {
  }

  lemma {:induction false} HalfIs(m: int)
    requires m in {0x100, 0x1_0000, 0x1_0000_0000, 0x1_0000_0000_0000_0000}
    ensures m == 2 * (m / 2)
  {
  }

  lemma {:induction false} ArgumentIs(x: nat, q: int, v: int, w: Written, fl: Flags)
    requires IsLength(w.length) && x == Modulus(w.length) * q + v
    requires fl.char8 == (w.length == "hh") && fl.short16 == (w.length == "h" || w.length == "hh")
    requires fl.long64 == (w.length != "" && w.length != "h" && w.length != "hh") && fl.longlong == (w.length == "ll")
    ensures 0 <= v < Modulus(w.length) ==> UnsignedArg(x, fl) == v
    ensures -Modulus(w.length) <= 2 * v < Modulus(w.length) ==> SignedArg(x, fl) == v
  {
    hide SignedLow;
    LowBits(x, Modulus(w.length), q, v);
  }

  /** The flags of an integer conversion, as its letters ask for them. */
  function NumberFlags(w: Written, left: bool, signed: bool, hash: bool, upper: bool): Flags {
    Flags('0' in w.flags && !w.point, left, '+' in w.flags && signed, ' ' in w.flags && signed,
          '#' in w.flags && hash, upper, w.length == "hh", w.length == "h" || w.length == "hh",
          w.length == "l" || w.length == "ll" || w.length == "t" || w.length == "j" || w.length == "z",
          w.length == "ll", w.point)
  }

  lemma {:induction false} IntFlagsAre(w: Written, c: char, args: seq<Arg>, a: nat)
    requires ArgsThere(w, args, a) && IsInteger(c)
    ensures IntFlags(c, Meaning(w, args, a, 0).fl)
         == NumberFlags(w, '-' in w.flags || AmountOf(w.width, args, a) < 0, c == 'd' || c == 'i',
                        c == 'x' || c == 'X' || c == 'o' || c == 'b', c == 'X')
  {
    hide AmountOf, Abs, Max;
  }

  lemma {:induction false} LengthFlagsAre(w: Written, left: bool, signed: bool, hash: bool, upper: bool)
    requires IsLength(w.length)
    ensures var fl := NumberFlags(w, left, signed, hash, upper);
            fl.char8 == (w.length == "hh") && fl.short16 == (w.length == "h" || w.length == "hh")
            && fl.long64 == (w.length != "" && w.length != "h" && w.length != "hh") && fl.longlong == (w.length == "ll")
  {
  }

  /** An integer conversion is a text of _ntoa_long. */
  lemma {:induction false} IntegerIs(w: Written, c: char, args: seq<Arg>, a: nat, v: int, q: int, base: int)
    requires WrittenOk(w) && ArgsThere(w, args, a) && HasWord(args, Next(w, a))
    requires ((c == 'x' || c == 'X') && base == 16) || (c == 'o' && base == 8) || (c == 'b' && base == 2)
             || ((c == 'd' || c == 'i' || c == 'u') && base == 10)
    requires args[Next(w, a)].w == Modulus(w.length) * q + v
    requires if c == 'd' || c == 'i' then -Modulus(w.length) <= 2 * v < Modulus(w.length)
             else 0 <= v < Modulus(w.length)
    ensures var width, prec := AmountOf(w.width, args, a), AmountOf(w.prec, args, a + Stars(w.width));
            var fl := NumberFlags(w, '-' in w.flags || width < 0, c == 'd' || c == 'i',
                                  c == 'x' || c == 'X' || c == 'o' || c == 'b', c == 'X');
            PrintsAs(w, c, args, a, IntText(Abs(v), v < 0, base, Max(prec, 0), Abs(width), fl), Next(w, a) + 1)
  {
    hide AmountOf, IntText, NumberFlags, Modulus, PrintsAs, Convert, Meaning, AllFlags;
    var width, prec := AmountOf(w.width, args, a), AmountOf(w.prec, args, a + Stars(w.width));
    var left, signed, hash := '-' in w.flags || width < 0, c == 'd' || c == 'i',
                              c == 'x' || c == 'X' || c == 'o' || c == 'b';
    var fl := NumberFlags(w, left, signed, hash, c == 'X');
    MeaningIsSpec(w, args, a);
    IntFlagsAre(w, c, args, a);
    LengthFlagsAre(w, left, signed, hash, c == 'X');
    ArgumentIs(args[Next(w, a)].w, q, v, w, fl);
    IntegerConverted(c, Meaning(w, args, a, 0), args, v, base, fl);
    Anywhere(w, c, args, a, IntText(Abs(v), v < 0, base, Max(prec, 0), Abs(width), fl), Next(w, a) + 1);
  }

  lemma {:induction false} MeaningIsSpec(w: Written, args: seq<Arg>, a: nat)
    requires ArgsThere(w, args, a)
    ensures var width, prec := AmountOf(w.width, args, a), AmountOf(w.prec, args, a + Stars(w.width));
            var sp := Meaning(w, args, a, 0);
            sp.Spec? && sp.width == Abs(width) && sp.prec == Max(prec, 0) && sp.i == 0 && sp.a == Next(w, a)
  {
    hide AmountOf, Abs, Max;
  }

  lemma {:induction false} IntegerConverted(c: char, sp: Spec, args: seq<Arg>, v: int, base: int, fl: Flags)
    requires sp.Spec? && sp.i == 0 && HasWord(args, sp.a)
    requires ((c == 'x' || c == 'X') && base == 16) || (c == 'o' && base == 8) || (c == 'b' && base == 2)
             || ((c == 'd' || c == 'i' || c == 'u') && base == 10)
    requires IntFlags(c, sp.fl) == fl
    requires if c == 'd' || c == 'i' then SignedArg(args[sp.a].w, fl) == v
             else v >= 0 && UnsignedArg(args[sp.a].w, fl) == v
    ensures Stops(c)
    ensures forall rest :: Convert([c] + rest, sp, args)
                        == Piece(IntText(Abs(v), v < 0, base, sp.prec, sp.width, fl), 1, sp.a + 1)
  {
    hide IntText, IntFlags, SignedArg, UnsignedArg;
  }

  /** Every integer conversion: x and X write the argument in base 16, o in base 8, b in base 2, the others in base
      10, cut to the bits its length field keeps, d and i with its sign; capitals are for X alone; and the text is
      laid out as flags, width and precision ask. */
  lemma {:induction false} IntegerPrinted(w: Written, c: char, args: seq<Arg>, a: nat, v: int, q: int, base: int)
      returns (s: Shown, digits: seq<char>)
    requires WrittenOk(w) && ArgsThere(w, args, a) && HasWord(args, Next(w, a))
    requires ((c == 'x' || c == 'X') && base == 16) || (c == 'o' && base == 8) || (c == 'b' && base == 2)
             || ((c == 'd' || c == 'i' || c == 'u') && base == 10)
    requires args[Next(w, a)].w == Modulus(w.length) * q + v
    requires if c == 'd' || c == 'i' then -Modulus(w.length) <= 2 * v < Modulus(w.length)
             else 0 <= v < Modulus(w.length)
    ensures PrintsAs(w, c, args, a, Laid(s), Next(w, a) + 1)
    ensures IsNumber(digits, Abs(v), base, c == 'X', w.point) && (base >= 8 ==> |digits| <= 22)
    ensures var width, prec := AmountOf(w.width, args, a), AmountOf(w.prec, args, a + Stars(w.width));
            var sign := if v < 0 then "-"
                        else if c != 'd' && c != 'i' then ""
                        else if '+' in w.flags then "+"
                        else if ' ' in w.flags then " " else "";
            var mark := if '#' !in w.flags || v == 0 || base == 10 then ""
                        else if c == 'x' then "0x"
                        else if c == 'X' then "0X"
                        else if c == 'b' then "0b" else "0";
            LaidOut(s, digits, Asked(sign, mark, base, Max(prec, 0), Abs(width), '-' in w.flags || width < 0,
                                     '0' in w.flags && !w.point, w.point))
  {
    hide AmountOf, IntText, NumberFlags, Modulus, PrintsAs, Laid, LaidOut, IsNumber, Mark, SignText, WrittenOk;
    var width, prec := AmountOf(w.width, args, a), AmountOf(w.prec, args, a + Stars(w.width));
    var left, signed, hash := '-' in w.flags || width < 0, c == 'd' || c == 'i',
                              c == 'x' || c == 'X' || c == 'o' || c == 'b';
    var fl := NumberFlags(w, left, signed, hash, c == 'X');
    IntegerIs(w, c, args, a, v, q, base);
    SmallEnough(v, w.length);
    s, digits := TextLaid(Abs(v), v < 0, base, Max(prec, 0), Abs(width), fl);
    NumberFlagsAre(w, left, signed, hash, c == 'X', v, base);
  }

  lemma {:induction false} SmallEnough(v: int, length: seq<char>)
    requires -Modulus(length) <= 2 * v && v < Modulus(length)
    ensures Abs(v) < 0x1_0000_0000_0000_0000
  {
  }

  lemma {:induction false} NumberFlagsAre(w: Written, left: bool, signed: bool, hash: bool, upper: bool, v: int,
                                          base: int)
    ensures var fl := NumberFlags(w, left, signed, hash, upper);
            fl.hash == ('#' in w.flags && hash) && fl.uppercase == upper && fl.precision == w.point && fl.left == left
            && fl.zeropad == ('0' in w.flags && !w.point)
            && SignText(v < 0, fl) == (if v < 0 then "-" else if !signed then "" else if '+' in w.flags then "+"
                                       else if ' ' in w.flags then " " else "")
            && Mark(base, fl) == (if base == 16 then (if upper then "0X" else "0x") else if base == 2 then "0b"
                                  else "0")
  {
  }

  /** A pointer: base 16 with capitals, sixteen columns wide, filled with zeros. */
  lemma {:induction false} PointerPrinted(w: Written, args: seq<Arg>, a: nat, v: nat, q: nat)
      returns (s: Shown, digits: seq<char>)
    requires WrittenOk(w) && ArgsThere(w, args, a) && HasWord(args, Next(w, a))
    requires args[Next(w, a)].w == 0x1_0000_0000_0000_0000 * q + v && v < 0x1_0000_0000_0000_0000
    ensures PrintsAs(w, 'p', args, a, Laid(s), Next(w, a) + 1)
    ensures IsNumber(digits, v, 16, true, w.point)
    ensures var width, prec := AmountOf(w.width, args, a), AmountOf(w.prec, args, a + Stars(w.width));
            var sign := if '+' in w.flags then "+" else if ' ' in w.flags then " " else "";
            LaidOut(s, digits, Asked(sign, if '#' in w.flags && v > 0 then "0X" else "", 16, Max(prec, 0), 16,
                                     '-' in w.flags || width < 0, true, w.point))
  {
    hide AmountOf, IntText, PrintsAs, Laid, LaidOut, IsNumber, Mark, SignText, WrittenOk, PointerFlags, Meaning,
         Convert;
    PointerFlagsAre(w, args, a);
    var fl, prec := PointerFlags(Meaning(w, args, a, 0).fl), AmountOf(w.prec, args, a + Stars(w.width));
    PointerConverted(w, args, a, v, q);
    s, digits := TextLaid(v, false, 16, Max(prec, 0), 16, fl);
    Anywhere(w, 'p', args, a, IntText(v, false, 16, Max(prec, 0), 16, fl), Next(w, a) + 1);
  }

  lemma {:induction false} PointerConverted(w: Written, args: seq<Arg>, a: nat, v: nat, q: nat)
    requires ArgsThere(w, args, a) && HasWord(args, Next(w, a))
    requires args[Next(w, a)].w == 0x1_0000_0000_0000_0000 * q + v && v < 0x1_0000_0000_0000_0000
    ensures Stops('p')
    ensures var sp, prec := Meaning(w, args, a, 0), AmountOf(w.prec, args, a + Stars(w.width));
            forall rest :: Convert(['p'] + rest, sp, args)
                        == Piece(IntText(v, false, 16, Max(prec, 0), 16, PointerFlags(sp.fl)), 1, Next(w, a) + 1)
  {
    hide AmountOf, IntText, PointerFlags, Max;
    LowBits(args[Next(w, a)].w, 0x1_0000_0000_0000_0000, q, v);
  }

  lemma {:induction false} PointerFlagsAre(w: Written, args: seq<Arg>, a: nat)
    requires ArgsThere(w, args, a)
    ensures Meaning(w, args, a, 0).Spec?
    ensures var fl := PointerFlags(Meaning(w, args, a, 0).fl);
            fl.hash == ('#' in w.flags) && fl.uppercase && fl.precision == w.point && fl.zeropad
            && fl.left == ('-' in w.flags || AmountOf(w.width, args, a) < 0)
            && SignText(false, fl) == (if '+' in w.flags then "+" else if ' ' in w.flags then " " else "")
            && Mark(16, fl) == "0X"
  {
    hide AmountOf, Abs, Max;
  }

  /** Without flags, width and precision the text is the number, with a minus sign exactly if it is negative. */
  lemma {:induction false} PlainInteger(length: seq<char>, c: char, args: seq<Arg>, a: nat, v: int, q: int, base: int)
      returns (digits: seq<char>)
    requires IsLength(length) && HasWord(args, a)
    requires ((c == 'x' || c == 'X') && base == 16) || (c == 'o' && base == 8) || (c == 'b' && base == 2)
             || ((c == 'd' || c == 'i' || c == 'u') && base == 10)
    requires args[a].w == Modulus(length) * q + v
    requires if c == 'd' || c == 'i' then -Modulus(length) <= 2 * v < Modulus(length) else 0 <= v < Modulus(length)
    ensures IsNumber(digits, Abs(v), base, c == 'X', false)
    ensures PrintsAs(Written("", Absent, false, Absent, length), c, args, a, (if v < 0 then "-" else "") + digits, a
                     + 1)
  {
    hide Modulus, PrintsAs, IsNumber, Laid, LaidOut, IsLength;
    var w := Written("", Absent, false, Absent, length);
    var s;
    s, digits := IntegerPrinted(w, c, args, a, v, q, base);
    PlainLaid(s, digits, if v < 0 then "-" else "", base);
  }

  lemma {:induction false} PlainLaid(s: Shown, digits: seq<char>, sign: seq<char>, base: int)
    requires LaidOut(s, digits, Asked(sign, "", base, 0, 0, false, false, false))
    requires |sign| <= 1 && (sign != "" ==> |digits| < 32)
    ensures Laid(s) == sign + digits
  {
    hide Repeat;
    NoRepeat(' ');
    NoRepeat('0');
    assert digits[0..] == digits;
    assert s.mark == "";
    assert s.sign == sign;
    assert [] + (sign + ("" + ([] + digits))) + [] == sign + digits;
  }
}
