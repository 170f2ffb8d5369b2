/**
 The laws of integer conversions, for every value, base, precision, width and flag: how long the text is, when
 the 32-character buffer costs the sign or the width, when a precision is kept, that the digits read back as the
 value, and what the # flag leaves of a number.
 */
module PrintfLaws {
  import opened Arithmetic
  import opened Powers
  import opened PrintfText

  // ------------------------------------------------------------ signs and lengths

  function SignText(negative: bool, fl: Flags): seq<char> {
    if negative then "-" else if fl.plus then "+" else if fl.space then " " else ""
  }

  /** Sign and digits, with leading zeros up to the precision unless there is a - flag: what the code prints when
      no width asks for more and nothing is cut. */
  function NaturalLength(value: nat, negative: bool, base: int, prec: nat, fl: Flags): int
    requires 2 <= base <= 16
  {
    |SignText(negative, fl)| + (if fl.left then |DigitsOf(value, base, fl)| else Max(|DigitsOf(value, base, fl)|, prec))
  }

  /** The digits as printed: leading zeros, then the digits of the value. */
  function Body(value: nat, negative: bool, base: int, prec: nat, width: nat, fl: Flags): seq<char>
    requires 2 <= base <= 16
  {
    Reverse(Zeros(DigitsOf(value, base, fl), prec, SignedWidth(negative, width, fl), fl))
  }

  /** Sign and digits, with spaces before or behind. */
  function Arranged(sign: seq<char>, body: seq<char>, spaces: int, fl: Flags): seq<char> {
    if fl.left then sign + body + Repeat(' ', spaces) else Repeat(' ', spaces) + sign + body
  }

  /** The characters of a number of d digits once it has its leading zeros. */
  function ZerosLength(d: nat, prec: nat, w: nat, fl: Flags): nat {
    if fl.left then d
    else Max(Max(d, Min(prec, NTOA_BUFFER_SIZE)), if fl.zeropad then Min(w, NTOA_BUFFER_SIZE) else 0)
  }

  lemma {:induction false} ZerosTotal(buf: seq<char>, prec: nat, w: nat, fl: Flags)
    requires |buf| <= NTOA_BUFFER_SIZE
    ensures |Zeros(buf, prec, w, fl)| == ZerosLength(|buf|, prec, w, fl) <= NTOA_BUFFER_SIZE
  {
  }

  /** The buffer has room for a sign behind a number of d digits and its leading zeros. */
  predicate SignFits(d: nat, prec: nat, width: nat, fl: Flags) {
    d < NTOA_BUFFER_SIZE
    && (fl.left || (prec < NTOA_BUFFER_SIZE && (!fl.zeropad || width <= NTOA_BUFFER_SIZE)))
  }

  function SignShown(negative: bool, d: nat, prec: nat, width: nat, fl: Flags): seq<char> {
    if SignFits(d, prec, width, fl) then SignText(negative, fl) else ""
  }

  /** Where spaces make up the width, the number with its sign must fit the buffer or the width; where zeros do,
      number and width must both fit the buffer. */
  predicate LengthFits(natural: int, width: nat, fl: Flags) {
    if fl.zeropad && !fl.left then natural <= NTOA_BUFFER_SIZE && width <= NTOA_BUFFER_SIZE
    else natural <= NTOA_BUFFER_SIZE || natural <= width
  }

  /** Without the # flag, and for a zero, a conversion prints spaces, the sign if it fits, the digits, and spaces.
      That is max(width, natural length) characters exactly when the buffer is long enough. */
  lemma {:induction false} IntTextIs(value: nat, negative: bool, base: int, prec: nat, width: nat, fl: Flags)
    requires 2 <= base <= 16 && (fl.hash ==> value == 0)
    ensures var text := IntText(value, negative, base, prec, width, fl);
            var body := Body(value, negative, base, prec, width, fl);
            var sign := SignShown(negative, |DigitsOf(value, base, fl)|, prec, width, fl);
            var spaces := if fl.zeropad && !fl.left then 0 else Max(0, width - |sign| - |body|);
            text == Arranged(sign, body, spaces, fl) && |text| == |sign| + |body| + spaces
            && (|text| == Max(width, NaturalLength(value, negative, base, prec, fl))
                <==> LengthFits(NaturalLength(value, negative, base, prec, fl), width, fl))
  {
    hide DigitsOf, Reverse, Repeat, SignText, Zeros, Arranged, Padded, SignedWidth, Signed, Max, FlagsOf, Formatted,
         SignFits, LengthFits, ZerosLength;
    var ds, w := DigitsOf(value, base, fl), SignedWidth(negative, width, fl);
    NoHash(value, negative, base, prec, width, fl);
    var z := Zeros(ds, prec, w, fl);
    SignRoom(negative, fl, width);
    ZerosTotal(ds, prec, w, fl);
    SignWhen(|ds|, |z|, prec, width, w, |SignText(negative, fl)|, fl);
    PaddedIs(z, negative, w, fl);
    LengthWhen(|ds|, |z|, prec, width, w, |SignText(negative, fl)|, fl);
  }

  /** Without the # flag, and for a zero, which takes none, the text is digits, leading zeros, sign and spaces. */
  lemma {:induction false} NoHash(value: nat, negative: bool, base: int, prec: nat, width: nat, fl: Flags)
    requires 2 <= base <= 16 && (fl.hash ==> value == 0)
    ensures var w := SignedWidth(negative, width, fl);
            IntText(value, negative, base, prec, width, fl)
            == Padded(Signed(Zeros(DigitsOf(value, base, fl), prec, w, fl), negative, fl), w, fl)
  {
    hide DigitsOf, Zeros, Signed, SignedWidth, Padded, FlagsOf;
    var f, w := FlagsOf(value, fl), SignedWidth(negative, width, fl);
    FlagsOfIs(value, fl);
    SameShape(DigitsOf(value, base, fl), negative, prec, width, w, f, fl);
    SamePadding(Signed(Zeros(DigitsOf(value, base, fl), prec, w, fl), negative, fl), w, f, fl);
  }

  lemma {:induction false} FlagsOfIs(value: nat, fl: Flags)
    ensures var f := FlagsOf(value, fl);
            f.left == fl.left && f.zeropad == fl.zeropad && f.plus == fl.plus && f.space == fl.space
            && f.hash == (fl.hash && value > 0)
  {
  }

  lemma {:induction false} FlagsOfPositive(value: nat, fl: Flags)
    requires value > 0
    ensures FlagsOf(value, fl) == fl
  {
  }

  lemma {:induction false} SameShape(buf: seq<char>, negative: bool, prec: nat, width: nat, w: nat, f: Flags, fl: Flags)
    requires f.left == fl.left && f.zeropad == fl.zeropad && f.plus == fl.plus && f.space == fl.space
    requires |buf| <= NTOA_BUFFER_SIZE
    ensures SignedWidth(negative, width, f) == SignedWidth(negative, width, fl)
    ensures Zeros(buf, prec, w, f) == Zeros(buf, prec, w, fl)
    ensures Signed(Zeros(buf, prec, w, fl), negative, f) == Signed(Zeros(buf, prec, w, fl), negative, fl)
  {
  }

  lemma {:induction false} SamePadding(buf: seq<char>, w: nat, f: Flags, fl: Flags)
    requires f.left == fl.left && f.zeropad == fl.zeropad
    ensures Padded(buf, w, f) == Padded(buf, w, fl)
  {
  }

  lemma {:induction false} SignRoom(negative: bool, fl: Flags, width: nat)
    ensures |SignText(negative, fl)| == if negative || fl.plus || fl.space then 1 else 0
    ensures !fl.left && fl.zeropad && width > 0 ==> SignedWidth(negative, width, fl) == width - |SignText(negative, fl)|
    ensures fl.left || !fl.zeropad || width == 0 ==> SignedWidth(negative, width, fl) == width
    ensures SignText(negative, fl) != [] <==> |SignText(negative, fl)| > 0
  {
  }

  /** A sign is put behind the number exactly if it fits. */
  lemma {:induction false} SignWhen(d: nat, z: nat, prec: nat, width: nat, w: nat, sign: nat, fl: Flags)
    requires d <= NTOA_BUFFER_SIZE && z == ZerosLength(d, prec, w, fl) && sign <= 1
    requires w == if !fl.left && fl.zeropad && width > 0 then width - sign else width
    ensures sign > 0 ==> (z < NTOA_BUFFER_SIZE <==> SignFits(d, prec, width, fl))
  {
  }

  lemma {:induction false} LengthWhen(d: nat, z: nat, prec: nat, width: nat, w: nat, sign: nat, fl: Flags)
    requires d <= NTOA_BUFFER_SIZE && z == ZerosLength(d, prec, w, fl) && sign <= 1
    requires w == if !fl.left && fl.zeropad && width > 0 then width - sign else width
    ensures var n, natural := (if z < NTOA_BUFFER_SIZE then sign else 0) + z,
                              sign + if fl.left then d else Max(d, prec);
            n + (if fl.zeropad && !fl.left then 0 else Max(0, w - n)) == Max(width, natural)
            <==> LengthFits(natural, width, fl)
  {
  }

  lemma {:induction false} PaddedIs(z: seq<char>, negative: bool, w: nat, fl: Flags)
    requires |z| <= NTOA_BUFFER_SIZE
    ensures var sign := if |z| < NTOA_BUFFER_SIZE then SignText(negative, fl) else "";
            var n := |sign| + |z|;
            var spaces := if fl.zeropad && !fl.left then 0 else Max(0, w - n);
            Padded(Signed(z, negative, fl), w, fl) == Arranged(sign, Reverse(z), spaces, fl)
            && |Padded(Signed(z, negative, fl), w, fl)| == n + spaces && |Reverse(z)| == |z|
  {
    hide Reverse, SignText, Signed, Repeat, Padded, Arranged, Max;
    SignedReverse(z, negative, fl);
    var sign := if |z| < NTOA_BUFFER_SIZE then SignText(negative, fl) else "";
    PaddedArranged(Signed(z, negative, fl), sign, Reverse(z), w, fl);
  }

  lemma {:induction false} PaddedArranged(buf: seq<char>, sign: seq<char>, body: seq<char>, w: nat, fl: Flags)
    requires Reverse(buf) == sign + body && |Reverse(buf)| == |buf|
    ensures var spaces := if fl.zeropad && !fl.left then 0 else Max(0, w - |sign| - |body|);
            Padded(buf, w, fl) == Arranged(sign, body, spaces, fl)
            && |Padded(buf, w, fl)| == |sign| + |body| + spaces
  {
    hide Reverse, Repeat;
    EmptyRepeat(w - |buf|);
    RepeatLength(w - |buf|);
    var r, pad := Reverse(buf), Repeat(' ', w - |buf|);
    if fl.left {
      assert [] + r + pad == sign + body + pad;
    } else if fl.zeropad {
      assert [] + r + [] == r && [] + sign + body == r;
    } else {
      assert pad + r + [] == pad + sign + body;
    }
  }

  lemma {:induction false} RepeatLength(n: int)
    ensures |Repeat(' ', n)| == Max(0, n)
  {
  }

  lemma {:induction false} EmptyRepeat(n: int)
    ensures n <= 0 ==> Repeat(' ', n) == []
    ensures Repeat(' ', 0) == []
  {
  }

  lemma {:induction false} SignedReverse(buf: seq<char>, negative: bool, fl: Flags)
    requires |buf| <= NTOA_BUFFER_SIZE
    ensures Reverse(Signed(buf, negative, fl)) == (if |buf| < NTOA_BUFFER_SIZE then SignText(negative, fl) else "")
         + Reverse(buf)
    ensures |Reverse(Signed(buf, negative, fl))| == |Signed(buf, negative, fl)| && |Reverse(buf)| == |buf|
  {
  }

  /** No character of s is a sign. */
  predicate NoSign(s: seq<char>) {
    forall k :: 0 <= k < |s| ==> s[k] != '-' && s[k] != '+'
  }

  lemma {:induction false} SignSeen(sign: seq<char>, core: seq<char>, spaces: int, negative: bool, fl: Flags)
    requires (sign == "" || sign == SignText(negative, fl)) && NoSign(core)
    ensures var text := Arranged(sign, core, spaces, fl);
            ('-' in text <==> negative && sign != "") && ('+' in text <==> !negative && fl.plus && sign != "")
  {
    hide Repeat;
    NoSignSpaces(spaces);
    assert forall c :: c in Arranged(sign, core, spaces, fl) <==> c in sign || c in core || c in Repeat(' ', spaces);
  }

  lemma {:induction false} NoSignSpaces(n: int)
    ensures '-' !in Repeat(' ', n) && '+' !in Repeat(' ', n)
  {
  }

  /** Every character is a digit below the base. */
  predicate BelowBase(s: seq<char>, base: int) {
    forall k :: 0 <= k < |s| ==> 0 <= DigitValue(s[k]) < base
  }

  lemma {:induction false} BelowNoSign(s: seq<char>, base: int)
    requires base <= 16 && BelowBase(s, base)
    ensures NoSign(s) && ' ' !in s
  {
  }

  lemma {:induction false} DigitsBelow(value: nat, base: int, upper: bool, n: nat)
    requires 2 <= base <= 16 && n >= 1
    ensures BelowBase(DigitsUpTo(value, base, upper, n), base)
    decreases n
  {
    hide Quot, Rem, DigitValue;
    FirstDigit(value, base, upper, n);
    if Quot(value, base) != 0 && n > 1 { DigitsBelow(Quot(value, base), base, upper, n - 1); }
    var ds := DigitsUpTo(value, base, upper, n);
    assert forall k :: 0 < k < |ds| ==> ds[k] == ds[1..][k - 1];
  }

  /** Leading zeros are digits too. */
  lemma {:induction false} ZerosBelow(value: nat, base: int, prec: nat, w: nat, fl: Flags)
    requires 2 <= base <= 16
    ensures BelowBase(Zeros(DigitsOf(value, base, fl), prec, w, fl), base)
  {
    hide DigitsUpTo, Zeros, Repeat, DigitValue;
    DigitsBelow(value, base, fl.uppercase, 32);
    ZerosAre(DigitsOf(value, base, fl), prec, w, fl);
    ZeroDigit();
  }

  lemma {:induction false} ZeroDigit()
    ensures DigitValue('0') == 0
  {
  }

  lemma {:induction false} BodyBelow(value: nat, negative: bool, base: int, prec: nat, width: nat, fl: Flags)
    requires 2 <= base <= 16
    ensures BelowBase(Body(value, negative, base, prec, width, fl), base)
  {
    hide DigitsOf, Zeros, SignedWidth, DigitValue;
    ZerosBelow(value, base, prec, SignedWidth(negative, width, fl), fl);
  }

  /** Minus five, zero padded to forty characters, comes out as five does: 32 characters and no sign. */
  lemma {:induction false} SignLost()
    ensures var fl := NO_FLAGS.(zeropad := true);
            IntText(5, true, 10, 0, 40, fl) == IntText(5, false, 10, 0, 40, fl)
            && |IntText(5, true, 10, 0, 40, fl)| == NTOA_BUFFER_SIZE
  {
    hide IntText, Reverse, Repeat, DigitsUpTo;
    var fl := NO_FLAGS.(zeropad := true);
    IntTextIs(5, true, 10, 0, 40, fl);
    IntTextIs(5, false, 10, 0, 40, fl);
  }

  /** The precision asked for is there exactly if it fits the buffer or, with the - flag, which turns it off, if
      the number has that many digits anyway. */
  lemma {:induction false} PrecisionKept(value: nat, negative: bool, base: int, prec: nat, width: nat, fl: Flags)
    requires 2 <= base <= 16
    ensures |Body(value, negative, base, prec, width, fl)| >= prec
       <==> if fl.left then |DigitsOf(value, base, fl)| >= prec else prec <= NTOA_BUFFER_SIZE
  {
    hide DigitsOf, SignedWidth, Zeros;
    ZerosTotal(DigitsOf(value, base, fl), prec, SignedWidth(negative, width, fl), fl);
  }

  /** Printing 7 with five digits and the - flag prints one digit. */
  lemma {:induction false} PrecisionLost()
    ensures IntText(7, false, 10, 5, 0, NO_FLAGS.(left := true, precision := true)) == "7"
  {
    var fl := NO_FLAGS.(left := true, precision := true);
    assert DigitsOf(7, 10, fl) == "7";
    assert Reverse("7") == "7";
  }

  // ---------------------------------------------------------------- reading back

  /** Leading zeros do not change the value. */
  lemma {:induction false} ZerosValue(buf: seq<char>, n: int, base: int)
    ensures ValueOf(buf + Repeat('0', n), base) == ValueOf(buf, base)
  {
    if buf == [] {
      assert buf + Repeat('0', n) == Repeat('0', n);
      OnlyZeros(n, base);
    } else {
      ZerosValue(buf[1..], n, base);
      assert (buf + Repeat('0', n))[1..] == buf[1..] + Repeat('0', n);
    }
  }

  lemma {:induction false} OnlyZeros(n: int, base: int)
    ensures ValueOf(Repeat('0', n), base) == 0
  {
    if n > 0 {
      OnlyZeros(n - 1, base);
      assert Repeat('0', n)[1..] == Repeat('0', n - 1);
    }
  }

  /** The printed digits read back as the value exactly if the value is below base^32, as every 64-bit value is
      from base 8 on. */
  lemma {:induction false} BodyValue(value: nat, negative: bool, base: int, prec: nat, width: nat, fl: Flags)
    requires 2 <= base <= 16
    ensures ReadValue(Body(value, negative, base, prec, width, fl), base) == value <==> value < Power(base, 32)
    ensures base >= 8 && value < 0x1_0000_0000_0000_0000 ==> value < Power(base, 32)
  {
    hide DigitsUpTo, Power, ReadValue, Reverse, Repeat, ZeroFill;
    if base >= 8 && value < 0x1_0000_0000_0000_0000 { DigitCount(value, base, fl.uppercase); }
    DigitsExact(value, base, fl.uppercase);
    PowerPositive(base, 32);
    var ds, w := DigitsOf(value, base, fl), SignedWidth(negative, width, fl);
    ReadReverse(Zeros(ds, prec, w, fl), base);
    ZeroFillValue(ds, prec, base);
    ZeroFillValue(ZeroFill(ds, prec), w, base);
  }


  lemma {:induction false} ZeroFillValue(buf: seq<char>, n: int, base: int)
    requires |buf| <= NTOA_BUFFER_SIZE
    ensures ValueOf(ZeroFill(buf, n), base) == ValueOf(buf, base)
  {
    ZerosValue(buf, Min(n, NTOA_BUFFER_SIZE) - |buf|, base);
  }

  // --------------------------------------------------------------- the # flag

  /** The # flag takes one character, or two in base 16, from a number that fills the width or the precision and
      was given no precision. */
  function Kept(total: nat, base: int, prec: nat, width: nat, fl: Flags): nat {
    if !fl.precision && total > 0 && (total == prec || total == width) then
      total - (if base == 16 && total > 1 then 2 else 1)
    else total
  }

  lemma {:induction false} PrefixBelow(s: seq<char>, base: int, n: nat)
    requires base >= 1 && BelowBase(s, base) && n <= |s|
    ensures 0 <= ValueOf(s[..n], base) < Power(base, n)
    decreases n
  {
    hide DigitValue;
    if n > 0 {
      PrefixBelow(s[1..], base, n - 1);
      assert s[..n][1..] == s[1..][..n - 1] && s[..n][0] == s[0];
      PowerUnfold(base, n);
      Below(base, Power(base, n - 1), ValueOf(s[1..][..n - 1], base), DigitValue(s[0]));
    }
  }

  lemma {:induction false} ZerosAre(buf: seq<char>, prec: nat, width: nat, fl: Flags)
    requires |buf| <= NTOA_BUFFER_SIZE
    ensures |Zeros(buf, prec, width, fl)| >= |buf|
    ensures Zeros(buf, prec, width, fl) == buf + Repeat('0', |Zeros(buf, prec, width, fl)| - |buf|)
  {
    var z := Zeros(buf, prec, width, fl);
    forall k | |buf| <= k < |z| ensures z[k] == '0' { }
    forall k | 0 <= k < |buf| ensures z[k] == buf[k] { }
    assert z == buf + Repeat('0', |z| - |buf|);
  }

  lemma {:induction false} ZerosPrefix(n: nat, m: nat)
    requires m <= n
    ensures Repeat('0', n)[..m] == Repeat('0', m)
  {
  }

  lemma {:induction false} ShortenedIs(z: seq<char>, base: int, prec: nat, width: nat, fl: Flags)
    ensures Kept(|z|, base, prec, width, fl) <= |z|
    ensures Shortened(z, base, prec, width, fl) == z[..Kept(|z|, base, prec, width, fl)]
  {
  }

  /** The number as it is left by the # flag, back to front. */
  function HashNumber(value: nat, base: int, prec: nat, width: nat, fl: Flags): (h: seq<char>)
    requires 2 <= base <= 16
    ensures |h| <= NTOA_BUFFER_SIZE
  {
    Shortened(Zeros(DigitsOf(value, base, fl), prec, width, fl), base, prec, width, fl)
  }

  lemma {:induction false} HashNumberIs(value: nat, base: int, prec: nat, width: nat, fl: Flags)
    requires 2 <= base <= 16
    ensures var ds, h := DigitsOf(value, base, fl), HashNumber(value, base, prec, width, fl);
            |h| == Kept(ZerosLength(|ds|, prec, width, fl), base, prec, width, fl) && BelowBase(h, base)
            && h == (if |h| >= |ds| then ds + Repeat('0', |h| - |ds|) else ds[..|h|])
  {
    hide DigitsOf, Repeat, Zeros, Shortened, Kept, ZerosLength, DigitValue;
    var ds := DigitsOf(value, base, fl);
    var z := Zeros(ds, prec, width, fl);
    ZerosTotal(ds, prec, width, fl);
    ZerosAre(ds, prec, width, fl);
    ZerosBelow(value, base, prec, width, fl);
    ShortenedIs(z, base, prec, width, fl);
    var n := Kept(|z|, base, prec, width, fl);
    if n >= |ds| {
      ZerosPrefix(|z| - |ds|, n - |ds|);
      assert z[..n] == ds + Repeat('0', |z| - |ds|)[..n - |ds|];
    }
  }

  /** It reads back as the value exactly if no digit had to go and the digits were all there. */
  lemma {:induction false} HashValue(value: nat, base: int, prec: nat, width: nat, fl: Flags)
    requires 2 <= base <= 16 && value > 0
    ensures var h := HashNumber(value, base, prec, width, fl);
            ReadValue(Reverse(h), base) == value
            <==> |h| >= |DigitsOf(value, base, fl)| && value < Power(base, 32)
  {
    hide DigitsUpTo, Power, ReadValue, Reverse, Repeat, ValueOf, BelowBase, HashNumber, Kept, ZerosLength;
    var ds, h := DigitsOf(value, base, fl), HashNumber(value, base, prec, width, fl);
    HashNumberIs(value, base, prec, width, fl);
    ReadReverse(h, base);
    DigitsExact(value, base, fl.uppercase);
    DigitsTop(value, base, fl.uppercase, 32);
    DigitsBelow(value, base, fl.uppercase, 32);
    if |h| >= |ds| {
      ZerosValue(ds, |h| - |ds|, base);
    } else {
      PrefixBelow(ds, base, |h|);
      PowerGrows(base, |h|, |ds| - 1);
    }
  }

  function Mark(base: int, fl: Flags): seq<char> {
    if base == 16 then (if fl.uppercase then "0X" else "0x") else if base == 2 then "0b" else "0"
  }

  /** The text is spaces, the sign asked for, the whole mark, and digits that read back as the value, the spaces
      behind if the flags say so. */
  ghost predicate ShowsMarked(text: seq<char>, negative: bool, value: nat, base: int, fl: Flags) {
    exists body, spaces: nat :: MarkedAs(text, body, spaces, negative, value, base, fl)
  }

  ghost predicate MarkedAs(text: seq<char>, body: seq<char>, spaces: nat, negative: bool, value: nat, base: int,
                           fl: Flags) {
    text == Arranged(SignText(negative, fl) + Mark(base, fl), body, spaces, fl)
    && BelowBase(body, base) && ReadValue(body, base) == value
  }

  /** The characters of a number of so many digits with the # flag, before its mark. */
  function MarkedLength(digits: nat, negative: bool, base: int, prec: nat, width: nat, fl: Flags): nat {
    var w := SignedWidth(negative, width, fl);
    Kept(ZerosLength(digits, prec, w, fl), base, prec, w, fl)
  }

  /** What a conversion with the # flag needs, from the number of digits, the sign, the precision, the width and the
      flags: that no digit goes to make room, that the buffer holds the mark, and the sign behind it. In base 8 the
      mark is a zero, and where it does not fit the number begins with a zero of its own. A space asked for as the
      sign may come from the width instead. */
  predicate HashFits(digits: nat, negative: bool, base: int, prec: nat, width: nat, fl: Flags) {
    var kept := MarkedLength(digits, negative, base, prec, width, fl);
    kept >= digits && (base == 8 || kept + 2 <= NTOA_BUFFER_SIZE)
    && (SignText(negative, fl) == "" || kept + |Mark(base, fl)| < NTOA_BUFFER_SIZE
        || (SignText(negative, fl) == " " && !fl.left && !fl.zeropad && width > NTOA_BUFFER_SIZE))
  }

  /** The text without sign and spaces: what BaseMark leaves, turned round. */
  lemma {:induction false} MarkedCore(h: seq<char>, base: int, fl: Flags)
    requires |h| <= NTOA_BUFFER_SIZE
    ensures var core := Reverse(BaseMark(h, base, fl));
            if base != 2 && base != 16 then core == (if |h| < 32 then "0" else "") + Reverse(h)
            else if |h| <= 30 then core == Mark(base, fl) + Reverse(h)
            else if |h| == 31 then core == [Mark(base, fl)[1]] + Reverse(h)
            else core == Reverse(h)
    ensures |Reverse(h)| == |h| && |Reverse(BaseMark(h, base, fl))| == |BaseMark(h, base, fl)|
    ensures |BaseMark(h, base, fl)| == Min(NTOA_BUFFER_SIZE, |h| + |Mark(base, fl)|)
  {
    hide Reverse, Append, Mark, BaseMark;
    var letter := if base == 2 then 'b' else if fl.uppercase then 'X' else 'x';
    MarkIs(base, fl);
    BaseMarkIs(h, base, fl, letter);
    if base == 2 || base == 16 { LetterTurned(h, letter); } else { AppendTurned(h, '0'); }
  }

  lemma {:induction false} LetterTurned(h: seq<char>, letter: char)
    requires |h| <= NTOA_BUFFER_SIZE
    ensures var b := Append(Append(h, letter), '0');
            |Reverse(h)| == |h| && |Reverse(b)| == |b| == Min(NTOA_BUFFER_SIZE, |h| + 2)
            && Reverse(b) == (if |h| <= 30 then "0" + [letter] else if |h| == 31 then [letter] else "") + Reverse(h)
    ensures "" + Reverse(h) == Reverse(h)
  {
    hide Reverse, Append;
    AppendTurned(h, letter);
    AppendTurned(Append(h, letter), '0');
    var r := Reverse(h);
    assert "0" + ([letter] + r) == ("0" + [letter]) + r && "" + ([letter] + r) == [letter] + r && "" + r == r;
  }

  lemma {:induction false} BaseMarkIs(h: seq<char>, base: int, fl: Flags, letter: char)
    requires |h| <= NTOA_BUFFER_SIZE && letter == if base == 2 then 'b' else if fl.uppercase then 'X' else 'x'
    ensures BaseMark(h, base, fl)
         == if base == 2 || base == 16 then Append(Append(h, letter), '0') else Append(h, '0')
  {
    hide Append;
  }

  lemma {:induction false} MarkIs(base: int, fl: Flags)
    ensures var m := Mark(base, fl);
            if base == 2 || base == 16 then |m| == 2 && m == "0" + [m[1]]
                 && m[1] == (if base == 2 then 'b' else if fl.uppercase then 'X' else 'x')
            else m == "0"
  {
  }

  lemma {:induction false} AppendTurned(buf: seq<char>, c: char)
    requires |buf| <= NTOA_BUFFER_SIZE
    ensures Reverse(Append(buf, c)) == (if |buf| < NTOA_BUFFER_SIZE then [c] else "") + Reverse(buf)
    ensures |Append(buf, c)| == Min(|buf| + 1, NTOA_BUFFER_SIZE)
    ensures |Reverse(buf)| == |buf| && |Reverse(Append(buf, c))| == |Append(buf, c)|
  {
  }

  lemma {:induction false} HashTextIs(value: nat, negative: bool, base: int, prec: nat, width: nat, fl: Flags)
    requires 2 <= base <= 16 && value > 0 && fl.hash
    ensures var w := SignedWidth(negative, width, fl);
            var b := BaseMark(HashNumber(value, base, prec, w, fl), base, fl);
            var sign := if |b| < NTOA_BUFFER_SIZE then SignText(negative, fl) else "";
            var spaces := if fl.zeropad && !fl.left then 0 else Max(0, w - |sign| - |b|);
            IntText(value, negative, base, prec, width, fl) == Arranged(sign, Reverse(b), spaces, fl)
  {
    hide DigitsOf, Reverse, Zeros, Shortened, BaseMark, SignedWidth, Signed, Padded, Arranged, SignText, Max;
    var w := SignedWidth(negative, width, fl);
    PaddedIs(BaseMark(HashNumber(value, base, prec, w, fl), base, fl), negative, w, fl);
  }

  predicate NoSpace(s: seq<char>) {
    s != [] && ' ' !in s
  }

  /** Spaces are told apart from what stands between them. */
  lemma {:induction false} CoreUnique(c: seq<char>, m: nat, mark: seq<char>, body: seq<char>, n: nat, fl: Flags)
    requires NoSpace(c) && NoSpace(mark + body)
    requires Arranged("", c, m, fl) == Arranged(mark, body, n, fl)
    ensures c == mark + body
  {
    var d := mark + body;
    if fl.left {
      assert "" + c == c;
      assert c + Repeat(' ', m) == d + Repeat(' ', n);
      LeftUnique(c, m, d, n);
    } else {
      assert Repeat(' ', m) + "" + c == Repeat(' ', m) + c;
      assert Repeat(' ', n) + mark + body == Repeat(' ', n) + d;
      RightUnique(c, m, d, n);
    }
  }

  /** A character of s, or a NUL past its ends. */
  function LetterAt(s: seq<char>, k: int): char {
    if 0 <= k < |s| then s[k] else 0 as char
  }

  lemma {:induction false} LeftLetters(c: seq<char>, m: nat, k: nat)
    requires NoSpace(c)
    ensures |c + Repeat(' ', m)| == |c| + m
    ensures k < |c| + m ==> (LetterAt(c + Repeat(' ', m), k) == ' ' <==> |c| <= k)
  {
  }

  lemma {:induction false} RightLetters(c: seq<char>, m: nat, k: nat)
    requires NoSpace(c)
    ensures |Repeat(' ', m) + c| == m + |c|
    ensures k < m + |c| ==> (LetterAt(Repeat(' ', m) + c, k) == ' ' <==> k < m)
  {
  }

  lemma {:induction false} LeftUnique(c: seq<char>, m: nat, d: seq<char>, n: nat)
    requires NoSpace(c) && NoSpace(d) && c + Repeat(' ', m) == d + Repeat(' ', n)
    ensures c == d
  {
    var s, t := c + Repeat(' ', m), d + Repeat(' ', n);
    LeftLetters(c, m, |c|);
    LeftLetters(c, m, |d|);
    LeftLetters(d, n, |c|);
    LeftLetters(d, n, |d|);
    assert s[..|c|] == c && t[..|d|] == d;
  }

  lemma {:induction false} RightUnique(c: seq<char>, m: nat, d: seq<char>, n: nat)
    requires NoSpace(c) && NoSpace(d) && Repeat(' ', m) + c == Repeat(' ', n) + d
    ensures c == d
  {
    var s, t := Repeat(' ', m) + c, Repeat(' ', n) + d;
    RightLetters(c, m, m);
    RightLetters(c, m, n);
    RightLetters(d, n, m);
    RightLetters(d, n, n);
    assert s[m..] == c && t[n..] == d;
  }

  lemma {:induction false} MarkDigits(base: int, fl: Flags, h: seq<char>)
    requires 2 <= base <= 16 && |h| <= NTOA_BUFFER_SIZE && BelowBase(h, base)
    ensures BelowBase(Reverse(h), base) && |Reverse(h)| == |h|
    ensures NoSpace(Reverse(BaseMark(h, base, fl))) && NoSign(Reverse(BaseMark(h, base, fl)))
    ensures base == 2 || base == 16
         ==> Mark(base, fl)[0] == '0' && Mark(base, fl)[1] != '0' && !(DigitValue(Mark(base, fl)[1]) < base)
  {
    hide BaseMark, DigitValue;
    MarkedCore(h, base, fl);
    LetterValues();
    BelowNoSign(Reverse(h), base);
    assert |h| > 0 ==> Reverse(h) != [];
  }

  lemma {:induction false} LetterValues()
    ensures DigitValue('x') == 16 && DigitValue('X') == 16 && DigitValue('b') == 11
  {
  }

  /** Leading zeros read as nothing. */
  lemma {:induction false} ReadZero(s: seq<char>, base: int)
    ensures ReadValue("0" + s, base) == ReadValue(s, base)
  {
    if s == [] {
      assert "0" + s == "0";
      assert ReadValue("0", base) == ReadValue([], base) * base + DigitValue('0');
    } else {
      ReadZero(s[..|s| - 1], base);
      assert ("0" + s)[..|s|] == "0" + s[..|s| - 1];
    }
  }

  /** The rest of a text behind its mark is the number. */
  ghost predicate NumberIs(core: seq<char>, value: nat, base: int, fl: Flags) {
    Mark(base, fl) <= core && BelowBase(core[|Mark(base, fl)|..], base)
    && ReadValue(core[|Mark(base, fl)|..], base) == value
  }

  /** Which text reads back as the value, by the sign it shows and what follows the sign. */
  lemma {:induction false} CoreShows(sign: seq<char>, core: seq<char>, spaces: nat, text: seq<char>, negative: bool,
                                     value: nat, base: int, fl: Flags)
    requires base in {2, 8, 16} && NoSpace(core) && NoSign(core) && text == Arranged(sign, core, spaces, fl)
    requires sign == "" || sign == SignText(negative, fl)
    ensures ShowsMarked(text, negative, value, base, fl)
       <==> NumberIs(core, value, base, fl)
            && (sign == SignText(negative, fl) || (SignText(negative, fl) == " " && !fl.left && spaces > 0))
  {
    hide ReadValue, DigitValue, BelowBase, Repeat, Mark, SignText, Arranged, NoSpace, NoSign;
    var mark, asked := Mark(base, fl), SignText(negative, fl);
    if ShowsMarked(text, negative, value, base, fl) {
      var body, n: nat :| MarkedAs(text, body, n, negative, value, base, fl);
      BodyNoSpace(body, base, fl);
      SignIs(negative, fl);
      if asked == " " {
        SpaceBefore(mark, body, n, fl);
        SpaceUnique(sign, core, spaces, mark + body, n, fl);
      } else {
        SignUnique(sign, core, spaces, asked, mark, body, n, fl);
      }
      assert core[|mark|..] == body;
    }
    if NumberIs(core, value, base, fl) {
      var body := core[|mark|..];
      assert mark + body == core;
      if sign == asked {
        MarkBefore(asked, mark, body, spaces, fl);
        assert MarkedAs(text, body, spaces, negative, value, base, fl);
      } else if asked == " " && !fl.left && spaces > 0 {
        MarkBefore(asked, mark, body, spaces - 1, fl);
        SpaceTaken(core, spaces, fl);
        assert MarkedAs(text, body, spaces - 1, negative, value, base, fl);
      }
    }
  }

  lemma {:induction false} SignIs(negative: bool, fl: Flags)
    ensures var s := SignText(negative, fl);
            s == "" || s == "-" || s == "+" || s == " "
  {
  }

  /** A sign that is no space is told apart from spaces and number. */
  lemma {:induction false} SignUnique(sign: seq<char>, core: seq<char>, spaces: nat, asked: seq<char>, mark: seq<char>,
                                      body: seq<char>, n: nat, fl: Flags)
    requires NoSpace(core) && NoSign(core) && NoSpace(mark + body) && (sign == "" || sign == asked)
    requires asked == "" || asked == "-" || asked == "+"
    requires Arranged(sign, core, spaces, fl) == Arranged(asked + mark, body, n, fl)
    ensures sign == asked && core == mark + body
  {
    hide Arranged, Repeat;
    SignBefore(sign, core, spaces, fl);
    assert asked + mark + body == asked + (mark + body);
    CoreUnique(sign + core, spaces, asked + mark, body, n, fl);
    NoSignFirst(core, asked, mark + body);
    assert "" + core == core && (sign + core)[|sign|..] == core;
    assert (asked + (mark + body))[|asked|..] == mark + body;
  }

  lemma {:induction false} NoSignFirst(core: seq<char>, sign: seq<char>, rest: seq<char>)
    requires NoSign(core) && (sign == "-" || sign == "+" || sign == "")
    ensures sign != "" ==> core != sign + rest
  {
    if sign != "" { assert (sign + rest)[0] == sign[0]; }
  }

  lemma {:induction false} SignBefore(sign: seq<char>, core: seq<char>, spaces: nat, fl: Flags)
    ensures Arranged(sign, core, spaces, fl) == Arranged("", sign + core, spaces, fl)
  {
    assert "" + (sign + core) == sign + core;
    assert Repeat(' ', spaces) + "" + (sign + core) == Repeat(' ', spaces) + sign + core;
  }

  /** A space as the sign is there if it is the first character or one of the spaces in front. */
  lemma {:induction false} SpaceUnique(sign: seq<char>, core: seq<char>, spaces: nat, d: seq<char>, n: nat, fl: Flags)
    requires NoSpace(core) && NoSpace(d) && (sign == "" || sign == " ")
    requires Arranged(sign, core, spaces, fl) == Arranged(" ", d, n, fl)
    ensures core == d && (sign == " " || (!fl.left && spaces > 0))
  {
    var s, t := Arranged(sign, core, spaces, fl), Arranged(" ", d, n, fl);
    NoSpaceFirst(core, spaces, d, n);
    if fl.left {
      assert sign == "" ==> s == core + Repeat(' ', spaces);
      assert s[|sign|..] == core + Repeat(' ', spaces) && t[1..] == d + Repeat(' ', n);
      LeftUnique(core, spaces, d, n);
    } else {
      MoreSpaces(spaces);
      MoreSpaces(n);
      assert sign == "" ==> s == Repeat(' ', spaces) + core;
      assert sign == " " ==> s == Repeat(' ', spaces + 1) + core;
      assert t == Repeat(' ', n + 1) + d;
      RightUnique(core, spaces + |sign|, d, n + 1);
      RepeatLength(spaces + |sign|);
      RepeatLength(n + 1);
    }
  }

  lemma {:induction false} NoSpaceFirst(core: seq<char>, spaces: nat, d: seq<char>, n: nat)
    requires NoSpace(core)
    ensures core + Repeat(' ', spaces) != " " + d + Repeat(' ', n)
  {
    assert (" " + d + Repeat(' ', n))[0] == ' ';
    assert (core + Repeat(' ', spaces))[0] == core[0];
  }

  lemma {:induction false} MoreSpaces(n: nat)
    ensures Repeat(' ', n) + " " == Repeat(' ', n + 1)
  {
  }

  lemma {:induction false} SpaceTaken(core: seq<char>, spaces: nat, fl: Flags)
    requires !fl.left && spaces > 0
    ensures Arranged("", core, spaces, fl) == Arranged(" ", core, spaces - 1, fl)
  {
    MoreSpaces(spaces - 1);
    assert Repeat(' ', spaces) + "" == Repeat(' ', spaces);
  }

  lemma {:induction false} SpaceBefore(mark: seq<char>, body: seq<char>, n: nat, fl: Flags)
    ensures Arranged(" " + mark, body, n, fl) == Arranged(" ", mark + body, n, fl)
  {
    MarkBefore(" ", mark, body, n, fl);
  }

  lemma {:induction false} BodyNoSpace(body: seq<char>, base: int, fl: Flags)
    requires base in {2, 8, 16} && BelowBase(body, base)
    ensures NoSpace(Mark(base, fl) + body)
  {
    hide DigitValue;
    BelowNoSign(body, base);
  }

  lemma {:induction false} MarkBefore(sign: seq<char>, mark: seq<char>, body: seq<char>, spaces: nat, fl: Flags)
    ensures Arranged(sign, mark + body, spaces, fl) == Arranged(sign + mark, body, spaces, fl)
  {
    assert sign + (mark + body) == sign + mark + body;
    assert Repeat(' ', spaces) + sign + (mark + body) == Repeat(' ', spaces) + (sign + mark) + body;
  }

  /** In base 8 the text always begins with a zero, the mark or one of the number's own. */
  lemma {:induction false} OctalShows(value: nat, prec: nat, width: nat, fl: Flags)
    requires 0 < value < 0x1_0000_0000_0000_0000
    ensures var h := HashNumber(value, 8, prec, width, fl);
            var core := Reverse(BaseMark(h, 8, fl));
            "0" <= core && BelowBase(core[1..], 8)
            && (ReadValue(core[1..], 8) == value <==> |h| >= |DigitsOf(value, 8, fl)|)
  {
    hide DigitsUpTo, Power, ReadValue, Reverse, Repeat, BelowBase, HashNumber, BaseMark;
    var ds, h := DigitsOf(value, 8, fl), HashNumber(value, 8, prec, width, fl);
    var core := Reverse(BaseMark(h, 8, fl));
    DigitCount(value, 8, fl.uppercase);
    HashNumberIs(value, 8, prec, width, fl);
    HashValue(value, 8, prec, width, fl);
    MarkedCore(h, 8, fl);
    MarkDigits(8, fl, h);
    if |h| < 32 {
      assert core[1..] == Reverse(h);
    } else {
      LastZero(ds, 32 - |ds|);
      assert core == Reverse(h);
      assert core == "0" + core[1..];
      ReadZero(core[1..], 8);
      TailBelow(core, 8);
    }
  }

  lemma {:induction false} TailBelow(s: seq<char>, base: int)
    requires s != [] && BelowBase(s, base)
    ensures BelowBase(s[1..], base)
  {
    hide DigitValue;
  }

  lemma {:induction false} LastZero(ds: seq<char>, n: nat)
    requires n > 0
    ensures var s := ds + Repeat('0', n);
            |Reverse(s)| == |s| && Reverse(s)[0] == '0'
  {
  }

  /** With the # flag a nonzero number is printed as the format asks, spaces, sign, mark and digits that read back,
      exactly if no digit had to make room and mark and sign fit the buffer. */
  lemma {:induction false} HashExact(value: nat, negative: bool, base: int, prec: nat, width: nat, fl: Flags)
    requires base in {2, 8, 16} && 0 < value < 0x1_0000_0000_0000_0000 && fl.hash
    ensures ShowsMarked(IntText(value, negative, base, prec, width, fl), negative, value, base, fl)
       <==> HashFits(|DigitsOf(value, base, fl)|, negative, base, prec, width, fl)
  {
    hide DigitsOf, DigitValue, ReadValue, Reverse, Repeat, BelowBase, HashNumber, BaseMark, IntText, Kept, ZerosLength,
         ShowsMarked, Arranged, Power, Mark, Max, SignText, SignedWidth, NumberIs;
    var w := SignedWidth(negative, width, fl);
    var h := HashNumber(value, base, prec, w, fl);
    var b := BaseMark(h, base, fl);
    var sign := if |b| < NTOA_BUFFER_SIZE then SignText(negative, fl) else "";
    var spaces := SpacesFor(w - |sign| - |b|, fl);
    HashTextIs(value, negative, base, prec, width, fl);
    HashNumberIs(value, base, prec, w, fl);
    MarkedCore(h, base, fl);
    MarkDigits(base, fl, h);
    CoreShows(sign, Reverse(b), spaces, IntText(value, negative, base, prec, width, fl), negative, value, base, fl);
    NumberFits(value, base, prec, w, fl);
    WidthKept(negative, width, fl);
    OctalMark(fl);
  }

  function SpacesFor(n: int, fl: Flags): (s: nat)
    ensures s == if fl.zeropad && !fl.left then 0 else Max(0, n)
    ensures s > 0 <==> n > 0 && (fl.left || !fl.zeropad)
  {
    if fl.zeropad && !fl.left then 0 else Max(0, n)
  }

  lemma {:induction false} WidthKept(negative: bool, width: nat, fl: Flags)
    ensures !fl.zeropad ==> SignedWidth(negative, width, fl) == width
  {
  }

  /** When the number stands behind its mark. */
  lemma {:induction false} NumberFits(value: nat, base: int, prec: nat, w: nat, fl: Flags)
    requires base in {2, 8, 16} && 0 < value < 0x1_0000_0000_0000_0000
    ensures var h := HashNumber(value, base, prec, w, fl);
            NumberIs(Reverse(BaseMark(h, base, fl)), value, base, fl)
            <==> |h| >= |DigitsOf(value, base, fl)| && (base == 8 || |h| + 2 <= NTOA_BUFFER_SIZE)
  {
    hide DigitsOf, DigitValue, ReadValue, Reverse, BelowBase, HashNumber, BaseMark, Mark;
    if base == 8 {
      OctalMark(fl);
      OctalShows(value, prec, w, fl);
    } else {
      LetteredShows(value, base, prec, w, fl);
    }
  }

  lemma {:induction false} OctalMark(fl: Flags)
    ensures Mark(8, fl) == "0" && |Mark(2, fl)| == 2 && |Mark(16, fl)| == 2
  {
  }

  /** In the bases whose mark has a letter, the text shows it only if it fits. */
  lemma {:induction false} LetteredShows(value: nat, base: int, prec: nat, width: nat, fl: Flags)
    requires base in {2, 16} && 0 < value < 0x1_0000_0000_0000_0000
    ensures var h, mark := HashNumber(value, base, prec, width, fl), Mark(base, fl);
            var core := Reverse(BaseMark(h, base, fl));
            |mark| == 2 && (mark <= core && BelowBase(core[2..], base) && ReadValue(core[2..], base) == value
            <==> |h| >= |DigitsOf(value, base, fl)| && |h| <= 30)
  {
    hide DigitsOf, DigitValue, ReadValue, Reverse, Repeat, HashNumber, BaseMark, Kept, ZerosLength, Power;
    var h, mark := HashNumber(value, base, prec, width, fl), Mark(base, fl);
    var core := Reverse(BaseMark(h, base, fl));
    HashNumberIs(value, base, prec, width, fl);
    MarkedCore(h, base, fl);
    MarkDigits(base, fl, h);
    HashValue(value, base, prec, width, fl);
    if |h| <= 30 {
      assert core[2..] == Reverse(h);
      if |h| >= |DigitsOf(value, base, fl)| { ShortValue(value, base, fl); }
    }
  }

  lemma {:induction false} ShortValue(value: nat, base: int, fl: Flags)
    requires 2 <= base <= 16 && value > 0 && |DigitsOf(value, base, fl)| <= 30
    ensures value < Power(base, 32)
  {
    hide DigitsUpTo, Power;
    var k := |DigitsOf(value, base, fl)|;
    DigitsTop(value, base, fl.uppercase, 32);
    PowerGrows(base, k, 32);
  }

  /** Printing 128 in base 2 with # and a width of eight loses its top digit. */
  lemma {:induction false} HashLosesDigit()
    ensures IntText(128, false, 2, 0, 8, NO_FLAGS.(hash := true)) == "0b0000000"
  {
    var fl := NO_FLAGS.(hash := true);
    hide DigitsUpTo, DigitsOf, Reverse;
    Digits128(fl);
    assert Formatted("00000001", false, 2, 0, 8, fl) == "0000000b0";
    hide Formatted;
    Turned();
  }

  lemma {:induction false} Digits128(fl: Flags)
    ensures !fl.precision ==> DigitsOf(128, 2, fl) == "00000001"
  {
    hide DigitsUpTo;
    EvenDigits(64, 32, fl.uppercase);
    EvenDigits(32, 31, fl.uppercase);
    EvenDigits(16, 30, fl.uppercase);
    EvenDigits(8, 29, fl.uppercase);
    EvenDigits(4, 28, fl.uppercase);
    EvenDigits(2, 27, fl.uppercase);
    EvenDigits(1, 26, fl.uppercase);
    OneDigit(2, 25, fl.uppercase);
  }

  lemma {:induction false} EvenDigits(v: nat, n: nat, upper: bool)
    requires v > 0 && n > 1
    ensures DigitsUpTo(2 * v, 2, upper, n) == "0" + DigitsUpTo(v, 2, upper, n - 1)
  {
  }

  lemma {:induction false} OneDigit(base: int, n: nat, upper: bool)
    requires 2 <= base <= 16 && n >= 1
    ensures DigitsUpTo(1, base, upper, n) == "1"
  {
  }

  lemma {:induction false} Turned()
    ensures Reverse("0000000b0") == "0b0000000"
  {
  }

  /** Printing 1 in base 16 with # and 31 digits has no room for the zero of its mark. */
  lemma {:induction false} HashLosesMark()
    ensures var fl := NO_FLAGS.(hash := true, precision := true);
            var text := IntText(1, false, 16, 31, 0, fl);
            |text| == 32 && text[0] == 'x' && !ShowsMarked(text, false, 1, 16, fl)
  {
    var fl := NO_FLAGS.(hash := true, precision := true);
    hide DigitsUpTo, Reverse, BaseMark, IntText, ShowsMarked, HashNumber, HashFits;
    OneDigit(16, 32, false);
    HashExact(1, false, 16, 31, 0, fl);
    NoRoom(fl);
    HashTextIs(1, false, 16, 31, 0, fl);
    HashNumberIs(1, 16, 31, 0, fl);
    MarkedCore(HashNumber(1, 16, 31, 0, fl), 16, fl);
  }

  lemma {:induction false} NoRoom(fl: Flags)
    ensures fl.precision && !fl.zeropad && !fl.left ==> !HashFits(1, false, 16, 31, 0, fl)
  {
  }

  /** The - and + of a number are printed exactly if they fit behind the number, its leading zeros and its mark. */
  lemma {:induction false} SignPrinted(value: nat, negative: bool, base: int, prec: nat, width: nat, fl: Flags)
    requires 2 <= base <= 16
    ensures var text, d := IntText(value, negative, base, prec, width, fl), |DigitsOf(value, base, fl)|;
            var fits := if fl.hash && value > 0 then
                          MarkedLength(d, negative, base, prec, width, fl) + |Mark(base, fl)| < NTOA_BUFFER_SIZE
                        else SignFits(d, prec, width, fl);
            ('-' in text <==> negative && fits) && ('+' in text <==> !negative && fl.plus && fits)
  {
    hide IntText, DigitsOf, MarkedLength, Mark, SignFits;
    if fl.hash && value > 0 {
      MarkedSign(value, negative, base, prec, width, fl);
    } else {
      PlainSign(value, negative, base, prec, width, fl);
    }
  }

  lemma {:induction false} PlainSign(value: nat, negative: bool, base: int, prec: nat, width: nat, fl: Flags)
    requires 2 <= base <= 16 && (fl.hash ==> value == 0)
    ensures var text := IntText(value, negative, base, prec, width, fl);
            var fits := SignFits(|DigitsOf(value, base, fl)|, prec, width, fl);
            ('-' in text <==> negative && fits) && ('+' in text <==> !negative && fl.plus && fits)
  {
    hide IntText, DigitsOf, Body, Repeat, SignFits, NaturalLength, LengthFits, Arranged, Max;
    IntTextIs(value, negative, base, prec, width, fl);
    var body := Body(value, negative, base, prec, width, fl);
    BodyBelow(value, negative, base, prec, width, fl);
    BelowNoSign(body, base);
    var sign := SignShown(negative, |DigitsOf(value, base, fl)|, prec, width, fl);
    SignSeen(sign, body, if fl.zeropad && !fl.left then 0 else Max(0, width - |sign| - |body|), negative, fl);
  }

  lemma {:induction false} MarkedSign(value: nat, negative: bool, base: int, prec: nat, width: nat, fl: Flags)
    requires 2 <= base <= 16 && fl.hash && value > 0
    ensures var text := IntText(value, negative, base, prec, width, fl);
            var kept := MarkedLength(|DigitsOf(value, base, fl)|, negative, base, prec, width, fl);
            var fits := kept + |Mark(base, fl)| < NTOA_BUFFER_SIZE;
            ('-' in text <==> negative && fits) && ('+' in text <==> !negative && fl.plus && fits)
  {
    hide DigitsOf, DigitValue, Reverse, HashNumber, BaseMark, IntText, Kept, ZerosLength, Arranged, Mark, Max,
         SignedWidth;
    var w := SignedWidth(negative, width, fl);
    var h := HashNumber(value, base, prec, w, fl);
    var b := BaseMark(h, base, fl);
    var sign := if |b| < NTOA_BUFFER_SIZE then SignText(negative, fl) else "";
    HashTextIs(value, negative, base, prec, width, fl);
    HashNumberIs(value, base, prec, w, fl);
    MarkedCore(h, base, fl);
    MarkDigits(base, fl, h);
    SignSeen(sign, Reverse(b), if fl.zeropad && !fl.left then 0 else Max(0, w - |sign| - |b|), negative, fl);
  }
}
