/**
 What one integer conversion of kprintf prints, as a function of value, base, precision, width and
 flags, and which value the digits it writes have.
 */
module PrintfText {
  import opened Arithmetic
  import opened Powers

  const NTOA_BUFFER_SIZE: int := 32

  /** The flags of a directive. */
  datatype Flags = Flags(zeropad: bool, left: bool, plus: bool, space: bool, hash: bool, uppercase: bool,
                         char8: bool, short16: bool, long64: bool, longlong: bool, precision: bool)

  const NO_FLAGS: Flags := Flags(false, false, false, false, false, false, false, false, false, false, false)

  // -------------------------------------------------------------------- digits

  function DigitChar(d: int, upper: bool): char
    requires 0 <= d < 16
  {
    if d < 10 then ('0' as int + d) as char
    else if upper then ('A' as int + d - 10) as char
    else ('a' as int + d - 10) as char
  }

  /** The value of a digit in any base up to 16. */
  function DigitValue(c: char): int {
    if '0' <= c <= '9' then c as int - '0' as int
    else if 'A' <= c <= 'F' then c as int - 'A' as int + 10
    else if 'a' <= c <= 'f' then c as int - 'a' as int + 10
    else 16
  }

  lemma {:induction false} DigitBack(d: int, upper: bool)
    requires 0 <= d < 16
    ensures DigitValue(DigitChar(d, upper)) == d
  {
  }

  function Quot(v: nat, base: int): (q: nat)
    requires base >= 1
  {
    v / base
  }

  function Rem(v: nat, base: int): (r: nat)
    requires base >= 1
    ensures r < base
  {
    v % base
  }

  lemma {:induction false} DivMod(v: nat, base: int)
    requires base >= 1
    ensures v == base * Quot(v, base) + Rem(v, base)
  {
  }

  /** The digits of a value, least significant first, at most n of them; a zero has one. */
  function DigitsUpTo(value: nat, base: int, upper: bool, n: nat): (r: seq<char>)
    requires 2 <= base <= 16 && n >= 1
    ensures 1 <= |r| <= n
    decreases n
  {
    [DigitChar(Rem(value, base), upper)]
    + if Quot(value, base) != 0 && n > 1 then DigitsUpTo(Quot(value, base), base, upper, n - 1) else []
  }

  /** The value of digits, least significant first. */
  function ValueOf(digits: seq<char>, base: int): int {
    if digits == [] then 0 else DigitValue(digits[0]) + base * ValueOf(digits[1..], base)
  }

  /** The value of digits, most significant first, as they are read. */
  function ReadValue(text: seq<char>, base: int): int {
    if text == [] then 0 else ReadValue(text[..|text| - 1], base) * base + DigitValue(text[|text| - 1])
  }

  function Reverse(s: seq<char>): (r: seq<char>)
    ensures |r| == |s|
    ensures forall k :: 0 <= k < |s| ==> r[k] == s[|s| - 1 - k]
  {
    if s == [] then [] else Reverse(s[1..]) + [s[0]]
  }

  /** Reading what was written back to front. */
  lemma {:induction false} ReadReverse(s: seq<char>, base: int)
    ensures ReadValue(Reverse(s), base) == ValueOf(s, base)
  {
    if s != [] {
      ReadReverse(s[1..], base);
      var r := Reverse(s);
      assert r[..|r| - 1] == Reverse(s[1..]) && r[|r| - 1] == s[0];
      Commute(ValueOf(s[1..], base), base);
    }
  }

  lemma {:induction false} ModDigit(v: int, base: int, p: int)
    requires v >= 0 && base >= 1 && p >= 1
    ensures base * p >= 1 && Rem(v, base * p) == Rem(v, base) + base * Rem(Quot(v, base), p)
  {
    hide Quot, Rem;
    var q, r := Quot(v, base), Rem(v, base);
    var a, b := Quot(q, p), Rem(q, p);
    DivMod(v, base);
    DivMod(q, p);
    AtLeast(base, p);
    Regroup3(base, p, a, b);
    Below(base, p, b, r);
    UniqueMod(v, base * p, a, r + base * b);
  }

  lemma {:induction false} Regroup3(base: int, p: int, a: int, b: int)
    ensures base * (p * a + b) == (base * p) * a + base * b
  {
  }

  lemma {:induction false} Below(base: int, p: int, b: int, r: int)
    requires base >= 1 && 0 <= b < p && 0 <= r < base
    ensures 0 <= r + base * b < base * p
  {
    Distribute(base, b, p - b);
    AtLeast(base, p - b);
    NotNegative(base, b);
  }

  lemma {:induction false} UniqueMod(v: nat, m: int, a: int, r: int)
    requires 0 <= r < m && v == m * a + r
    ensures Rem(v, m) == r
  {
    hide Quot, Rem;
    DivMod(v, m);
    var d := Quot(v, m) - a;
    Distribute(m, a, d);
    if d >= 1 { AtLeast(m, d); }
    if d <= -1 {
      AtLeast(m, -d);
      Negated(m, d);
    }
  }

  lemma {:induction false} FirstDigit(value: nat, base: int, upper: bool, n: nat)
    requires 2 <= base <= 16 && n >= 1
    ensures var ds, q := DigitsUpTo(value, base, upper, n), Quot(value, base);
            DigitValue(ds[0]) == Rem(value, base) && ds[1..]
              == (if q != 0 && n > 1 then DigitsUpTo(q, base, upper, n - 1) else [])
            && |ds| == 1 + (if q != 0 && n > 1 then |DigitsUpTo(q, base, upper, n - 1)| else 0)
            && ValueOf(ds, base) == DigitValue(ds[0]) + base * ValueOf(ds[1..], base)
            && ValueOf([], base) == 0
  {
    DigitBack(Rem(value, base), upper);
  }

  lemma {:induction false} PowerUnfold(base: int, n: nat)
    requires n >= 1
    ensures Power(base, n) == base * Power(base, n - 1) && Power(base, 0) == 1
  {
  }

  /** The digits written are those of the value modulo the buffer's capacity. */
  lemma {:induction false} DigitsValue(value: nat, base: int, upper: bool, n: nat)
    requires 2 <= base <= 16 && n >= 1
    ensures Power(base, n) >= 1
    ensures ValueOf(DigitsUpTo(value, base, upper, n), base) == Rem(value, Power(base, n))
    decreases n
  {
    hide Quot, Rem, Power, DigitsUpTo, ValueOf, DigitValue;
    var q := Quot(value, base);
    PowerPositive(base, n - 1);
    PowerUnfold(base, n);
    ModDigit(value, base, Power(base, n - 1));
    FirstDigit(value, base, upper, n);
    if q != 0 && n > 1 {
      DigitsValue(q, base, upper, n - 1);
    } else if q == 0 {
      UniqueMod(0, Power(base, n - 1), 0, 0);
    } else {
      UniqueMod(q, 1, q, 0);
    }
  }

  /** The buffer is long enough exactly for the values below base^32. */
  lemma {:induction false} DigitsExact(value: nat, base: int, upper: bool)
    requires 2 <= base <= 16
    ensures ValueOf(DigitsUpTo(value, base, upper, 32), base) == value <==> value < Power(base, 32)
  {
    hide DigitsUpTo, ValueOf, Power, Quot, Rem;
    DigitsValue(value, base, upper, 32);
    var m := Power(base, 32);
    if value < m { UniqueMod(value, m, 0, value); }
  }

  /** No leading zero: a value with k + 1 digits written is at least base^k; with room left it is below
      base^(k + 1). */
  lemma {:induction false} DigitsTop(value: nat, base: int, upper: bool, n: nat)
    requires 2 <= base <= 16 && n >= 1
    ensures var k := |DigitsUpTo(value, base, upper, n)|;
            (Power(base, k - 1) <= value || (value == 0 && k == 1)) && (k < n ==> value < Power(base, k))
    decreases n
  {
    hide Quot, Rem, Power, DigitsUpTo, ValueOf, DigitValue;
    var q, k := Quot(value, base), |DigitsUpTo(value, base, upper, n)|;
    DivMod(value, base);
    FirstDigit(value, base, upper, n);
    PowerUnfold(base, k);
    if q != 0 && n > 1 {
      DigitsTop(q, base, upper, n - 1);
      PowerUnfold(base, k - 1);
      TopStep(base, Power(base, k - 2), Power(base, k - 1), q, Rem(value, base));
    } else if q == 0 {
      assert base * q == 0;
    } else {
      AtLeast(base, q);
    }
  }

  lemma {:induction false} TopStep(base: int, low: int, high: int, q: int, r: int)
    requires base >= 1 && 0 <= r < base && q >= 1
    ensures low <= q ==> base * low <= base * q + r
    ensures q < high ==> base * q + r < base * high
  {
    if low <= q { Scale(base, low, q); }
    if q < high { Below(base, high, q, r); }
  }

  lemma {:induction false} Scale(base: int, p: int, q: int)
    requires base >= 1 && p <= q
    ensures base * p <= base * q
  {
    Distribute(base, p, q - p);
    NotNegative(base, q - p);
  }

  lemma {:induction false} EightTo22()
    ensures Power(8, 22) == 0x4_0000_0000_0000_0000
  {
    assert Power(8, 5) == 32768;
    assert Power(8, 10) == 32768 * Power(8, 5);
    assert Power(8, 15) == 32768 * Power(8, 10);
    assert Power(8, 20) == 32768 * Power(8, 15);
    assert Power(8, 22) == 64 * Power(8, 20);
  }

  lemma {:induction false} PowerMonotone(a: int, b: int, n: nat)
    requires 1 <= a <= b
    ensures 1 <= Power(a, n) <= Power(b, n)
  {
    if n > 0 {
      PowerMonotone(a, b, n - 1);
      Scale(a, Power(a, n - 1), Power(b, n - 1));
      Scale(Power(b, n - 1), a, b);
      Commute(Power(b, n - 1), a);
      Commute(Power(b, n - 1), b);
      AtLeast(a, Power(a, n - 1));
    }
  }

  lemma {:induction false} PowerGrows(a: int, n: nat, m: nat)
    requires a >= 1 && n <= m
    ensures 1 <= Power(a, n) <= Power(a, m)
    decreases m - n
  {
    PowerPositive(a, n);
    if n < m {
      PowerGrows(a, n, m - 1);
      Scale(Power(a, m - 1), 1, a);
      Commute(Power(a, m - 1), a);
    }
  }

  /** A 64-bit value has at most 22 digits in base 8 and above. */
  lemma {:induction false} DigitCount(value: nat, base: int, upper: bool)
    requires 8 <= base <= 16 && value < 0x1_0000_0000_0000_0000
    ensures |DigitsUpTo(value, base, upper, 32)| <= 22
    ensures Power(base, 32) > value
  {
    hide DigitsUpTo, Power;
    EightTo22();
    PowerMonotone(8, base, 22);
    PowerGrows(base, 22, 32);
    DigitsTop(value, base, upper, 32);
    var n := |DigitsUpTo(value, base, upper, 32)|;
    if n > 22 { PowerGrows(base, 22, n - 1); }
  }

  // ---------------------------------------------------------------- the conversion

  function Repeat(c: char, n: int): (r: seq<char>)
    ensures |r| == (if n < 0 then 0 else n)
    ensures forall k :: 0 <= k < |r| ==> r[k] == c
  {
    if n <= 0 then [] else Repeat(c, n - 1) + [c]
  }

  /** Zeros up to n characters, as far as the buffer goes. */
  function ZeroFill(buf: seq<char>, n: int): (r: seq<char>)
    requires |buf| <= NTOA_BUFFER_SIZE
    ensures |r| == Max(|buf|, Min(n, NTOA_BUFFER_SIZE))
  {
    buf + Repeat('0', Min(n, NTOA_BUFFER_SIZE) - |buf|)
  }

  /** The width that is left for zeros and spaces once a sign has its place. */
  function SignedWidth(negative: bool, width: nat, fl: Flags): nat {
    if !fl.left && width > 0 && fl.zeropad && (negative || fl.plus || fl.space) then width - 1 else width
  }

  /** Leading zeros: for the precision, then for the width. */
  function Zeros(buf: seq<char>, prec: nat, width: nat, fl: Flags): (r: seq<char>)
    requires |buf| <= NTOA_BUFFER_SIZE
    ensures |r| <= NTOA_BUFFER_SIZE
  {
    if fl.left then buf
    else
      var b := ZeroFill(buf, prec);
      if fl.zeropad then ZeroFill(b, width) else b
  }

  /** What the # flag takes away to make room for the base. */
  function Shortened(buf: seq<char>, base: int, prec: nat, width: nat, fl: Flags): (r: seq<char>)
    ensures |r| <= |buf|
  {
    if !fl.precision && |buf| > 0 && (|buf| == prec || |buf| == width) then
      buf[..if base == 16 && |buf| > 1 then |buf| - 2 else |buf| - 1]
    else buf
  }

  /** One more character, if the buffer has room. */
  function Append(buf: seq<char>, c: char): (r: seq<char>)
    requires |buf| <= NTOA_BUFFER_SIZE
    ensures |r| <= NTOA_BUFFER_SIZE
  {
    if |buf| < NTOA_BUFFER_SIZE then buf + [c] else buf
  }

  /** The mark of the base: 0x, 0X, 0b or 0, back to front. */
  function BaseMark(buf: seq<char>, base: int, fl: Flags): (r: seq<char>)
    requires |buf| <= NTOA_BUFFER_SIZE
    ensures |r| <= NTOA_BUFFER_SIZE
  {
    var b := if base == 16 then Append(buf, if fl.uppercase then 'X' else 'x')
             else if base == 2 then Append(buf, 'b')
             else buf;
    Append(b, '0')
  }

  function Signed(buf: seq<char>, negative: bool, fl: Flags): (r: seq<char>)
    requires |buf| <= NTOA_BUFFER_SIZE
    ensures |r| <= NTOA_BUFFER_SIZE
  {
    if negative then Append(buf, '-')
    else if fl.plus then Append(buf, '+')
    else if fl.space then Append(buf, ' ')
    else buf
  }

  /** The buffer, back to front, before it is written out. */
  function Formatted(buf: seq<char>, negative: bool, base: int, prec: nat, width: nat, fl: Flags): (r: seq<char>)
    requires |buf| <= NTOA_BUFFER_SIZE
    ensures |r| <= NTOA_BUFFER_SIZE
  {
    var w := SignedWidth(negative, width, fl);
    var z := Zeros(buf, prec, w, fl);
    var h := if fl.hash then BaseMark(Shortened(z, base, prec, w, fl), base, fl) else z;
    Signed(h, negative, fl)
  }

  /** Turned round, with spaces up to the width before or behind. */
  function Padded(buf: seq<char>, width: nat, fl: Flags): seq<char> {
    (if !fl.left && !fl.zeropad then Repeat(' ', width - |buf|) else [])
    + Reverse(buf)
    + (if fl.left then Repeat(' ', width - |buf|) else [])
  }

  /** The digits of a value: none for a zero when a precision is given. */
  function DigitsOf(value: nat, base: int, fl: Flags): (r: seq<char>)
    requires 2 <= base <= 16
    ensures |r| <= NTOA_BUFFER_SIZE
  {
    if fl.precision && value == 0 then [] else DigitsUpTo(value, base, fl.uppercase, 32)
  }

  /** A zero takes no # flag. */
  function FlagsOf(value: nat, fl: Flags): Flags {
    Flags(fl.zeropad, fl.left, fl.plus, fl.space, fl.hash && value != 0, fl.uppercase, fl.char8, fl.short16, fl.long64,
          fl.longlong, fl.precision)
  }

  /** What _ntoa_long prints. */
  function IntText(value: nat, negative: bool, base: int, prec: nat, width: nat, fl: Flags): seq<char>
    requires 2 <= base <= 16
  {
    var f := FlagsOf(value, fl);
    Padded(Formatted(DigitsOf(value, base, fl), negative, base, prec, width, f), SignedWidth(negative, width, f), f)
  }
}
