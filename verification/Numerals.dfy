/** Numerals in any base up to 16, and what the C library's `strtol` makes of them. */
module Numerals {
  import opened Chars
  import opened Numbers

  function Glyph(d: nat, upper: bool): char
    requires d < 16
  {
    if upper then "0123456789ABCDEF"[d] else "0123456789abcdef"[d]
  }

  /** `n` in one of the bases that C knows, without leading zeros */
  function Numeral(n: nat, base: nat, upper: bool): (s: string)
    requires base in {8, 10, 16}
    decreases n
  {
    if n < base then [Glyph(n, upper)] else Numeral(n / base, base, upper) + [Glyph(n % base, upper)]
  }

  /** A numeral is its last digit behind the numeral of the quotient. */
  lemma {:induction false} NumeralStep(n: nat, base: nat, upper: bool)
    requires base in {8, 10, 16}
    ensures n < base ==> Numeral(n, base, upper) == [Glyph(n, upper)]
    ensures n >= base ==> n % base < base && 0 < n / base < n && n / base * base + n % base == n &&
                          Numeral(n, base, upper) == Numeral(n / base, base, upper) + [Glyph(n % base, upper)]
  {
    hide Glyph;
  }

  /** The decimal digits that the printer writes are the usual ones. */
  lemma {:induction false} DigitsAreDecimal(n: nat, upper: bool)
    ensures Digits(n) == Numeral(n, 10, upper)
  {
    if n >= 10 {
      DigitsAreDecimal(n / 10, upper);
    }
  }

  lemma {:induction false} GlyphRead(d: nat, upper: bool, base: nat)
    requires d < 16
    ensures DigitOf(Glyph(d, upper), base) == if d < base then d else -1
    ensures Glyph(d, upper) !in "+-xX" && !IsCSpace(Glyph(d, upper)) && IsAlnum(Glyph(d, upper))
    ensures Glyph(d, upper) == '0' <==> d == 0
    ensures d < 10 ==> IsDigit(Glyph(d, upper))
  {
  }

  lemma {:induction false} NumeralStart(n: nat, base: nat, upper: bool)
    requires base in {8, 10, 16}
    ensures var s := Numeral(n, base, upper);
            s != [] && DigitOf(s[0], base) >= 0 && s[0] !in "+-xX" && !IsCSpace(s[0]) && (s[0] == '0' <==> n == 0) &&
            forall i :: 0 <= i < |s| ==> IsAlnum(s[i])
    decreases n
  {
    hide *;
    NumeralStep(n, base, upper);
    if n >= base {
      GlyphRead(n % base, upper, base);
      NumeralStart(n / base, base, upper);
    } else {
      GlyphRead(n, upper, base);
    }
  }

  /** An `int` has at most ten decimal and eight hexadecimal digits. */
  lemma {:induction false} NumeralShort(n: nat, base: nat, upper: bool, k: nat)
    requires base in {8, 10, 16} && 1 <= k && n < Power(base, k)
    ensures |Numeral(n, base, upper)| <= k
    decreases n
  {
    hide Numeral, Glyph, Power;
    NumeralStep(n, base, upper);
    PowerStep(base, k);
    if n >= base {
      NumeralShort(n / base, base, upper, k - 1);
    }
  }

  function Power(base: nat, k: nat): nat {
    if k == 0 then 1 else base * Power(base, k - 1)
  }

  lemma {:induction false} PowerStep(base: nat, k: nat)
    requires base in {8, 10, 16} && k >= 1
    ensures k == 1 ==> Power(base, k) == base
    ensures k > 1 ==> Power(base, k) == base * Power(base, k - 1)
    ensures forall n: nat :: n < Power(base, k) && k > 1 ==> n / base < Power(base, k - 1)
  {
    if k == 1 {
      assert Power(base, 0) == 1;
    }
  }

  /** The scanner goes over a numeral and has its number. */
  lemma {:induction false} ScanNumeral(n: nat, base: nat, upper: bool, pre: string, tail: string)
    requires base in {8, 10, 16}
    ensures var s := pre + Numeral(n, base, upper) + tail; var m := |pre| + |Numeral(n, base, upper)|;
            ScanDigits(s, |pre|, base, 0) == ScanDigits(s, m, base, n)
    decreases n
  {
    hide *;
    NumeralStep(n, base, upper);
    var s := pre + Numeral(n, base, upper) + tail;
    if n < base {
      GlyphRead(n, upper, base);
      ScanStep(s, |pre|, base, 0);
    } else {
      var d := [Glyph(n % base, upper)];
      GlyphRead(n % base, upper, base);
      assert s == pre + Numeral(n / base, base, upper) + (d + tail);
      ScanNumeral(n / base, base, upper, pre, d + tail);
      var k := |pre| + |Numeral(n / base, base, upper)|;
      assert s[k] == d[0];
      ScanStep(s, k, base, n / base);
    }
  }

  lemma {:induction false} ScanStep(s: string, i: nat, base: nat, acc: nat)
    requires i < |s| && DigitOf(s[i], base) >= 0
    ensures ScanDigits(s, i, base, acc) == ScanDigits(s, i + 1, base, acc * base + DigitOf(s[i], base))
  {
    hide DigitOf;
  }

  /** `tail` does not go on with a digit. */
  predicate Ends(tail: string, base: nat) {
    tail == [] || DigitOf(tail[0], base) == -1
  }

  lemma {:induction false} ScanWhole(n: nat, base: nat, upper: bool, pre: string, tail: string)
    requires base in {8, 10, 16} && Ends(tail, base)
    ensures ScanDigits(pre + Numeral(n, base, upper) + tail, |pre|, base, 0) == (n, |pre| + |Numeral(n, base, upper)|)
  {
    hide DigitOf, Numeral;
    ScanNumeral(n, base, upper, pre, tail);
    var s := pre + Numeral(n, base, upper) + tail;
    assert tail != [] ==> s[|s| - |tail|] == tail[0];
  }

  /** The limits of a `long` */
  function Limited(v: int): int {
    if v > 0x7FFF_FFFF_FFFF_FFFF then 0x7FFF_FFFF_FFFF_FFFF
    else if v < -0x8000_0000_0000_0000 then -0x8000_0000_0000_0000
    else v
  }

  /** How the base of an integer can be announced */
  datatype Radix = Ten | Eight | Sixteen(x: char)

  function Base(r: Radix): nat {
    match r
    case Ten => 10
    case Eight => 8
    case Sixteen(_) => 16
  }

  function Announced(r: Radix): string {
    match r
    case Ten => ""
    case Eight => "0"
    case Sixteen(x) => ['0', x]
  }

  lemma {:induction false} SkipsSpaces(spaces: string, rest: string, i: nat)
    requires i <= |spaces| && forall k :: 0 <= k < |spaces| ==> spaces[k] in " \t\n\U{0B}\U{0C}\r"
    requires rest != [] && !IsCSpace(rest[0])
    ensures SkipSpaces(spaces + rest, i) == |spaces|
    decreases |spaces| - i
  {
    if i < |spaces| {
      assert (spaces + rest)[i] == spaces[i];
      SkipsSpaces(spaces, rest, i + 1);
    } else {
      assert (spaces + rest)[i] == rest[0];
    }
  }

  /** A number as `strtol` accepts it: blanks, a sign, and what announces the base */
  datatype Lead = Lead(blanks: string, sign: string, radix: Radix)

  predicate LeadOk(l: Lead) {
    && (forall k :: 0 <= k < |l.blanks| ==> l.blanks[k] in " \t\n\U{0B}\U{0C}\r")
    && (l.sign == "" || l.sign == "+" || l.sign == "-")
    && (l.radix.Sixteen? ==> l.radix.x in "xX")
  }

  function LeadText(l: Lead): string {
    l.blanks + l.sign + Announced(l.radix)
  }

  /** What `strtol` finds behind blanks and a sign */
  ghost predicate NumberAt(s: string, k: nat, minus: bool) {
    && k < |s|
    && (var j := SkipSpaces(s, 0);
        minus == (j < |s| && s[j] == '-') && k == if j < |s| && (s[j] == '-' || s[j] == '+') then j + 1 else j)
  }

  lemma {:induction false} LeadSkipped(l: Lead, rest: string, s: string)
    requires LeadOk(l) && s == l.blanks + l.sign + rest
    requires rest != [] && rest[0] !in "+-" && !IsCSpace(rest[0])
    ensures NumberAt(s, |l.blanks| + |l.sign|, l.sign == "-") && s[|l.blanks| + |l.sign|] == rest[0]
  {
    assert s == l.blanks + (l.sign + rest);
    SkipsSpaces(l.blanks, l.sign + rest, 0);
    assert (l.sign + rest)[0] == s[|l.blanks|];
  }

  /** The number at `k` is a plain run of digits in base `b`. */
  lemma {:induction false} ReadsRun(s: string, base: nat, k: nat, minus: bool, b: nat, n: nat, end: nat)
    requires NumberAt(s, k, minus) && ScanDigits(s, k, b, 0) == (n, end) && k < end
    requires base == 0 || base == 16 ==> s[k] == '0' ==> k + 1 < |s| ==> s[k + 1] !in "xX"
    requires b == if base == 0 then (if s[k] == '0' then 8 else 10) else base
    ensures StrToL(s, base) == (Limited(if minus then 0 - n as int else n), end)
  {
    hide ScanDigits, SkipSpaces, DigitOf;
  }

  lemma {:induction false} ReadsHex(s: string, base: nat, k: nat, minus: bool, n: nat, end: nat)
    requires base == 0 || base == 16
    requires NumberAt(s, k, minus) && k + 2 < |s| && s[k] == '0' && s[k + 1] in "xX" && DigitOf(s[k + 2], 16) >= 0
    requires ScanDigits(s, k + 2, 16, 0) == (n, end) && k + 2 < end
    ensures StrToL(s, base) == (Limited(if minus then 0 - n as int else n), end)
  {
    hide ScanDigits, SkipSpaces, DigitOf;
  }

  /** Base 0 lets the numeral itself say its base: "0x" sixteen, another "0" eight, and ten otherwise. */
  lemma {:induction false} ReadsAnyBase(l: Lead, n: nat, upper: bool, tail: string)
    requires LeadOk(l) && Ends(tail, Base(l.radix)) && (l.radix == Ten ==> n > 0)
    ensures var digits := Numeral(n, Base(l.radix), upper);
            StrToL(LeadText(l) + digits + tail, 0)
              == (Limited(if l.sign == "-" then 0 - n as int else n), |LeadText(l)| + |digits|)
  {
    hide Numeral, StrToL, ScanDigits, NumberAt, DigitOf, IsCSpace, IsAlnum, IsDigit, Limited;
    var digits := Numeral(n, Base(l.radix), upper);
    var s := LeadText(l) + digits + tail;
    var rest := Announced(l.radix) + digits + tail;
    NumeralStart(n, Base(l.radix), upper);
    ScanWhole(n, Base(l.radix), upper, LeadText(l), tail);
    assert s == l.blanks + l.sign + rest;
    assert !IsCSpace(rest[0]) by { ZeroIsNoSpace(); }
    LeadSkipped(l, rest, s);
    var k := |l.blanks| + |l.sign|;
    var end := |LeadText(l)| + |digits|;
    match l.radix
    case Sixteen(x) =>
      assert s[k + 1] == x && s[k + 2] == digits[0];
      ReadsHex(s, 0, k, l.sign == "-", n, end);
    case Eight =>
      assert s[k + 1] == digits[0];
      ScanZero(s, k);
      ReadsRun(s, 0, k, l.sign == "-", 8, n, end);
    case Ten =>
      ReadsRun(s, 0, k, l.sign == "-", 10, n, end);
  }

  lemma {:induction false} ZeroIsNoSpace()
    ensures !IsCSpace('0')
  {
  }

  lemma {:induction false} ScanZero(s: string, k: nat)
    requires k < |s| && s[k] == '0'
    ensures ScanDigits(s, k, 8, 0) == ScanDigits(s, k + 1, 8, 0)
  {
  }

  function Zeros(k: nat): (s: string)
    ensures |s| == k && forall i :: 0 <= i < k ==> s[i] == '0'
  {
    seq(k, i => '0')
  }

  lemma {:induction false} ScanZeros(s: string, i: nat, k: nat, base: nat)
    requires base == 10 || base == 16
    requires i <= k <= |s| && forall j :: i <= j < k ==> s[j] == '0'
    ensures ScanDigits(s, i, base, 0) == ScanDigits(s, k, base, 0)
    decreases k - i
  {
    if i < k {
      ZeroDigit(base);
      ScanZeros(s, i + 1, k, base);
    }
  }

  /** Without a sign and blanks, for the bases that character references use. Leading zeros do not
      change the base. */
  lemma {:induction false} ReadsBase(zeros: nat, n: nat, base: nat, upper: bool, tail: string)
    requires base == 10 || base == 16
    requires Ends(tail, base) && (base == 16 ==> n > 0)
    ensures StrToL(Zeros(zeros) + Numeral(n, base, upper) + tail, base) == (Limited(n), zeros + |Numeral(n, base, upper)|)
  {
    hide Numeral, StrToL, ScanDigits, NumberAt, DigitOf, IsCSpace, IsAlnum, IsDigit, Limited, Zeros;
    var digits := Numeral(n, base, upper);
    var s := Zeros(zeros) + digits + tail;
    NumeralStart(n, base, upper);
    ScanWhole(n, base, upper, Zeros(zeros), tail);
    ScanZeros(s, 0, zeros, base);
    var l := Lead("", "", Ten);
    assert s == l.blanks + l.sign + s;
    assert s[0] == if zeros > 0 then '0' else digits[0];
    ZeroIsNoSpace();
    LeadSkipped(l, s, s);
    assert zeros > 0 ==> s[1] == if zeros > 1 then '0' else digits[0];
    ReadsRun(s, base, 0, false, base, n, zeros + |digits|);
  }

  /** Base 16 allows a "0x" before the digits. */
  lemma {:induction false} ReadsPrefixed(x: char, n: nat, upper: bool, tail: string)
    requires x in "xX" && Ends(tail, 16)
    ensures StrToL("0" + [x] + Numeral(n, 16, upper) + tail, 16) == (Limited(n), 2 + |Numeral(n, 16, upper)|)
  {
    hide Numeral, StrToL, ScanDigits, NumberAt, DigitOf, IsCSpace, IsAlnum, IsDigit, Limited;
    var digits := Numeral(n, 16, upper);
    var s := "0" + [x] + digits + tail;
    NumeralStart(n, 16, upper);
    ScanWhole(n, 16, upper, "0" + [x], tail);
    var l := Lead("", "", Ten);
    assert s == l.blanks + l.sign + s;
    ZeroIsNoSpace();
    LeadSkipped(l, s, s);
    assert s[2] == digits[0];
    ReadsHex(s, 16, 0, false, n, 2 + |digits|);
  }

  /** Without a digit there is no number. */
  lemma {:induction false} ReadsNothing(s: string, base: nat)
    requires s == [] || (DigitOf(s[0], base) == -1 && s[0] !in "+-" && !IsCSpace(s[0]))
    requires base == 10 || base == 16
    ensures StrToL(s, base) == (0, 0)
  {
    hide DigitOf, IsCSpace;
    if s != [] {
      SkipsSpaces("", s, 0);
      assert "" + s == s;
    }
    assert s != [] ==> s[0] == '0' ==> DigitOf('0', base) >= 0 by { hide *; ZeroDigit(base); }
  }

  lemma {:induction false} ZeroDigit(base: nat)
    requires base == 10 || base == 16
    ensures DigitOf('0', base) == 0
  {
  }

  /** The conversion to `int` keeps the number modulo 2 to the 32, and no other `int` does. */
  lemma {:induction false} CutToInt(v: int, r: int)
    requires -0x8000_0000 <= r < 0x8000_0000
    ensures ToInt32(v) == r <==> (v - r) % 0x1_0000_0000 == 0
  {
    assert (v - ToInt32(v)) % 0x1_0000_0000 == 0;
  }
}
