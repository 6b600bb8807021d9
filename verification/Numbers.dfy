/** The C library's integer conversions, as far as the parser and the printer use them. */
module Numbers {
  import opened Chars

  const LONG_MAX: int := 0x7FFF_FFFF_FFFF_FFFF
  const LONG_MIN: int := -0x8000_0000_0000_0000

  /** Conversion of a `long` to `int` */
  function ToInt32(v: int): (r: int)
    ensures -0x8000_0000 <= r < 0x8000_0000
  {
    var m := v % 0x1_0000_0000;
    if m < 0x8000_0000 then m else m - 0x1_0000_0000
  }

  /** Value of `c` as a digit of `base`, or -1 */
  function DigitOf(c: char, base: nat): (d: int)
    ensures -1 <= d && (d == -1 || d < base)
  {
    var v := if '0' <= c <= '9' then c as int - '0' as int
             else if 'a' <= c <= 'z' then c as int - 'a' as int + 10
             else if 'A' <= c <= 'Z' then c as int - 'A' as int + 10
             else -1;
    if 0 <= v < base then v else -1
  }

  /** `isspace` in the C locale, as `strtol` skips it */
  predicate IsCSpace(c: char) {
    c == ' ' || 9 <= c as int <= 13
  }

  function SkipSpaces(s: string, i: nat): (j: nat)
    requires i <= |s|
    ensures i <= j <= |s|
    decreases |s| - i
  {
    if i < |s| && IsCSpace(s[i]) then SkipSpaces(s, i + 1) else i
  }

  /** End of the run of `base` digits that starts at `i`, with the accumulated value. */
  function ScanDigits(s: string, i: nat, base: nat, acc: nat): (r: (nat, nat))
    requires i <= |s|
    ensures i <= r.1 <= |s|
    decreases |s| - i
  {
    if i < |s| && DigitOf(s[i], base) >= 0
    then ScanDigits(s, i + 1, base, acc * base + DigitOf(s[i], base))
    else (acc, i)
  }

  function Clamp(v: int): int {
    if v > LONG_MAX then LONG_MAX else if v < LONG_MIN then LONG_MIN else v
  }

  /** `strtol(s, &end, base)`: the value, and the offset of `end` from the start. */
  function StrToL(s: string, base: nat): (r: (int, nat))
    ensures r.1 <= |s|
  {
    var j := SkipSpaces(s, 0);
    var neg := j < |s| && s[j] == '-';
    var k := if j < |s| && (s[j] == '-' || s[j] == '+') then j + 1 else j;
    var hex := (base == 0 || base == 16) && k + 2 < |s| && s[k] == '0' &&
               (s[k + 1] == 'x' || s[k + 1] == 'X') && DigitOf(s[k + 2], 16) >= 0;
    var b := if hex then 16
             else if base == 0 then (if k < |s| && s[k] == '0' then 8 else 10)
             else base;
    var start := if hex then k + 2 else k;
    var (v, end) := ScanDigits(s, start, b, 0);
    if end == start then (0, 0) else (Clamp(if neg then 0 - v as int else v as int), end)
  }

  /** Decimal digits of a natural number, as `%d` prints them. */
  function Digits(n: nat): (s: string)
    ensures s != [] && forall i :: 0 <= i < |s| ==> IsDigit(s[i])
  {
    if n < 10 then [n as char + '0'] else Digits(n / 10) + [(n % 10) as char + '0']
  }

  /** `sprintf("%d")` */
  function Decimal(n: int): string {
    if n < 0 then "-" + Digits(-n) else Digits(n)
  }

  /** Scanning the digits of `n` leaves the scanner behind them with `n` accumulated. */
  lemma {:induction false} ScanPrefix(n: nat, pre: string, tail: string)
    ensures ScanDigits(pre + Digits(n) + tail, |pre|, 10, 0)
         == ScanDigits(pre + Digits(n) + tail, |pre| + |Digits(n)|, 10, n)
  {
    if n < 10 {
      assert (pre + Digits(n) + tail)[|pre|] == Digits(n)[0];
    } else {
      var d := [(n % 10) as char + '0'];
      assert pre + Digits(n) + tail == pre + Digits(n / 10) + (d + tail);
      ScanPrefix(n / 10, pre, d + tail);
      assert (pre + Digits(n) + tail)[|pre| + |Digits(n / 10)|] == d[0];
      assert n / 10 * 10 + n % 10 == n;
    }
  }

  /** A decimal numeral has no leading zero, unless it is "0" itself. */
  lemma {:induction false} LeadingDigit(n: nat)
    ensures Digits(n)[0] == '0' <==> n == 0
    ensures n < 10 ==> |Digits(n)| == 1
  {
    if n >= 10 {
      LeadingDigit(n / 10);
    }
  }

  /** Printing a C `int` with "%d" and reading it with `strtol(.., 0)` gives it back, and
      consumes the whole numeral. */
  lemma {:induction false} DecimalRoundTrip(n: int)
    requires -0x8000_0000 <= n < 0x8000_0000
    ensures StrToL(Decimal(n), 0) == (n, |Decimal(n)|)
    ensures Decimal(n) != [] && forall i :: 0 <= i < |Decimal(n)| ==> Decimal(n)[i] == '-' || IsDigit(Decimal(n)[i])
  {
    hide ScanDigits, Digits, StrToL;
    var m: nat := if n < 0 then -n else n;
    var sign := if n < 0 then "-" else "";
    var s := Decimal(n);
    assert s == sign + Digits(m) + "";
    LeadingDigit(m);
    if m == 0 {
      ZeroNumeral();
      assert Digits(0) == "0" by { ZeroDigits(); }
      assert s == "0";
    } else {
      ScanPrefix(m, sign, "");
      ScanAtEnd(s, m);
      assert s[|sign|] == Digits(m)[0] && IsDigit(s[|sign|]);
      DecimalNumeral(s, |sign|, m);
    }
  }

  lemma {:induction false} ZeroDigits()
    ensures Digits(0) == "0"
  {
  }

  lemma {:induction false} ZeroNumeral()
    ensures StrToL("0", 0) == (0, 1)
  {
    assert ScanDigits("0", 0, 8, 0) == ScanDigits("0", 1, 8, 0);
  }

  lemma {:induction false} ScanAtEnd(s: string, acc: nat)
    ensures ScanDigits(s, |s|, 10, acc) == (acc, |s|)
  {
  }

  /** A numeral without leading zero is read in base 10. */
  lemma {:induction false} DecimalNumeral(s: string, k: nat, m: nat)
    requires k <= 1 && k < |s| && (k == 1 ==> s[0] == '-') && IsDigit(s[k]) && s[k] != '0'
    requires ScanDigits(s, k, 10, 0) == (m, |s|) && m <= 0x8000_0000
    ensures StrToL(s, 0) == (if k == 1 then -(m as int) else m, |s|)
  {
    hide ScanDigits, DigitOf;
    assert SkipSpaces(s, 0) == 0;
  }
}
