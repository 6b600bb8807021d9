/** References to characters: what stands between '&' and ';', and which character the parser makes of it. */
module References {
  import opened Options
  import opened Chars
  import opened Numbers
  import opened Numerals
  import opened Reader
  import opened TagProofs

  /** What may stand between '&' and ';' */
  predicate NameOk(name: string) {
    |name| <= 63 && forall i :: 0 <= i < |name| ==> NameChar(name[i])
  }

  predicate NameChar(c: char) {
    c == '#' || '0' <= c <= '9' || 'a' <= c <= 'z' || 'A' <= c <= 'Z'
  }

  /** A character that the parser accepts: no control character but tab, newline and return */
  predicate Acceptable(code: int) {
    code >= 32 || code == 9 || code == 10 || code == 13
  }

  // ----- the name of a reference -----

  lemma {:induction false} NameUpTo(n1: string, n2: string, rest: string)
    requires NameOk(n1 + n2)
    requires rest == [] || !NameChar(rest[0])
    ensures ReadEntityName(n2 + rest, n1) == EntityName(n1 + n2, if GetC(rest).Got? then Some(rest[0]) else None, GetC(rest).rest)
    decreases |n2|
  {
    if n2 == [] {
      assert n2 + rest == rest && n1 + n2 == n1;
    } else {
      var tail := n2[1..] + rest;
      assert n2 + rest == [n2[0]] + tail;
      assert (n1 + n2)[|n1|] == n2[0];
      GetCOf(n2[0], tail);
      assert n1 + [n2[0]] + n2[1..] == n1 + n2;
      NameUpTo(n1 + [n2[0]], n2[1..], rest);
    }
  }

  /** A reference is read exactly when its name is closed by ';' within 64 characters and stands for
      an acceptable character. */
  lemma {:induction false} Closed(name: string, rest: string, ents: string -> int)
    requires NameOk(name)
    ensures GetEntity(name + ";" + rest, ents)
         == if Acceptable(EntityValue(name, ents)) then Entity(EntityValue(name, ents), rest) else NoEntity
  {
    hide ReadEntityName, EntityValue;
    NameUpTo("", name, [';'] + rest);
    assert "" + name == name;
    assert name + ";" + rest == name + ([';'] + rest);
    GetCOf(';', rest);
  }

  /** The longest beginning of `s` that could be a name */
  function NameIn(s: string): (n: nat)
    ensures n <= |s| && forall i :: 0 <= i < n ==> NameChar(s[i])
    ensures n < |s| ==> !NameChar(s[n])
  {
    if s == [] || !NameChar(s[0]) then 0 else 1 + NameIn(s[1..])
  }

  lemma {:induction false} NotClosed(s: string, ents: string -> int)
    requires var n := NameIn(s); n > 63 || n == |s| || s[n] != ';'
    ensures GetEntity(s, ents) == NoEntity
  {
    hide EntityValue, ReadEntityName;
    var n := NameIn(s);
    if n > 63 {
      NameTooLong("", s);
    } else {
      NameUpTo("", s[..n], s[n..]);
      assert "" + s[..n] == s[..n] && s[..n] + s[n..] == s;
    }
  }

  lemma {:induction false} NameTooLong(n1: string, s: string)
    requires |n1| <= 63 && |s| > 63 - |n1| && forall i :: 0 <= i <= 63 - |n1| ==> NameChar(s[i])
    ensures ReadEntityName(s, n1).ch != Some(';')
    decreases |s|
  {
    assert s == [s[0]] + s[1..];
    GetCOf(s[0], s[1..]);
    if |n1| < 63 {
      NameTooLong(n1 + [s[0]], s[1..]);
    }
  }

  // ----- numbers -----

  /** An unsigned number, limited to a `long` and then cut to an `int` */
  function Wrapped(n: nat): int {
    if n > 0x7FFF_FFFF_FFFF_FFFF then -1
    else if n % 0x1_0000_0000 < 0x8000_0000 then n % 0x1_0000_0000
    else n % 0x1_0000_0000 - 0x1_0000_0000
  }

  lemma {:induction false} LimitedToInt(n: nat)
    ensures ToInt32(Limited(n)) == Wrapped(n)
    ensures n <= 0x7FFF_FFFF ==> Wrapped(n) == n
  {
  }

  /** Anything behind the digits is skipped. */
  lemma {:induction false} DecimalReference(zeros: nat, n: nat, junk: string, rest: string, ents: string -> int)
    requires NameOk("#" + Zeros(zeros) + Digits(n) + junk) && (junk == [] || !('0' <= junk[0] <= '9'))
    ensures GetEntity("#" + Zeros(zeros) + Digits(n) + junk + ";" + rest, ents)
         == if Acceptable(Wrapped(n)) then Entity(Wrapped(n), rest) else NoEntity
  {
    hide Digits, NameOk, StrToL, ToInt32, Limited, Wrapped, GetEntity, Acceptable, Zeros;
    var name := "#" + Zeros(zeros) + Digits(n) + junk;
    Closed(name, rest, ents);
    DigitsAreDecimal(n, false);
    NumeralStart(n, 10, false);
    ReadsBase(zeros, n, 10, false, junk);
    LimitedToInt(n);
    assert name[1..] == Zeros(zeros) + Digits(n) + junk;
    assert name[1] == if zeros > 0 then '0' else Digits(n)[0];
  }

  lemma {:induction false} HexReference(zeros: nat, n: nat, upper: bool, junk: string, rest: string, ents: string -> int)
    requires NameOk("#x" + Zeros(zeros) + Numeral(n, 16, upper) + junk) && n > 0
    requires junk == [] || junk[0] !in "0123456789abcdefABCDEF"
    ensures GetEntity("#x" + Zeros(zeros) + Numeral(n, 16, upper) + junk + ";" + rest, ents)
         == if Acceptable(Wrapped(n)) then Entity(Wrapped(n), rest) else NoEntity
  {
    hide Numeral, NameOk, StrToL, ToInt32, Limited, Wrapped, GetEntity, Acceptable, Zeros;
    var name := "#x" + Zeros(zeros) + Numeral(n, 16, upper) + junk;
    Closed(name, rest, ents);
    ReadsBase(zeros, n, 16, upper, junk);
    LimitedToInt(n);
    assert name[2..] == Zeros(zeros) + Numeral(n, 16, upper) + junk;
  }

  /** `strtol` skips a "0x" of its own behind the 'x' of the reference. */
  lemma {:induction false} DoublePrefix(x: char, n: nat, upper: bool, junk: string, rest: string, ents: string -> int)
    requires x in "xX" && NameOk("#x0" + [x] + Numeral(n, 16, upper) + junk)
    requires junk == [] || junk[0] !in "0123456789abcdefABCDEF"
    ensures GetEntity("#x0" + [x] + Numeral(n, 16, upper) + junk + ";" + rest, ents)
         == if Acceptable(Wrapped(n)) then Entity(Wrapped(n), rest) else NoEntity
  {
    hide Numeral, NameOk, StrToL, ToInt32, Limited, Wrapped, GetEntity, Acceptable;
    var name := "#x0" + [x] + Numeral(n, 16, upper) + junk;
    Closed(name, rest, ents);
    ReadsPrefixed(x, n, upper, junk);
    LimitedToInt(n);
    assert name[2..] == "0" + [x] + Numeral(n, 16, upper) + junk;
  }

  /** Without a digit the number is zero, which is not acceptable. That includes an upper-case 'X'. */
  lemma {:induction false} NoNumber(hex: bool, junk: string, rest: string, ents: string -> int)
    requires NameOk((if hex then "#x" else "#") + junk)
    requires junk == [] || junk[0] !in (if hex then "0123456789abcdefABCDEF" else "0123456789x")
    ensures GetEntity((if hex then "#x" else "#") + junk + ";" + rest, ents) == NoEntity
  {
    hide NameOk, StrToL, GetEntity;
    var mark := if hex then "#x" else "#";
    var name := mark + junk;
    if junk != [] {
      LastPart(mark, junk);
    }
    Closed(name, rest, ents);
    ReadsNothing(junk, if hex then 16 else 10);
    assert name[|mark|..] == junk;
    assert !hex && junk != [] ==> name[1] == junk[0];
  }

  lemma {:induction false} LastPart(mark: string, junk: string)
    requires NameOk(mark + junk) && junk != []
    ensures NameChar(junk[0])
  {
    assert (mark + junk)[|mark|] == junk[0];
  }

  // ----- references as such -----

  /** The three kinds of reference; numbers may have leading zeros. */
  datatype Reference = ByNumber(zeros: nat, n: nat) | ByHex(zeros: nat, n: nat, upper: bool) | ByName(name: string)

  /** What stands between '&' and ';' */
  function RefName(r: Reference): string {
    match r
    case ByNumber(zeros, n) => "#" + Zeros(zeros) + Digits(n)
    case ByHex(zeros, n, upper) => "#x" + Zeros(zeros) + Numeral(n, 16, upper)
    case ByName(name) => name
  }

  function Code(r: Reference, ents: string -> int): int {
    match r
    case ByNumber(_, n) => n
    case ByHex(_, n, _) => n
    case ByName(name) => ents(name)
  }

  predicate RefOk(r: Reference, ents: string -> int) {
    && Acceptable(Code(r, ents)) && |RefName(r)| <= 63
    && match r
       case ByNumber(_, n) => n <= 0x7FFF_FFFF
       case ByHex(_, n, _) => n <= 0x7FFF_FFFF
       case ByName(name) => NameOk(name) && (name == [] || name[0] != '#')
  }

  /** Every character that fits an `int` and is not forbidden can be referred to by its number, in
      decimal and in hexadecimal, and by any name that the entity callbacks know for it. */
  lemma {:induction false} ReferenceRead(r: Reference, rest: string, ents: string -> int)
    requires RefOk(r, ents)
    ensures GetEntity(RefName(r) + ";" + rest, ents) == Entity(Code(r, ents), rest)
  {
    hide Digits, Numeral, GetEntity, NameOk, Wrapped, Zeros;
    match r
    case ByNumber(zeros, n) =>
      var name := "#" + Zeros(zeros) + Digits(n);
      NumberName(zeros, n);
      LimitedToInt(n);
      assert name + "" == name;
      DecimalReference(zeros, n, "", rest, ents);
    case ByHex(zeros, n, upper) =>
      var name := "#x" + Zeros(zeros) + Numeral(n, 16, upper);
      HexName(zeros, n, upper);
      LimitedToInt(n);
      assert name + "" == name;
      HexReference(zeros, n, upper, "", rest, ents);
    case ByName(name) =>
      Closed(name, rest, ents);
  }

  lemma {:induction false} NumberName(zeros: nat, n: nat)
    requires |"#" + Zeros(zeros) + Digits(n)| <= 63
    ensures NameOk("#" + Zeros(zeros) + Digits(n))
  {
    hide Numeral, Digits;
    DigitsAreDecimal(n, false);
    NumeralStart(n, 10, false);
  }

  lemma {:induction false} HexName(zeros: nat, n: nat, upper: bool)
    requires |"#x" + Zeros(zeros) + Numeral(n, 16, upper)| <= 63
    ensures NameOk("#x" + Zeros(zeros) + Numeral(n, 16, upper))
  {
    hide Numeral;
    NumeralStart(n, 16, upper);
  }

  /** Fifty leading zeros fit with every number that fits an `int`. */
  lemma {:induction false} NumbersFit(zeros: nat, n: nat, upper: bool, ents: string -> int)
    requires n <= 0x7FFF_FFFF && Acceptable(n) && zeros <= 50
    ensures RefOk(ByNumber(zeros, n), ents) && RefOk(ByHex(zeros, n, upper), ents)
  {
    hide Numeral, Digits;
    DigitsAreDecimal(n, false);
    assert Power(10, 10) == 10_000_000_000 by { TenDigits(); }
    NumeralShort(n, 10, false, 10);
    assert Power(16, 8) == 0x1_0000_0000;
    NumeralShort(n, 16, upper, 8);
  }

  lemma {:induction false} TenDigits()
    ensures Power(10, 10) == 10_000_000_000
  {
    assert Power(10, 5) == 100_000;
  }

  // ----- the bytes of a character -----

  /** The value of one UTF-8 sequence: section 3 of RFC 3629, extended to the 21 bits that four bytes
      can hold */
  function FromUtf8(s: string): int
    requires 1 <= |s| <= 4
  {
    match |s|
    case 1 => s[0] as int
    case 2 => (s[0] as int - 0xC0) * 0x40 + (s[1] as int - 0x80)
    case 3 => (s[0] as int - 0xE0) * 0x1000 + (s[1] as int - 0x80) * 0x40 + (s[2] as int - 0x80)
    case _ => (s[0] as int - 0xF0) * 0x40000 + (s[1] as int - 0x80) * 0x1000 + (s[2] as int - 0x80) * 0x40 + (s[3] as int - 0x80)
  }

  /** The number of bytes that UTF-8 needs */
  function Utf8Length(ch: int): nat {
    if ch < 0x80 then 1 else if ch < 0x800 then 2 else if ch < 0x1_0000 then 3 else 4
  }

  predicate IsUtf8(s: string) {
    && 1 <= |s| <= 4
    && (match |s|
        case 1 => s[0] as int < 0x80
        case 2 => 0xC0 <= s[0] as int < 0xE0
        case 3 => 0xE0 <= s[0] as int < 0xF0
        case _ => 0xF0 <= s[0] as int < 0xF8)
    && forall i :: 1 <= i < |s| ==> 0x80 <= s[i] as int < 0xC0
  }

  lemma {:induction false} LowBytes(ch: int)
    ensures forall k: int :: 0 <= k < 0x100 ==> LowByte(k) == k as char
    ensures LowByte(ch) == (ch % 0x100) as char
  {
  }

  /** The parser stores a character as its UTF-8 bytes, unless bit 7 of it is set: then it stores the
      lowest byte alone. */
  lemma {:induction false} StoredAs(ch: int)
    requires 0 <= ch < 0x20_0000
    ensures ch / 0x80 % 2 == 1 ==> AddChar(ch) == [(ch % 0x100) as char]
    ensures ch / 0x80 % 2 == 0 ==> IsUtf8(AddChar(ch)) && |AddChar(ch)| == Utf8Length(ch) && FromUtf8(AddChar(ch)) == ch
  {
    hide LowByte, FromUtf8, IsUtf8;
    LowBytes(ch);
    if ch / 0x80 % 2 == 0 {
      assert AddChar(ch) == Stored(ch);
      StoredValue(ch);
    }
  }

  /** The bytes with their numbers */
  function Stored(ch: int): string
    requires 0 <= ch < 0x20_0000
  {
    if ch < 0x80 then [ch as char]
    else if ch < 0x800 then [(0xC0 + ch / 0x40) as char, (0x80 + ch % 0x40) as char]
    else if ch < 0x1_0000 then
      [(0xE0 + ch / 0x1000) as char, (0x80 + ch / 0x40 % 0x40) as char, (0x80 + ch % 0x40) as char]
    else [(0xF0 + ch / 0x40000) as char, (0x80 + ch / 0x1000 % 0x40) as char, (0x80 + ch / 0x40 % 0x40) as char,
          (0x80 + ch % 0x40) as char]
  }

  lemma {:induction false} StoredValue(ch: int)
    requires 0 <= ch < 0x20_0000
    ensures IsUtf8(Stored(ch)) && |Stored(ch)| == Utf8Length(ch) && FromUtf8(Stored(ch)) == ch
  {
    assert ch / 0x40 / 0x40 == ch / 0x1000 && ch / 0x1000 / 0x40 == ch / 0x40000;
  }
}
