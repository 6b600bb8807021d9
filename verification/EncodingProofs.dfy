/** The codecs are inverse to each other, as far as the code makes them so. */
module EncodingProofs {
  import opened Encodings

  const MAX_CODE: bv32 := 0x1FFFFF

  /** A character that survives encoding */
  predicate Encodable(ch: bv32) {
    ch <= MAX_CODE && !BadChar(ch)
  }

  // ----- bits -----

  lemma {:induction false} Bits1(ch: bv32)
    requires ch < 0x80
    ensures Low(ch) & 0x80 == 0 && Low(ch) as bv32 == ch
  {
  }

  lemma {:induction false} Bits2(ch: bv32)
    requires 0x80 <= ch < 0x800
    ensures var a, b := Low(0xc0 | (ch >> 6)), Low(0x80 | (ch & 0x3f));
            a != 0 && a & 0x80 != 0 && a & 0xe0 == 0xc0 && a != 0xfe && a != 0xff && Continues(b) && Six(a as bv32 & 0x1f, b) == ch
  {
  }

  lemma {:induction false} Bits3(ch: bv32)
    requires 0x800 <= ch < 0x10000
    ensures var a, b, c := Low(0xe0 | (ch >> 12)), Low(0x80 | ((ch >> 6) & 0x3f)), Low(0x80 | (ch & 0x3f));
            a & 0x80 != 0 && a & 0xe0 != 0xc0 && a & 0xf0 == 0xe0 && a != 0xfe && a != 0xff &&
            Continues(b) && Continues(c) && Six(Six(a as bv32 & 0x0f, b), c) == ch
  {
  }

  lemma {:induction false} Bits4(ch: bv32)
    requires 0x10000 <= ch <= MAX_CODE
    ensures var a, b, c, d := Low(0xf0 | (ch >> 18)), Low(0x80 | ((ch >> 12) & 0x3f)), Low(0x80 | ((ch >> 6) & 0x3f)), Low(0x80 | (ch & 0x3f));
            a & 0x80 != 0 && a & 0xe0 != 0xc0 && a & 0xf0 != 0xe0 && a & 0xf8 == 0xf0 && a != 0xfe && a != 0xff &&
            Continues(b) && Continues(c) && Continues(d) && Six(Six(Six(a as bv32 & 0x07, b), c), d) == ch
  {
  }

  lemma {:induction false} Back2(a: Byte, b: Byte)
    requires a & 0x80 != 0 && a & 0xe0 == 0xc0 && Continues(b)
    ensures var ch := Six(a as bv32 & 0x1f, b);
            ch < 0x800 && Low(0xc0 | (ch >> 6)) == a && Low(0x80 | (ch & 0x3f)) == b
  {
  }

  lemma {:induction false} Back3(a: Byte, b: Byte, c: Byte)
    requires a & 0xf0 == 0xe0 && Continues(b) && Continues(c)
    ensures var ch := Six(Six(a as bv32 & 0x0f, b), c);
            ch < 0x10000 && Low(0xe0 | (ch >> 12)) == a && Low(0x80 | ((ch >> 6) & 0x3f)) == b && Low(0x80 | (ch & 0x3f)) == c
  {
  }

  lemma {:induction false} Back4(a: Byte, b: Byte, c: Byte, d: Byte)
    requires a & 0xf8 == 0xf0 && Continues(b) && Continues(c) && Continues(d)
    ensures var ch := Six(Six(Six(a as bv32 & 0x07, b), c), d);
            ch <= MAX_CODE && Low(0xf0 | (ch >> 18)) == a && Low(0x80 | ((ch >> 12) & 0x3f)) == b &&
            Low(0x80 | ((ch >> 6) & 0x3f)) == c && Low(0x80 | (ch & 0x3f)) == d
  {
  }

  // ----- UTF-8: section 3 of RFC 3629 -----

  /** What `mxml_add_char` stores for a character, both readers give back, and they stop right
      behind it. */
  lemma {:induction false} DecodeEncoded(ch: bv32, rest: seq<Byte>)
    requires Encodable(ch)
    ensures StringGetC(Encode(ch) + rest, UTF8) == Got(ch, rest, UTF8)
    ensures StreamGetC(Encode(ch) + rest, UTF8) == Got(ch, rest, UTF8)
  {
    var s := Encode(ch) + rest;
    if ch < 0x80 {
      Bits1(ch);
      DecodeOne(ch, s, rest);
    } else if ch < 0x800 {
      DecodeTwo(ch, s, rest);
    } else if ch < 0x10000 {
      DecodeThree(ch, s, rest);
    } else {
      DecodeFour(ch, s, rest);
    }
  }

  lemma {:induction false} DecodeOne(ch: bv32, s: seq<Byte>, rest: seq<Byte>)
    requires ch < 0x80 && !BadChar(ch) && s == [Low(ch)] + rest
    ensures StringGetC(s, UTF8) == StreamGetC(s, UTF8) == Got(ch, rest, UTF8)
  {
    Bits1(ch);
    assert s[1..] == rest;
    hide Low;
  }

  lemma {:induction false} DecodeTwo(ch: bv32, s: seq<Byte>, rest: seq<Byte>)
    requires 0x80 <= ch < 0x800 && s == Encode(ch) + rest
    ensures StringGetC(s, UTF8) == StreamGetC(s, UTF8) == Got(ch, rest, UTF8)
  {
    Bits2(ch);
    var e := Encode(ch);
    assert s == [e[0], e[1]] + rest;
    ReadTwo(e[0], e[1], ch, s, rest);
  }

  lemma {:induction false} ReadTwo(a: Byte, b: Byte, ch: bv32, s: seq<Byte>, rest: seq<Byte>)
    requires Leads(a, 1) && Continues(b) && ch == Six(a as bv32 & 0x1f, b) && ch >= 0x80
    requires s == [a, b] + rest
    ensures StringGetC(s, UTF8) == StreamGetC(s, UTF8) == Got(ch, rest, UTF8)
  {
    var t := s[1..];
    assert t == [b] + rest && t[1..] == rest;
    hide Continues, Six, Encode;
    assert StreamMore(ch, 0, 0x80, rest) == Got(ch, rest, UTF8);
    assert StreamMore(a as bv32 & 0x1f, 1, 0x80, t) == Got(ch, rest, UTF8);
  }

  lemma {:induction false} DecodeThree(ch: bv32, s: seq<Byte>, rest: seq<Byte>)
    requires 0x800 <= ch < 0x10000 && s == Encode(ch) + rest
    ensures StringGetC(s, UTF8) == StreamGetC(s, UTF8) == Got(ch, rest, UTF8)
  {
    Bits3(ch);
    var e := Encode(ch);
    assert s == [e[0], e[1], e[2]] + rest;
    ReadThree(e[0], e[1], e[2], ch, s, rest);
  }

  lemma {:induction false} DecodeFour(ch: bv32, s: seq<Byte>, rest: seq<Byte>)
    requires 0x10000 <= ch <= MAX_CODE && s == Encode(ch) + rest
    ensures StringGetC(s, UTF8) == StreamGetC(s, UTF8) == Got(ch, rest, UTF8)
  {
    hide *;
    var e := FourBytes(ch);
    assert s == [e[0], e[1], e[2], e[3]] + rest;
    ReadFour(e[0], e[1], e[2], e[3], ch, s, rest);
  }

  lemma {:induction false} FourBytes(ch: bv32) returns (e: seq<Byte>)
    requires 0x10000 <= ch <= MAX_CODE
    ensures |e| == 4 && Encode(ch) == e && Leads(e[0], 3) && Continues(e[1]) && Continues(e[2]) && Continues(e[3])
    ensures ch == Six(Six(Six(e[0] as bv32 & 0x07, e[1]), e[2]), e[3])
  {
    hide Low, Six, Continues;
    e := Encode(ch);
    Bits4(ch);
  }

  /** A first byte that announces `n` more bytes, and what it says about the other tests on it */
  predicate Leads(a: Byte, n: nat) {
    a != 0 && a != 0xfe && a != 0xff && a & 0x80 != 0 &&
    (if n == 1 then a & 0xe0 == 0xc0
     else if n == 2 then a & 0xe0 != 0xc0 && a & 0xf0 == 0xe0
     else a & 0xe0 != 0xc0 && a & 0xf0 != 0xe0 && a & 0xf8 == 0xf0)
  }

  lemma {:induction false} ReadThree(a: Byte, b: Byte, c: Byte, ch: bv32, s: seq<Byte>, rest: seq<Byte>)
    requires Leads(a, 2) && Continues(b) && Continues(c) && ch == Six(Six(a as bv32 & 0x0f, b), c) && ch >= 0x800
    requires s == [a, b, c] + rest
    ensures StringGetC(s, UTF8) == StreamGetC(s, UTF8) == Got(ch, rest, UTF8)
  {
    var t := s[1..];
    assert t == [b, c] + rest && t[2..] == rest && t[1..] == [c] + rest && t[1..][1..] == rest;
    hide Continues, Six, Encode;
    var c1 := Six(a as bv32 & 0x0f, b);
    assert StreamMore(ch, 0, 0x800, rest) == Got(ch, rest, UTF8);
    assert StreamMore(c1, 1, 0x800, t[1..]) == Got(ch, rest, UTF8);
    assert StreamMore(a as bv32 & 0x0f, 2, 0x800, t) == Got(ch, rest, UTF8);
  }

  lemma {:induction false} ReadFour(a: Byte, b: Byte, c: Byte, d: Byte, ch: bv32, s: seq<Byte>, rest: seq<Byte>)
    requires Leads(a, 3) && Continues(b) && Continues(c) && Continues(d)
    requires ch == Six(Six(Six(a as bv32 & 0x07, b), c), d) && ch >= 0x10000
    requires s == [a, b, c, d] + rest
    ensures StringGetC(s, UTF8) == StreamGetC(s, UTF8) == Got(ch, rest, UTF8)
  {
    var t := s[1..];
    assert t == [b, c, d] + rest && t[3..] == rest && t[1..] == [c, d] + rest && t[1..][1..] == [d] + rest &&
           t[1..][1..][1..] == rest;
    hide Continues, Six, Encode;
    var c1 := Six(a as bv32 & 0x07, b);
    var c2 := Six(c1, c);
    assert StreamMore(ch, 0, 0x10000, rest) == Got(ch, rest, UTF8);
    assert StreamMore(c2, 1, 0x10000, t[1..][1..]) == Got(ch, rest, UTF8);
    assert StreamMore(c1, 2, 0x10000, t[1..]) == Got(ch, rest, UTF8);
    assert StreamMore(a as bv32 & 0x07, 3, 0x10000, t) == Got(ch, rest, UTF8);
  }

  /** A character that was read as UTF-8 came from exactly the bytes that `mxml_add_char` stores
      for it: overlong forms are refused. */
  lemma {:induction false} ReencodeString(s: seq<Byte>)
    requires var g := StringGetC(s, UTF8); g.Got? && g.enc == UTF8
    ensures var g := StringGetC(s, UTF8); Encodable(g.ch) && s == Encode(g.ch) + g.rest
  {
    hide StringUtf8, Encode, Encodable;
    var a, t, g := s[0], s[1..], StringGetC(s, UTF8);
    StringStaysUtf8(s);
    assert s == [a] + t;
    Leading(a, t);
    if a & 0x80 == 0 {
      StoredOne(a, t, s);
    } else if Leads(a, 1) {
      StoredTwo(a, t, s);
    } else if Leads(a, 2) {
      StoredThree(a, t, s);
    } else {
      StoredFour(a, t, s);
    }
  }

  lemma {:induction false} StringStaysUtf8(s: seq<Byte>)
    requires var g := StringGetC(s, UTF8); g.Got? && g.enc == UTF8
    ensures s != [] && s[0] != 0 && s[0] != 0xfe && s[0] != 0xff && StringGetC(s, UTF8) == StringUtf8(s[0], s[1..])
  {
    hide StringUtf8, Continues, Combine, BadLow, Word, BadChar, HighSurrogate;
  }

  lemma {:induction false} Leading(a: Byte, t: seq<Byte>)
    requires a != 0 && a != 0xfe && a != 0xff && StringUtf8(a, t).Got?
    ensures a & 0x80 == 0 || Leads(a, 1) || Leads(a, 2) || Leads(a, 3)
  {
    hide Continues, Six, BadChar;
  }

  lemma {:induction false} StoredOne(a: Byte, t: seq<Byte>, s: seq<Byte>)
    requires a & 0x80 == 0 && StringUtf8(a, t).Got? && s == [a] + t
    ensures var g := StringUtf8(a, t); Encodable(g.ch) && s == Encode(g.ch) + g.rest
  {
    Plain(a);
    hide Low;
  }

  lemma {:induction false} StoredTwo(a: Byte, t: seq<Byte>, s: seq<Byte>)
    requires Leads(a, 1) && StringUtf8(a, t).Got? && s == [a] + t
    ensures var g := StringUtf8(a, t); Encodable(g.ch) && s == Encode(g.ch) + g.rest
  {
    hide Continues, Six, Encode, Encodable;
    ContinuationIsStored(t, 0);
    Encode2(a, t[0]);
    assert s == [a, t[0]] + t[1..];
  }

  lemma {:induction false} StoredThree(a: Byte, t: seq<Byte>, s: seq<Byte>)
    requires Leads(a, 2) && StringUtf8(a, t).Got? && s == [a] + t
    ensures var g := StringUtf8(a, t); Encodable(g.ch) && s == Encode(g.ch) + g.rest
  {
    hide Continues, Six, Encode, Encodable;
    ContinuationIsStored(t, 1);
    Encode3(a, t[0], t[1]);
    assert s == [a, t[0], t[1]] + t[2..];
  }

  lemma {:induction false} StoredFour(a: Byte, t: seq<Byte>, s: seq<Byte>)
    requires Leads(a, 3) && StringUtf8(a, t).Got? && s == [a] + t
    ensures var g := StringUtf8(a, t); Encodable(g.ch) && s == Encode(g.ch) + g.rest
  {
    hide Continues, Six, Encode, Encodable;
    ContinuationIsStored(t, 2);
    Encode4(a, t[0], t[1], t[2]);
    assert s == [a, t[0], t[1], t[2]] + t[3..];
  }

  lemma {:induction false} Encode2(a: Byte, b: Byte)
    requires Leads(a, 1) && Continues(b)
    ensures var ch := Six(a as bv32 & 0x1f, b); ch >= 0x80 ==> Encodable(ch) && Encode(ch) == [a, b]
  {
    Back2(a, b);
    hide Continues, Six, Low;
  }

  lemma {:induction false} Encode3(a: Byte, b: Byte, c: Byte)
    requires Leads(a, 2) && Continues(b) && Continues(c)
    ensures var ch := Six(Six(a as bv32 & 0x0f, b), c); ch >= 0x800 ==> Encodable(ch) && Encode(ch) == [a, b, c]
  {
    Back3(a, b, c);
    hide Continues, Six, Low;
  }

  lemma {:induction false} Encode4(a: Byte, b: Byte, c: Byte, d: Byte)
    requires Leads(a, 3) && Continues(b) && Continues(c) && Continues(d)
    ensures var ch := Six(Six(Six(a as bv32 & 0x07, b), c), d); ch >= 0x10000 ==> Encodable(ch) && Encode(ch) == [a, b, c, d]
  {
    Back4(a, b, c, d);
    hide Continues, Six, Low;
  }

  lemma {:induction false} ContinuationIsStored(t: seq<Byte>, i: nat)
    requires Continues(ByteAt(t, i))
    ensures i < |t|
  {
  }

  lemma {:induction false} Plain(a: Byte)
    requires a & 0x80 == 0
    ensures a as bv32 < 0x80 && Low(a as bv32) == a
  {
  }

  /** The same for the file reader */
  lemma {:induction false} ReencodeStream(s: seq<Byte>)
    requires var g := StreamGetC(s, UTF8); g.Got? && g.enc == UTF8
    ensures var g := StreamGetC(s, UTF8); Encodable(g.ch) && s == Encode(g.ch) + g.rest
  {
    hide StreamUtf8, StringUtf8, Encode, Encodable;
    StreamStaysUtf8(s);
    StreamIsString(s[0], s[1..]);
    if s[0] == 0 {
      NulEnds(s[1..]);
    } else {
      assert StringGetC(s, UTF8) == StringUtf8(s[0], s[1..]);
      StringUtf8Encoding(s[0], s[1..]);
      ReencodeString(s);
    }
  }

  lemma {:induction false} StreamStaysUtf8(s: seq<Byte>)
    requires var g := StreamGetC(s, UTF8); g.Got? && g.enc == UTF8
    ensures s != [] && s[0] != 0xfe && s[0] != 0xff && StreamGetC(s, UTF8) == StreamUtf8(s[0], s[1..])
  {
    hide StreamUtf8, Continues, Combine, BadLow, Word, BadChar, HighSurrogate;
  }

  lemma {:induction false} NulEnds(t: seq<Byte>)
    ensures StreamUtf8(0, t).Eof?
  {
  }

  lemma {:induction false} StringUtf8Encoding(a: Byte, t: seq<Byte>)
    ensures StringUtf8(a, t).enc == UTF8
  {
    hide Continues, Six, BadChar;
  }

  /** Checking all continuation bytes at once and one by one accepts the same bytes. */
  lemma {:induction false} StreamIsString(a: Byte, t: seq<Byte>)
    requires StreamUtf8(a, t).Got?
    ensures StringUtf8(a, t) == StreamUtf8(a, t)
  {
    hide Continues, Six, BadChar;
    if a & 0x80 != 0 {
      if a & 0xe0 == 0xc0 {
        More1(a as bv32 & 0x1f, 0x80, t);
      } else if a & 0xf0 == 0xe0 {
        More2(a as bv32 & 0x0f, 0x800, t);
      } else {
        More3(a as bv32 & 0x07, 0x10000, t);
      }
    }
  }

  lemma {:induction false} More1(ch: bv32, least: bv32, t: seq<Byte>)
    requires StreamMore(ch, 1, least, t).Got?
    ensures t != [] && Continues(t[0]) && Six(ch, t[0]) >= least
    ensures StreamMore(ch, 1, least, t) == Got(Six(ch, t[0]), t[1..], UTF8)
  {
    hide Continues, Six;
    assert StreamMore(Six(ch, t[0]), 0, least, t[1..]).Got?;
  }

  lemma {:induction false} More2(ch: bv32, least: bv32, t: seq<Byte>)
    requires StreamMore(ch, 2, least, t).Got?
    ensures |t| >= 2 && Continues(t[0]) && Continues(t[1]) && Six(Six(ch, t[0]), t[1]) >= least
    ensures StreamMore(ch, 2, least, t) == Got(Six(Six(ch, t[0]), t[1]), t[2..], UTF8)
  {
    hide Continues, Six;
    More1(Six(ch, t[0]), least, t[1..]);
    assert t[1..][0] == t[1] && t[1..][1..] == t[2..];
  }

  lemma {:induction false} More3(ch: bv32, least: bv32, t: seq<Byte>)
    requires StreamMore(ch, 3, least, t).Got?
    ensures |t| >= 3 && Continues(t[0]) && Continues(t[1]) && Continues(t[2])
    ensures var c := Six(Six(Six(ch, t[0]), t[1]), t[2]);
            c >= least && StreamMore(ch, 3, least, t) == Got(c, t[3..], UTF8)
  {
    hide Continues, Six;
    More2(Six(ch, t[0]), least, t[1..]);
    assert t[1..][0] == t[1] && t[1..][1] == t[2] && t[1..][2..] == t[3..];
  }

  ghost predicate StartsWithCharacter(s: seq<Byte>) {
    exists ch :: Encodable(ch) && Encode(ch) <= s
  }

  /** Both readers accept a byte string as UTF-8 text exactly when it begins with the encoding of
      a character. */
  lemma {:induction false} DecodesIffEncoded(s: seq<Byte>)
    ensures StartsWithCharacter(s) <==> var g := StringGetC(s, UTF8); g.Got? && g.enc == UTF8
    ensures StartsWithCharacter(s) <==> var g := StreamGetC(s, UTF8); g.Got? && g.enc == UTF8
  {
    hide StringGetC, StreamGetC, Encodable, Encode;
    var g, h := StringGetC(s, UTF8), StreamGetC(s, UTF8);
    if g.Got? && g.enc == UTF8 {
      ReencodeString(s);
      assert Encodable(g.ch) && Encode(g.ch) <= s;
    }
    if h.Got? && h.enc == UTF8 {
      ReencodeStream(s);
      assert Encodable(h.ch) && Encode(h.ch) <= s;
    }
    if ch :| Encodable(ch) && Encode(ch) <= s {
      assert s == Encode(ch) + s[|Encode(ch)|..];
      DecodeEncoded(ch, s[|Encode(ch)|..]);
    }
  }

  // ----- the two readers -----

  /** The characters of a string up to the first end of file */
  function StringChars(s: seq<Byte>, enc: Encoding): seq<bv32>
    decreases |s|
  {
    match StringGetC(s, enc)
    case Eof(_, _) => []
    case Got(ch, rest, enc') => [ch] + StringChars(rest, enc')
  }

  /** The characters of a file up to the first end of file */
  function StreamChars(s: seq<Byte>, enc: Encoding): seq<bv32>
    decreases |s|
  {
    match StreamGetC(s, enc)
    case Eof(_, _) => []
    case Got(ch, rest, enc') => [ch] + StreamChars(rest, enc')
  }

  predicate ByteOrderMark(a: Byte, b: Byte) {
    (a == 0xfe && b == 0xff) || (a == 0xff && b == 0xfe)
  }

  predicate NoByteOrderMark(s: seq<Byte>) {
    forall i :: 0 <= i < |s| - 1 ==> !ByteOrderMark(s[i], s[i + 1])
  }

  lemma {:induction false} StaysUtf8(s: seq<Byte>)
    requires NoByteOrderMark(s)
    ensures var g := StringGetC(s, UTF8); g.Got? ==> g.enc == UTF8
    ensures var g := StreamGetC(s, UTF8); g.Got? ==> g.enc == UTF8
  {
    hide Continues, Six, BadChar, StringUtf16BE, StringUtf16LE, StreamUtf16;
    if |s| >= 2 {
      assert !ByteOrderMark(s[0], s[1]);
    }
  }

  /** Without a byte-order mark the string reader and the file reader deliver the same characters. */
  lemma {:induction false} ReadersAgree(s: seq<Byte>)
    requires NoByteOrderMark(s)
    ensures StringChars(s, UTF8) == StreamChars(s, UTF8)
    decreases |s|
  {
    hide StringGetC, StreamGetC, Encodable, Encode;
    StaysUtf8(s);
    var g, h := StringGetC(s, UTF8), StreamGetC(s, UTF8);
    if g.Got? || h.Got? {
      DecodesIffEncoded(s);
      ReencodeString(s);
      DecodeEncoded(g.ch, g.rest);
      var n := |Encode(g.ch)|;
      assert n >= 1;
      assert g.rest == s[n..];
      forall i | 0 <= i < |g.rest| - 1 ensures !ByteOrderMark(g.rest[i], g.rest[i + 1]) {
        assert !ByteOrderMark(s[i + n], s[i + n + 1]);
      }
      ReadersAgree(g.rest);
    }
  }

  // ----- whole texts -----

  /** The bytes of a text */
  function EncodeAll(chars: seq<bv32>): seq<Byte> {
    if chars == [] then [] else EncodeAll(chars[..|chars| - 1]) + Encode(chars[|chars| - 1])
  }

  lemma {:induction false} EncodeAllFront(ch: bv32, chars: seq<bv32>)
    ensures EncodeAll([ch] + chars) == Encode(ch) + EncodeAll(chars)
  {
    hide Encode;
    var all := [ch] + chars;
    if chars == [] {
      assert all[..0] == [];
      assert EncodeAll(all) == EncodeAll([]) + Encode(ch);
    } else {
      assert all[..|all| - 1] == [ch] + chars[..|chars| - 1];
      EncodeAllFront(ch, chars[..|chars| - 1]);
    }
  }

  /** Both readers get back a text of encodable characters, whole and unchanged. */
  lemma {:induction false} DecodeAll(chars: seq<bv32>)
    requires forall i :: 0 <= i < |chars| ==> Encodable(chars[i])
    ensures StringChars(EncodeAll(chars), UTF8) == chars
    ensures StreamChars(EncodeAll(chars), UTF8) == chars
  {
    hide Encode, Encodable, StringGetC, StreamGetC;
    if chars == [] {
      NothingReads();
    } else {
      assert chars == [chars[0]] + chars[1..];
      EncodeAllFront(chars[0], chars[1..]);
      DecodeEncoded(chars[0], EncodeAll(chars[1..]));
      DecodeAll(chars[1..]);
    }
  }

  lemma {:induction false} NothingReads()
    ensures StringGetC([], UTF8) == StreamGetC([], UTF8) == Eof([], UTF8)
  {
  }

  /** The examples of section 7 of RFC 3629: both readers deliver their characters, and writing these gives
      the bytes. */
  lemma {:induction false} ExamplesOfTheStandard()
    ensures Both([0x41, 0xe2, 0x89, 0xa2, 0xce, 0x91, 0x2e], [0x41, 0x2262, 0x391, 0x2e])
    ensures Both([0xed, 0x95, 0x9c, 0xea, 0xb5, 0xad, 0xec, 0x96, 0xb4], [0xd55c, 0xad6d, 0xc5b4])
    ensures Both([0xf0, 0xa3, 0x8e, 0xb4], [0x233b4])
  {
    hide EncodeAll, StringChars, StreamChars, Flat, Both;
    var a: seq<Byte>, b: seq<Byte>, c: seq<Byte>, d: seq<Byte> := [0x41], [0xe2, 0x89, 0xa2], [0xce, 0x91], [0x2e];
    Example([0x41, 0x2262, 0x391, 0x2e], [a, b, c, d]);
    Joined4(a, b, c, d);
    assert a + b + c + d == [0x41, 0xe2, 0x89, 0xa2, 0xce, 0x91, 0x2e];
    var k: seq<Byte>, l: seq<Byte>, m: seq<Byte> := [0xed, 0x95, 0x9c], [0xea, 0xb5, 0xad], [0xec, 0x96, 0xb4];
    Example([0xd55c, 0xad6d, 0xc5b4], [k, l, m]);
    Joined4(k, l, m, []);
    assert k + l + m == [0xed, 0x95, 0x9c, 0xea, 0xb5, 0xad, 0xec, 0x96, 0xb4];
    Example([0x233b4], [[0xf0, 0xa3, 0x8e, 0xb4]]);
    Joined4([0xf0, 0xa3, 0x8e, 0xb4], [], [], []);
  }

  lemma {:induction false} Joined4(a: seq<Byte>, b: seq<Byte>, c: seq<Byte>, d: seq<Byte>)
    ensures Flat([a]) == a && Flat([a, b, c]) == a + b + c && Flat([a, b, c, d]) == a + b + c + d
  {
    assert [a, b, c, d][..3] == [a, b, c] && [a, b, c][..2] == [a, b] && [a, b][..1] == [a] && [a][..0] == [];
    assert Flat([a]) == [] + a && Flat([a, b]) == Flat([a]) + b;
  }

  /** These bytes are that text. */
  predicate Both(bytes: seq<Byte>, chars: seq<bv32>) {
    EncodeAll(chars) == bytes && StringChars(bytes, UTF8) == chars && StreamChars(bytes, UTF8) == chars
  }

  function Flat(parts: seq<seq<Byte>>): seq<Byte> {
    if parts == [] then [] else Flat(parts[..|parts| - 1]) + parts[|parts| - 1]
  }

  lemma {:induction false} Example(chars: seq<bv32>, parts: seq<seq<Byte>>)
    requires |parts| == |chars| && forall i :: 0 <= i < |chars| ==> Encodable(chars[i]) && Encode(chars[i]) == parts[i]
    ensures Both(Flat(parts), chars)
  {
    hide Encode, Encodable, StringChars, StreamChars;
    DecodeAll(chars);
    PartByPart(chars, parts);
  }

  lemma {:induction false} PartByPart(chars: seq<bv32>, parts: seq<seq<Byte>>)
    requires |parts| == |chars| && forall i :: 0 <= i < |chars| ==> Encode(chars[i]) == parts[i]
    ensures EncodeAll(chars) == Flat(parts)
    decreases |chars|
  {
    hide Encode;
    if chars != [] {
      PartByPart(chars[..|chars| - 1], parts[..|parts| - 1]);
    }
  }
}
