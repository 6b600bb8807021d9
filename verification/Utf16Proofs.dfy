/** The UTF-16 readers of mxml-file-utf8.c against RFC 2781: what they recover, what they refuse, and
    what they accept beyond it. */
module Utf16Proofs {
  import opened Encodings
  import opened EncodingProofs

  // ----- UTF-16: section 2.1 of RFC 2781 -----

  /** The bytes of one 16-bit word */
  function WordBytes(w: bv32, enc: Encoding): (s: seq<Byte>)
    ensures |s| == 2
  {
    if enc == UTF16BE then [Low(w >> 8), Low(w)] else [Low(w), Low(w >> 8)]
  }

  function HighWord(ch: bv32): bv32 {
    0xd800 | ((ch - 0x10000) >> 10)
  }

  function LowWord(ch: bv32): bv32 {
    0xdc00 | ((ch - 0x10000) & 0x3ff)
  }

  /** UTF-16: one word below 0x10000, a surrogate pair from there on */
  function Utf16(ch: bv32, enc: Encoding): (s: seq<Byte>)
    ensures |s| == 2 || |s| == 4
  {
    if ch < 0x10000 then WordBytes(ch, enc) else WordBytes(HighWord(ch), enc) + WordBytes(LowWord(ch), enc)
  }

  /** What a UTF-16 reader of this library can deliver: besides the characters of RFC 2781 a low
      surrogate on its own, but not a character whose low surrogate is 0xDFFF */
  predicate Deliverable(ch: bv32) {
    Writable(ch) && !Refused(ch)
  }

  predicate Writable(ch: bv32) {
    ch <= 0x10FFFF && !BadChar(ch) && !HighSurrogate(ch)
  }

  predicate Refused(ch: bv32) {
    ch >= 0x10000 && ch & 0x3ff == 0x3ff
  }

  predicate LowSurrogate(ch: bv32) {
    0xdc00 <= ch <= 0xdfff
  }

  /** A character of UTF-16 as RFC 2781 has it: no surrogate, and no forbidden control character */
  predicate Utf16Character(ch: bv32) {
    Writable(ch) && !LowSurrogate(ch)
  }

  lemma {:induction false} SurrogateRanges(v: bv32)
    requires v <= 0xFFFFF
    ensures 0xd800 <= 0xd800 | (v >> 10) <= 0xdbff
    ensures 0xdc00 <= 0xdc00 | (v & 0x3ff) <= 0xdfff
  {
  }

  lemma {:induction false} SurrogateJoins(v: bv32)
    requires v <= 0xFFFFF
    ensures (((0xd800 | (v >> 10)) & 0x3ff) << 10) | ((0xdc00 | (v & 0x3ff)) & 0x3ff) == v
    ensures 0xdc00 | (v & 0x3ff) >= 0xdfff <==> v & 0x3ff == 0x3ff
  {
  }

  lemma {:induction false} Offset(ch: bv32)
    requires 0x10000 <= ch <= 0x10FFFF
    ensures ch - 0x10000 <= 0xFFFFF && (ch - 0x10000) + 0x10000 == ch && (ch - 0x10000) & 0x3ff == ch & 0x3ff
  {
  }

  lemma {:induction false} SurrogateBits(ch: bv32)
    requires 0x10000 <= ch <= 0x10FFFF
    ensures HighSurrogate(HighWord(ch)) && !BadChar(HighWord(ch)) && 0xdc00 <= LowWord(ch) <= 0xdfff
    ensures Combine(HighWord(ch), LowWord(ch)) == ch
    ensures BadLow(LowWord(ch)) <==> ch & 0x3ff == 0x3ff
  {
    Offset(ch);
    SurrogateRanges(ch - 0x10000);
    SurrogateJoins(ch - 0x10000);
  }

  lemma {:induction false} WordBits(w: bv32)
    requires w < 0x10000
    ensures Word(Low(w >> 8), Low(w)) == w
  {
  }

  /** Behind its byte-order mark the file reader gives back every character of UTF-16, in both byte
      orders, except those whose low surrogate is 0xDFFF: these read as the end of the file. */
  lemma {:induction false} DecodeUtf16(ch: bv32, enc: Encoding, rest: seq<Byte>)
    requires Writable(ch) && enc != UTF8
    ensures StreamGetC(Utf16(ch, enc) + rest, enc) == if Refused(ch) then Eof(rest, enc) else Got(ch, rest, enc)
  {
    var s := Utf16(ch, enc) + rest;
    if ch < 0x10000 {
      WordBits(ch);
      OneWord(ch, enc, s, rest);
    } else {
      SurrogateBits(ch);
      TwoWords(HighWord(ch), LowWord(ch), enc, s, rest);
    }
  }

  lemma {:induction false} OneWord(w: bv32, enc: Encoding, s: seq<Byte>, rest: seq<Byte>)
    requires w < 0x10000 && enc != UTF8 && !BadChar(w) && !HighSurrogate(w) && s == WordBytes(w, enc) + rest
    ensures StreamGetC(s, enc) == Got(w, rest, enc)
  {
    WordBits(w);
    hide Low, Word, BadChar, HighSurrogate;
    assert s[1..][1..] == rest;
  }

  lemma {:induction false} TwoWords(high: bv32, low: bv32, enc: Encoding, s: seq<Byte>, rest: seq<Byte>)
    requires HighSurrogate(high) && !BadChar(high) && 0xdc00 <= low <= 0xdfff && enc != UTF8
    requires s == WordBytes(high, enc) + WordBytes(low, enc) + rest
    ensures StreamGetC(s, enc) == if BadLow(low) then Eof(rest, enc) else Got(Combine(high, low), rest, enc)
  {
    WordBits(high);
    WordBits(low);
    hide Low, Word, BadChar, HighSurrogate, BadLow, Combine;
    var t := s[1..];
    assert t[3..] == rest;
    assert t[0] == WordBytes(high, enc)[1] && t[1] == WordBytes(low, enc)[0] && t[2] == WordBytes(low, enc)[1];
  }

  /** On a whole character the string reader agrees with the file reader, unless the bytes are
      big-endian and the first one is zero: there it sees the end of the string. */
  lemma {:induction false} StringUtf16Exact(ch: bv32, enc: Encoding, rest: seq<Byte>)
    requires Writable(ch) && enc != UTF8
    ensures var s := Utf16(ch, enc) + rest;
            StringGetC(s, enc) == (if enc == UTF16BE && ch < 0x100 then Eof(s, enc) else StreamGetC(s, enc))
  {
    var s := Utf16(ch, enc) + rest;
    if ch < 0x10000 {
      WordBits(ch);
      HighByte(ch);
      OneWord(ch, enc, s, rest);
      StringOneWord(ch, enc, s, rest);
    } else {
      SurrogateBits(ch);
      TwoWords(HighWord(ch), LowWord(ch), enc, s, rest);
      StringTwoWords(HighWord(ch), LowWord(ch), enc, s, rest);
    }
  }

  lemma {:induction false} HighByte(w: bv32)
    requires w < 0x10000
    ensures Low(w >> 8) == 0 <==> w < 0x100
  {
  }

  lemma {:induction false} StringOneWord(w: bv32, enc: Encoding, s: seq<Byte>, rest: seq<Byte>)
    requires w < 0x10000 && enc != UTF8 && !BadChar(w) && !HighSurrogate(w) && s == WordBytes(w, enc) + rest
    ensures StringGetC(s, enc) == if enc == UTF16BE && w < 0x100 then Eof(s, enc) else Got(w, rest, enc)
  {
    WordBits(w);
    HighByte(w);
    assert w != 0;
    hide Low, Word, BadChar, HighSurrogate;
    assert s[1..][1..] == rest;
  }

  lemma {:induction false} StringTwoWords(high: bv32, low: bv32, enc: Encoding, s: seq<Byte>, rest: seq<Byte>)
    requires HighSurrogate(high) && !BadChar(high) && 0xdc00 <= low <= 0xdfff && enc != UTF8
    requires s == WordBytes(high, enc) + WordBytes(low, enc) + rest
    ensures StringGetC(s, enc) == if BadLow(low) then Eof(rest, enc) else Got(Combine(high, low), rest, enc)
  {
    WordBits(high);
    WordBits(low);
    HighByte(high);
    HighByte(low);
    assert high >= 0x100 && low >= 0x100;
    hide Low, Word, BadChar, HighSurrogate, BadLow, Combine;
    var t := s[1..];
    assert t[1..][2..] == rest;
    assert t[0] == WordBytes(high, enc)[1] && t[1] == WordBytes(low, enc)[0] && t[2] == WordBytes(low, enc)[1];
  }

  // ----- the converse -----

  /** The two ways in which bytes become words again */
  lemma {:induction false} WordBack(a: Byte, b: Byte)
    ensures Word(a, b) < 0x10000 && Low(Word(a, b) >> 8) == a && Low(Word(a, b)) == b
  {
  }

  lemma {:induction false} PairBits(v: bv32, w: bv32)
    requires v <= 0x3ff && w <= 0x3ff
    ensures (v << 10) | w <= 0xFFFFF && ((v << 10) | w) >> 10 == v && ((v << 10) | w) & 0x3ff == w
  {
  }

  lemma {:induction false} Halves(high: bv32, low: bv32)
    requires HighSurrogate(high) && LowSurrogate(low)
    ensures high & 0x3ff <= 0x3ff && 0xd800 | (high & 0x3ff) == high
    ensures low & 0x3ff <= 0x3ff && 0xdc00 | (low & 0x3ff) == low
    ensures low == 0xdfff <==> low & 0x3ff == 0x3ff
  {
  }

  lemma {:induction false} PlusOffset(v: bv32)
    requires v <= 0xFFFFF
    ensures 0x10000 <= v + 0x10000 <= 0x10FFFF && (v + 0x10000) - 0x10000 == v && (v + 0x10000) & 0x3ff == v & 0x3ff
  {
  }

  /** A surrogate pair is the pair of exactly one character. */
  lemma {:induction false} PairBack(high: bv32, low: bv32)
    requires HighSurrogate(high) && LowSurrogate(low) && low != 0xdfff
    ensures var ch := Combine(high, low);
            0x10000 <= ch && Deliverable(ch) && HighWord(ch) == high && LowWord(ch) == low
  {
    Halves(high, low);
    var v := ((high & 0x3ff) << 10) | (low & 0x3ff);
    PairBits(high & 0x3ff, low & 0x3ff);
    PlusOffset(v);
  }

  lemma {:induction false} GoodLow(w: bv32)
    ensures !BadLow(w) <==> LowSurrogate(w) && w != 0xdfff
  {
  }

  /** The word that UTF-16 text starts with */
  function LeadingWord(s: seq<Byte>, enc: Encoding): bv32
    requires |s| >= 2
  {
    if enc == UTF16BE then Word(s[0], s[1]) else Word(s[1], s[0])
  }

  lemma {:induction false} LeadingBytes(s: seq<Byte>, enc: Encoding)
    requires |s| >= 2 && enc != UTF8
    ensures WordBytes(LeadingWord(s, enc), enc) == [s[0], s[1]]
  {
    hide Low, Word;
    WordBack(s[0], s[1]);
    WordBack(s[1], s[0]);
  }

  /** A character that the file reader accepts as UTF-16 came from exactly the bytes of its
      encoding. */
  lemma {:induction false} ReencodeUtf16(s: seq<Byte>, enc: Encoding)
    requires enc != UTF8 && StreamGetC(s, enc).Got?
    ensures var g := StreamGetC(s, enc); g.enc == enc && Deliverable(g.ch) && s == Utf16(g.ch, enc) + g.rest
  {
    hide *;
    TwoBytes(s, enc);
    LeadingBytes(s, enc);
    if HighSurrogate(LeadingWord(s, enc)) {
      FourBytes(s, enc);
      LeadingBytes(s[2..], enc);
      PairIs(LeadingWord(s, enc), LeadingWord(s[2..], enc), enc);
      assert s == [s[0], s[1]] + [s[2], s[3]] + s[4..];
    } else {
      FirstWord(s, enc);
      IsWord(LeadingWord(s, enc), enc);
      assert s == [s[0], s[1]] + s[2..];
    }
  }

  lemma {:induction false} TwoBytes(s: seq<Byte>, enc: Encoding)
    requires enc != UTF8 && StreamGetC(s, enc).Got?
    ensures |s| >= 2
  {
    hide Word, BadChar, HighSurrogate, BadLow, Combine;
  }

  /** One word that is no high surrogate is delivered; what follows is the rest. */
  lemma {:induction false} FirstWord(s: seq<Byte>, enc: Encoding)
    requires enc != UTF8 && |s| >= 2 && StreamGetC(s, enc).Got? && !HighSurrogate(LeadingWord(s, enc))
    ensures var w := LeadingWord(s, enc); IsAWord(w) && !BadChar(w) && StreamGetC(s, enc) == Got(w, s[2..], enc)
  {
    WordBack(s[0], s[1]);
    WordBack(s[1], s[0]);
    hide Word, BadChar, HighSurrogate, BadLow, Combine, Low;
    assert s[1..][1..] == s[2..];
  }

  predicate IsAWord(w: bv32) {
    w < 0x10000
  }

  lemma {:induction false} FourBytes(s: seq<Byte>, enc: Encoding)
    requires enc != UTF8 && |s| >= 2 && StreamGetC(s, enc).Got? && HighSurrogate(LeadingWord(s, enc))
    ensures |s| >= 4
    ensures var low := LeadingWord(s[2..], enc);
            !BadLow(low) && StreamGetC(s, enc) == Got(Combine(LeadingWord(s, enc), low), s[4..], enc)
  {
    hide Word, BadChar, HighSurrogate, BadLow, Combine;
    assert s[1..][3..] == s[4..];
  }

  /** A high surrogate and a low one make a character of two words. */
  lemma {:induction false} PairIs(high: bv32, low: bv32, enc: Encoding)
    requires HighSurrogate(high) && !BadLow(low)
    ensures var ch := Combine(high, low);
            Deliverable(ch) && Utf16(ch, enc) == WordBytes(high, enc) + WordBytes(low, enc)
  {
    GoodLow(low);
    PairBack(high, low);
    hide HighWord, LowWord, WordBytes, Combine, Deliverable;
  }

  lemma {:induction false} IsWord(w: bv32, enc: Encoding)
    requires IsAWord(w) && !BadChar(w) && !HighSurrogate(w)
    ensures Utf16(w, enc) == WordBytes(w, enc) && Deliverable(w)
  {
    hide BadChar, HighSurrogate, WordBytes;
  }

  ghost predicate StartsWithUtf16(s: seq<Byte>, enc: Encoding) {
    exists ch :: Deliverable(ch) && Utf16(ch, enc) <= s
  }

  /** The file reader accepts bytes as UTF-16 exactly when they start with the encoding of something
      that it can deliver. */
  lemma {:induction false} DecodesIffUtf16(s: seq<Byte>, enc: Encoding)
    requires enc != UTF8
    ensures StreamGetC(s, enc).Got? <==> StartsWithUtf16(s, enc)
  {
    hide StreamGetC, Deliverable, Utf16;
    var g := StreamGetC(s, enc);
    if g.Got? {
      ReencodeUtf16(s, enc);
      assert Deliverable(g.ch) && Utf16(g.ch, enc) <= s;
    }
    if ch :| Deliverable(ch) && Utf16(ch, enc) <= s {
      DeliverableIs(ch);
      assert s == Utf16(ch, enc) + s[|Utf16(ch, enc)|..];
      DecodeUtf16(ch, enc, s[|Utf16(ch, enc)|..]);
    }
  }

  lemma {:induction false} DeliverableIs(ch: bv32)
    requires Deliverable(ch)
    ensures Writable(ch) && !Refused(ch)
  {
  }

  /** Text that RFC 2781 allows */
  ghost predicate StartsWithCharacter16(s: seq<Byte>, enc: Encoding) {
    exists ch :: Utf16Character(ch) && Utf16(ch, enc) <= s
  }

  /** Where the file reader departs from RFC 2781: of what it accepts, exactly the words from 0xDC00
      to 0xDFFF are no UTF-16. */
  lemma {:induction false} AcceptsBeyondUtf16(s: seq<Byte>, enc: Encoding)
    requires enc != UTF8 && StreamGetC(s, enc).Got?
    ensures |s| >= 2 && (StartsWithCharacter16(s, enc) <==> !LowSurrogate(LeadingWord(s, enc)))
    ensures StreamGetC(s, enc).ch == LeadingWord(s, enc) <==> StreamGetC(s, enc).ch < 0x10000
  {
    hide *;
    var g := StreamGetC(s, enc);
    TwoBytes(s, enc);
    ReencodeUtf16(s, enc);
    DeliverableIs(g.ch);
    LeadingIs(g.ch, enc, s, g.rest);
    if !LowSurrogate(LeadingWord(s, enc)) {
      IsCharacter(g.ch);
      HasCharacter(s, enc, g.ch);
    }
    if StartsWithCharacter16(s, enc) {
      var ch := TheCharacter(s, enc);
      IsCharacter(ch);
      DecodeUtf16(ch, enc, s[|Utf16(ch, enc)|..]);
      assert s == Utf16(ch, enc) + s[|Utf16(ch, enc)|..];
    }
  }

  lemma {:induction false} TheCharacter(s: seq<Byte>, enc: Encoding) returns (ch: bv32)
    requires StartsWithCharacter16(s, enc)
    ensures Utf16Character(ch) && Utf16(ch, enc) <= s
  {
    hide Utf16Character, Utf16;
    ch :| Utf16Character(ch) && Utf16(ch, enc) <= s;
  }

  lemma {:induction false} HasCharacter(s: seq<Byte>, enc: Encoding, ch: bv32)
    requires Utf16Character(ch) && Utf16(ch, enc) <= s
    ensures StartsWithCharacter16(s, enc)
  {
  }

  lemma {:induction false} IsCharacter(ch: bv32)
    ensures Utf16Character(ch) <==> Writable(ch) && !LowSurrogate(ch)
    ensures LowSurrogate(ch) ==> ch < 0x10000
  {
  }

  lemma {:induction false} LeadingIs(ch: bv32, enc: Encoding, s: seq<Byte>, rest: seq<Byte>)
    requires Writable(ch) && enc != UTF8 && s == Utf16(ch, enc) + rest
    ensures |s| >= 2 && LeadingWord(s, enc) < 0x10000
    ensures if ch < 0x10000 then LeadingWord(s, enc) == ch else !LowSurrogate(LeadingWord(s, enc))
  {
    hide Low, Word, BadChar, Refused;
    if ch < 0x10000 {
      WordBits(ch);
    } else {
      SurrogateBits(ch);
      WordBits(HighWord(ch));
      hide HighWord, LowWord;
    }
  }

  /** A low surrogate on its own, which RFC 2781 forbids, is delivered as a character. */
  lemma {:induction false} LoneLowSurrogate()
    ensures StreamGetC([0xdc, 0x00], UTF16BE) == Got(0xdc00, [], UTF16BE)
    ensures !StartsWithCharacter16([0xdc, 0x00], UTF16BE)
  {
    var s: seq<Byte> := [0xdc, 0x00];
    assert Word(0xdc, 0x00) == 0xdc00;
    assert s[1..][1..] == [];
    AcceptsBeyondUtf16(s, UTF16BE);
  }

  /** The character 0x103FF, which RFC 2781 allows, reads as the end of the file. */
  lemma {:induction false} RefusedCharacter()
    ensures Utf16Character(0x103FF) && Utf16(0x103FF, UTF16BE) == [0xd8, 0x00, 0xdf, 0xff]
    ensures StreamGetC([0xd8, 0x00, 0xdf, 0xff], UTF16BE) == Eof([], UTF16BE)
  {
    DecodeUtf16(0x103FF, UTF16BE, []);
    assert Utf16(0x103FF, UTF16BE) + [] == Utf16(0x103FF, UTF16BE);
  }

  // ----- whole texts -----

  function Utf16All(chars: seq<bv32>, enc: Encoding): seq<Byte> {
    if chars == [] then [] else Utf16(chars[0], enc) + Utf16All(chars[1..], enc)
  }

  function Mark(enc: Encoding): seq<Byte> {
    if enc == UTF16BE then [0xfe, 0xff] else [0xff, 0xfe]
  }

  /** Does a reader stop at this character? The string reader also takes a zero byte for the end. */
  predicate Stops(ch: bv32, enc: Encoding, isString: bool) {
    Refused(ch) || (isString && enc == UTF16BE && ch < 0x100)
  }

  /** The text up to the first character at which the reader stops */
  function UpToStop(chars: seq<bv32>, enc: Encoding, isString: bool): seq<bv32> {
    if chars == [] || Stops(chars[0], enc, isString) then [] else [chars[0]] + UpToStop(chars[1..], enc, isString)
  }

  lemma {:induction false} UpToStopAll(chars: seq<bv32>, enc: Encoding, isString: bool)
    ensures UpToStop(chars, enc, isString) == chars <==> forall i :: 0 <= i < |chars| ==> !Stops(chars[i], enc, isString)
  {
    hide Stops;
    if chars != [] {
      assert chars == [chars[0]] + chars[1..];
      UpToStopAll(chars[1..], enc, isString);
      if UpToStop(chars, enc, isString) != chars && !Stops(chars[0], enc, isString) {
        var i :| 0 <= i < |chars[1..]| && Stops(chars[1..][i], enc, isString);
        assert chars[i + 1] == chars[1..][i];
      }
    }
  }

  /** A whole UTF-16 text behind its byte-order mark is read back up to the first character at which
      the reader stops; unchanged if there is none. */
  lemma {:induction false} DecodeAllUtf16(chars: seq<bv32>, enc: Encoding)
    requires enc != UTF8 && forall i :: 0 <= i < |chars| ==> Writable(chars[i])
    ensures StreamChars(Mark(enc) + Utf16All(chars, enc), UTF8) == UpToStop(chars, enc, false)
    ensures StringChars(Mark(enc) + Utf16All(chars, enc), UTF8) == UpToStop(chars, enc, true)
    ensures (forall i :: 0 <= i < |chars| ==> !Refused(chars[i])) ==>
              StreamChars(Mark(enc) + Utf16All(chars, enc), UTF8) == chars
  {
    hide Writable, StreamGetC, StringGetC, Refused;
    AfterMark(Utf16All(chars, enc), enc);
    ReadUtf16(chars, enc);
    UpToStopAll(chars, enc, false);
  }

  lemma {:induction false} AfterMark(s: seq<Byte>, enc: Encoding)
    requires enc != UTF8
    ensures StreamChars(Mark(enc) + s, UTF8) == StreamChars(s, enc)
    ensures StringChars(Mark(enc) + s, UTF8) == StringChars(s, enc)
  {
    hide StreamUtf16, StreamUtf8, StringUtf8, StringUtf16BE, StringUtf16LE;
    assert (Mark(enc) + s)[2..] == s == (Mark(enc) + s)[1..][1..];
    assert StreamGetC(Mark(enc) + s, UTF8) == StreamGetC(s, enc);
    assert StringGetC(Mark(enc) + s, UTF8) == StringGetC(s, enc);
    hide StreamGetC, StringGetC;
  }

  lemma {:induction false} ReadUtf16(chars: seq<bv32>, enc: Encoding)
    requires enc != UTF8 && forall i :: 0 <= i < |chars| ==> Writable(chars[i])
    ensures StreamChars(Utf16All(chars, enc), enc) == UpToStop(chars, enc, false)
    ensures StringChars(Utf16All(chars, enc), enc) == UpToStop(chars, enc, true)
  {
    hide Writable, StreamGetC, StringGetC, Utf16, Refused;
    if chars == [] {
      NothingReads16(enc);
    } else {
      var rest := Utf16All(chars[1..], enc);
      DecodeUtf16(chars[0], enc, rest);
      StringUtf16Exact(chars[0], enc, rest);
      ReadUtf16(chars[1..], enc);
    }
  }

  lemma {:induction false} NothingReads16(enc: Encoding)
    requires enc != UTF8
    ensures StreamGetC([], enc).Eof? && StringGetC([], enc).Eof?
  {
  }

  /** The example of section 4 of RFC 2781, in both byte orders */
  lemma {:induction false} ExampleOfTheStandard()
    ensures StreamChars([0xfe, 0xff, 0xd8, 0x08, 0xdf, 0x45, 0x00, 0x3d, 0x00, 0x52, 0x00, 0x61], UTF8) == [0x12345, 0x3d, 0x52, 0x61]
    ensures StreamChars([0xff, 0xfe, 0x08, 0xd8, 0x45, 0xdf, 0x3d, 0x00, 0x52, 0x00, 0x61, 0x00], UTF8) == [0x12345, 0x3d, 0x52, 0x61]
  {
    hide *;
    var chars: seq<bv32> := [0x12345, 0x3d, 0x52, 0x61];
    ExampleChars(chars);
    ExampleBytes(UTF16BE);
    ExampleBytes(UTF16LE);
    DecodeAllUtf16(chars, UTF16BE);
    DecodeAllUtf16(chars, UTF16LE);
  }

  lemma {:induction false} ExampleChars(chars: seq<bv32>)
    requires chars == [0x12345, 0x3d, 0x52, 0x61]
    ensures forall i :: 0 <= i < |chars| ==> Writable(chars[i]) && !Refused(chars[i])
  {
  }

  lemma {:induction false} ExampleBytes(enc: Encoding)
    requires enc != UTF8
    ensures Mark(enc) + Utf16All([0x12345, 0x3d, 0x52, 0x61], enc) ==
              if enc == UTF16BE then [0xfe, 0xff, 0xd8, 0x08, 0xdf, 0x45, 0x00, 0x3d, 0x00, 0x52, 0x00, 0x61]
              else [0xff, 0xfe, 0x08, 0xd8, 0x45, 0xdf, 0x3d, 0x00, 0x52, 0x00, 0x61, 0x00]
  {
    assert Utf16(0x12345, enc) == if enc == UTF16BE then [0xd8, 0x08, 0xdf, 0x45] else [0x08, 0xd8, 0x45, 0xdf];
    assert Utf16(0x3d, enc) == if enc == UTF16BE then [0x00, 0x3d] else [0x3d, 0x00];
    assert Utf16(0x52, enc) == if enc == UTF16BE then [0x00, 0x52] else [0x52, 0x00];
    assert Utf16(0x61, enc) == if enc == UTF16BE then [0x00, 0x61] else [0x61, 0x00];
    hide Utf16;
    var a: seq<bv32> := [0x12345, 0x3d, 0x52, 0x61];
    assert a[1..] == [0x3d, 0x52, 0x61] && a[1..][1..] == [0x52, 0x61] && a[1..][1..][1..] == [0x61];
    assert a[1..][1..][1..][1..] == [];
    assert Utf16All([0x61], enc) == Utf16(0x61, enc) + [];
    assert Utf16All([0x52, 0x61], enc) == Utf16(0x52, enc) + Utf16All([0x61], enc);
    assert Utf16All([0x3d, 0x52, 0x61], enc) == Utf16(0x3d, enc) + Utf16All([0x52, 0x61], enc);
    assert Utf16All(a, enc) == Utf16(0x12345, enc) + Utf16All([0x3d, 0x52, 0x61], enc);
  }
}
