/** The character codecs of mxml-file-utf8.c, as functions on bytes. */
module Encodings {

  type Byte = bv8

  datatype Encoding = UTF8 | UTF16BE | UTF16LE

  /** `mxml_bad_char` */
  predicate BadChar(ch: bv32) {
    ch < 0x20 && ch != 0x0A && ch != 0x0D && ch != 0x09
  }

  /** A character, or the end of the file; the unread bytes and the encoding from then on */
  datatype Got = Eof(rest: seq<Byte>, enc: Encoding) | Got(ch: bv32, rest: seq<Byte>, enc: Encoding)

  function Low(ch: bv32): Byte {
    (ch & 0xff) as bv8
  }

  /** `mxml_add_char`, `mxml_fd_putc`: the bytes stored for a character */
  function Encode(ch: bv32): (s: seq<Byte>)
    ensures 1 <= |s| <= 4
  {
    if ch < 0x80 then [Low(ch)]
    else if ch < 0x800 then [Low(0xc0 | (ch >> 6)), Low(0x80 | (ch & 0x3f))]
    else if ch < 0x10000 then
      [Low(0xe0 | (ch >> 12)), Low(0x80 | ((ch >> 6) & 0x3f)), Low(0x80 | (ch & 0x3f))]
    else
      [Low(0xf0 | (ch >> 18)), Low(0x80 | ((ch >> 12) & 0x3f)), Low(0x80 | ((ch >> 6) & 0x3f)), Low(0x80 | (ch & 0x3f))]
  }

  predicate Continues(b: Byte) {
    b & 0xc0 == 0x80
  }

  function Six(ch: bv32, b: Byte): bv32 {
    (ch << 6) | (b as bv32 & 0x3f)
  }

  function Word(high: Byte, low: Byte): bv32 {
    (high as bv32 << 8) | low as bv32
  }

  predicate HighSurrogate(ch: bv32) {
    0xd800 <= ch <= 0xdbff
  }

  /** The test that the code makes on a low surrogate; it leaves out 0xDFFF. */
  predicate BadLow(ch: bv32) {
    ch < 0xdc00 || ch >= 0xdfff
  }

  function Combine(high: bv32, low: bv32): bv32 {
    (((high & 0x3ff) << 10) | (low & 0x3ff)) + 0x10000
  }

  // ----- mxml_string_getc -----

  /** Byte `i` of a C string; behind its end there are NULs */
  function ByteAt(s: seq<Byte>, i: nat): Byte {
    if i < |s| then s[i] else 0
  }

  function Skip(s: seq<Byte>, n: nat): (r: seq<Byte>)
    ensures |r| <= |s| && (n > 0 && s != [] ==> |r| < |s|)
  {
    if n <= |s| then s[n..] else []
  }

  /** The UTF-8 case for a first byte that is no byte-order mark */
  function StringUtf8(b: Byte, s: seq<Byte>): (g: Got)
    ensures |g.rest| <= |s|
  {
    var ch := b as bv32;
    if b & 0x80 == 0 then (if BadChar(ch) then Eof(s, UTF8) else Got(ch, s, UTF8))
    else if b & 0xe0 == 0xc0 then
      if !Continues(ByteAt(s, 0)) then Eof(s, UTF8)
      else
        var ch' := Six(ch & 0x1f, ByteAt(s, 0));
        if ch' < 0x80 then Eof(Skip(s, 1), UTF8) else Got(ch', Skip(s, 1), UTF8)
    else if b & 0xf0 == 0xe0 then
      if !Continues(ByteAt(s, 0)) || !Continues(ByteAt(s, 1)) then Eof(s, UTF8)
      else
        var ch' := Six(Six(ch & 0x0f, ByteAt(s, 0)), ByteAt(s, 1));
        if ch' < 0x800 then Eof(Skip(s, 2), UTF8) else Got(ch', Skip(s, 2), UTF8)
    else if b & 0xf8 == 0xf0 then
      if !Continues(ByteAt(s, 0)) || !Continues(ByteAt(s, 1)) || !Continues(ByteAt(s, 2)) then Eof(s, UTF8)
      else
        var ch' := Six(Six(Six(ch & 0x07, ByteAt(s, 0)), ByteAt(s, 1)), ByteAt(s, 2));
        if ch' < 0x10000 then Eof(Skip(s, 3), UTF8) else Got(ch', Skip(s, 3), UTF8)
    else Eof(s, UTF8)
  }

  function StringUtf16BE(b: Byte, s: seq<Byte>): (g: Got)
    ensures |g.rest| <= |s|
  {
    var ch := Word(b, ByteAt(s, 0));
    var s1 := Skip(s, 1);
    if BadChar(ch) then Eof(s1, UTF16BE)
    else if HighSurrogate(ch) then
      if ByteAt(s1, 0) == 0 then Eof(s1, UTF16BE)
      else
        var low := Word(ByteAt(s1, 0), ByteAt(s1, 1));
        if BadLow(low) then Eof(Skip(s1, 2), UTF16BE) else Got(Combine(ch, low), Skip(s1, 2), UTF16BE)
    else Got(ch, s1, UTF16BE)
  }

  function StringUtf16LE(b: Byte, s: seq<Byte>, all: seq<Byte>): (g: Got)
    ensures g.Got? ==> |g.rest| <= |s|
  {
    var ch := Word(ByteAt(s, 0), b);
    var s1 := Skip(s, 1);
    if ch == 0 then Eof(all, UTF16LE)
    else if BadChar(ch) then Eof(s1, UTF16LE)
    else if HighSurrogate(ch) then
      if ByteAt(s1, 1) == 0 then Eof(s1, UTF16LE)
      else
        var low := Word(ByteAt(s1, 1), ByteAt(s1, 0));
        if BadLow(low) then Eof(Skip(s1, 2), UTF16LE) else Got(Combine(ch, low), Skip(s1, 2), UTF16LE)
    else Got(ch, s1, UTF16LE)
  }

  /** `mxml_string_getc` */
  function StringGetC(s: seq<Byte>, enc: Encoding): (g: Got)
    ensures g.Got? ==> |g.rest| < |s|
    decreases |s|
  {
    var b := ByteAt(s, 0);
    if b == 0 && enc != UTF16LE then Eof(s, enc)
    else
      var s1 := Skip(s, 1);
      match enc
      case UTF8 =>
        if b == 0xfe then (if ByteAt(s1, 0) != 0xff then Eof(s1, enc) else StringGetC(Skip(s1, 1), UTF16BE))
        else if b == 0xff then (if ByteAt(s1, 0) != 0xfe then Eof(s1, enc) else StringGetC(Skip(s1, 1), UTF16LE))
        else StringUtf8(b, s1)
      case UTF16BE => StringUtf16BE(b, s1)
      case UTF16LE => StringUtf16LE(b, s1, s)
  }

  // ----- mxml_fd_getc, on the bytes still to come -----

  /** The UTF-8 case for a first byte that is no byte-order mark */
  function StreamUtf8(b: Byte, s: seq<Byte>): (g: Got)
    ensures |g.rest| <= |s|
  {
    var ch := b as bv32;
    if b & 0x80 == 0 then (if BadChar(ch) then Eof(s, UTF8) else Got(ch, s, UTF8))
    else if b & 0xe0 == 0xc0 then StreamMore(ch & 0x1f, 1, 0x80, s)
    else if b & 0xf0 == 0xe0 then StreamMore(ch & 0x0f, 2, 0x800, s)
    else if b & 0xf8 == 0xf0 then StreamMore(ch & 0x07, 3, 0x10000, s)
    else Eof(s, UTF8)
  }

  /** `n` continuation bytes, read one after the other; the result must be at least `least` */
  function StreamMore(ch: bv32, n: nat, least: bv32, s: seq<Byte>): (g: Got)
    ensures |g.rest| <= |s| && g.enc == UTF8
    decreases n
  {
    if n == 0 then (if ch < least then Eof(s, UTF8) else Got(ch, s, UTF8))
    else if s == [] then Eof(s, UTF8)
    else if !Continues(s[0]) then Eof(s[1..], UTF8)
    else StreamMore(Six(ch, s[0]), n - 1, least, s[1..])
  }

  /** The two UTF-16 cases; they differ only in the order of the bytes of a word. */
  function StreamUtf16(b: Byte, s: seq<Byte>, enc: Encoding): (g: Got)
    ensures |g.rest| <= |s| && g.enc == enc
  {
    if s == [] then Eof(s, enc)
    else
      var ch := if enc == UTF16BE then Word(b, s[0]) else Word(s[0], b);
      if BadChar(ch) then Eof(s[1..], enc)
      else if !HighSurrogate(ch) then Got(ch, s[1..], enc)
      else if |s| < 3 then Eof([], enc)
      else
        var low := if enc == UTF16BE then Word(s[1], s[2]) else Word(s[2], s[1]);
        if BadLow(low) then Eof(s[3..], enc) else Got(Combine(ch, low), s[3..], enc)
  }

  /** `mxml_fd_getc` */
  function StreamGetC(s: seq<Byte>, enc: Encoding): (g: Got)
    ensures |g.rest| <= |s| && (g.Got? ==> |g.rest| < |s|)
    decreases |s|
  {
    if s == [] then Eof(s, enc)
    else
      match enc
      case UTF8 =>
        if s[0] == 0xfe || s[0] == 0xff then
          if |s| == 1 then Eof([], enc)
          else if s[1] != (if s[0] == 0xfe then 0xff else 0xfe) then Eof(s[2..], enc)
          else StreamGetC(s[2..], if s[0] == 0xfe then UTF16BE else UTF16LE)
        else StreamUtf8(s[0], s[1..])
      case _ => StreamUtf16(s[0], s[1..], enc)
  }
}
