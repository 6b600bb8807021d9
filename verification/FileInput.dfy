/** Reading characters from a file descriptor (mxml-file-utf8.c): however `read` cuts the file into
    pieces, the characters are those of the whole. */
module FileInput {
  import opened Options
  import opened Encodings
  import opened EncodingProofs

  const BUFFER_SIZE: nat := 8192

  /** One result of `read`: some bytes, or an interruption (`EINTR`, `EAGAIN`) */
  datatype ReadResult = Data(bytes: seq<Byte>) | Interrupted

  predicate Readable(source: seq<ReadResult>) {
    forall i :: 0 <= i < |source| && source[i].Data? ==> 1 <= |source[i].bytes| <= BUFFER_SIZE
  }

  /** All the bytes that `read` will deliver */
  function Joined(source: seq<ReadResult>): seq<Byte> {
    if source == [] then []
    else (match source[0] case Data(bytes) => bytes case Interrupted => []) + Joined(source[1..])
  }

  /** What `mxml_fd_getc` returns */
  function ResultOf(g: Got): Option<bv32> {
    match g
    case Eof(_, _) => None
    case Got(ch, _, _) => Some(ch)
  }

  /** `_mxml_fdbuf_t` */
  class FdInput {
    const buffer: array<Byte>
    var current: nat
    var end: nat
    var encoding: Encoding
    /** The results of the calls of `read` to come, up to the one that reports the end of the file
        or an error */
    var source: seq<ReadResult>

    ghost predicate Valid()
      reads this
    {
      buffer.Length == BUFFER_SIZE && current <= end <= BUFFER_SIZE && Readable(source)
    }

    /** The bytes that are still to be decoded, in the buffer and outside of it */
    ghost function Remaining(): seq<Byte>
      requires Valid()
      reads this, buffer
    {
      buffer[current..end] + Joined(source)
    }

    constructor (source: seq<ReadResult>)
      requires Readable(source)
      ensures Valid() && fresh(buffer) && encoding == UTF8 && Remaining() == Joined(source)
    {
      buffer := new Byte[BUFFER_SIZE];
      current, end := 0, 0;
      encoding := UTF8;
      this.source := source;
    }

    /** `mxml_fd_read` */
    method Read() returns (ok: bool)
      requires Valid() && current == end
      modifies this`current, this`end, this`source, buffer
      ensures Valid() && Remaining() == old(Remaining())
      ensures ok <==> old(Remaining()) != []
      ensures ok ==> current < end
    {
      while source != [] && source[0].Interrupted?
        invariant Valid() && current == end && Joined(source) == old(Joined(source))
        decreases |source|
      {
        source := source[1..];
      }
      if source == [] {
        return false;
      }
      var bytes := source[0].bytes;
      forall i | 0 <= i < |bytes| {
        buffer[i] := bytes[i];
      }
      current, end := 0, |bytes|;
      source := source[1..];
      assert buffer[0..end] == bytes;
      return true;
    }

    /** The next byte, from a new piece of the file when the buffer is used up */
    method NextByte() returns (b: Option<Byte>)
      requires Valid()
      modifies this`current, this`end, this`source, buffer
      ensures Valid()
      ensures old(Remaining()) == [] ==> b == None && Remaining() == []
      ensures old(Remaining()) != [] ==> b == Some(old(Remaining())[0]) && Remaining() == old(Remaining())[1..]
    {
      if current >= end {
        var ok := Read();
        if !ok {
          return None;
        }
      }
      assert Remaining()[0] == buffer[current];
      b := Some(buffer[current]);
      assert buffer[current..end][1..] == buffer[current + 1..end];
      current := current + 1;
    }

    /** `n` continuation bytes that follow the bits `lead` */
    method Continuation(lead: bv32, n: nat, least: bv32) returns (r: Option<bv32>)
      requires Valid()
      modifies this`current, this`end, this`source, buffer
      ensures Valid()
      ensures var g := StreamMore(lead, n, least, old(Remaining())); r == ResultOf(g) && Remaining() == g.rest
    {
      var ch, i := lead, n;
      while i > 0
        invariant Valid() && 0 <= i <= n
        invariant StreamMore(ch, i, least, Remaining()) == StreamMore(lead, n, least, old(Remaining()))
        decreases i
      {
        ghost var s := Remaining();
        var b := NextByte();
        if b == None || !Continues(b.value) {
          return None;
        }
        assert StreamMore(ch, i, least, s) == StreamMore(Six(ch, b.value), i - 1, least, s[1..]);
        ch := Six(ch, b.value);
        i := i - 1;
      }
      r := if ch < least then None else Some(ch);
    }

    /** The rest of a UTF-16 character whose first byte is `b` */
    method SecondByte(b: Byte) returns (r: Option<bv32>)
      requires Valid() && encoding != UTF8
      modifies this`current, this`end, this`source, buffer
      ensures Valid()
      ensures var g := StreamUtf16(b, old(Remaining()), encoding); r == ResultOf(g) && Remaining() == g.rest
    {
      ghost var s := Remaining();
      var c := NextByte();
      if c == None {
        return None;
      }
      var ch := if encoding == UTF16BE then Word(b, c.value) else Word(c.value, b);
      if BadChar(ch) {
        return None;
      } else if HighSurrogate(ch) {
        var d := NextByte();
        if d == None {
          return None;
        }
        var e := NextByte();
        assert |s| >= 2;
        if e == None {
          return None;
        }
        assert d.value == s[1] && e.value == s[2] && Remaining() == s[3..];
        var low := if encoding == UTF16BE then Word(d.value, e.value) else Word(e.value, d.value);
        if BadLow(low) {
          return None;
        }
        ch := Combine(ch, low);
      }
      return Some(ch);
    }

    /** `mxml_fd_getc`. Nothing of how the file was cut is left in the result. */
    method GetC() returns (r: Option<bv32>)
      requires Valid()
      modifies this, buffer
      ensures Valid()
      ensures var g := StreamGetC(old(Remaining()), old(encoding));
              r == ResultOf(g) && Remaining() == g.rest && encoding == g.enc
      decreases encoding == UTF8
    {
      hide *;
      ghost var s := Remaining();
      StreamIs(s, encoding);
      var first := NextByte();
      if first == None {
        return None;
      }
      var b := first.value;
      if encoding != UTF8 {
        r := SecondByte(b);
      } else if b == 0xfe || b == 0xff {
        // Half of a byte-order mark; bit 7 is set in both, so that this is no one-byte character.
        var second := NextByte();
        if second != Some(if b == 0xfe then 0xff else 0xfe) {
          return None;
        }
        Switch(if b == 0xfe then UTF16BE else UTF16LE);
        r := GetC();
      } else {
        r := Utf8Byte(b);
      }
    }

    /** The byte-order mark sets the encoding of what follows. */
    method Switch(enc: Encoding)
      requires Valid()
      modifies this`encoding
      ensures Valid() && encoding == enc && Remaining() == old(Remaining())
    {
      encoding := enc;
    }

    /** The rest of a UTF-8 character whose first byte is `b` */
    method Utf8Byte(b: Byte) returns (r: Option<bv32>)
      requires Valid()
      modifies this`current, this`end, this`source, buffer
      ensures Valid()
      ensures var g := StreamUtf8(b, old(Remaining())); r == ResultOf(g) && Remaining() == g.rest && g.enc == UTF8
    {
      hide BadChar, Continues, StreamMore, Valid, Remaining;
      var ch := b as bv32;
      if b & 0x80 == 0 {
        r := if BadChar(ch) then None else Some(ch);
      } else if b & 0xe0 == 0xc0 {
        r := Continuation(ch & 0x1f, 1, 0x80);
      } else if b & 0xf0 == 0xe0 {
        r := Continuation(ch & 0x0f, 2, 0x800);
      } else if b & 0xf8 == 0xf0 {
        r := Continuation(ch & 0x07, 3, 0x10000);
      } else {
        r := None;
      }
    }
  }

  /** The cases of `mxml_fd_getc` */
  lemma {:induction false} StreamIs(s: seq<Byte>, enc: Encoding)
    ensures var g := StreamGetC(s, enc);
            if s == [] then g == Eof(s, enc)
            else if enc != UTF8 then g == StreamUtf16(s[0], s[1..], enc)
            else if s[0] != 0xfe && s[0] != 0xff then g == StreamUtf8(s[0], s[1..])
            else if |s| == 1 then g == Eof([], enc)
            else if s[1] != (if s[0] == 0xfe then 0xff else 0xfe) then g == Eof(s[2..], enc)
            else g == StreamGetC(s[2..], if s[0] == 0xfe then UTF16BE else UTF16LE)
    ensures |s| >= 2 ==> s[1..][0] == s[1] && s[1..][1..] == s[2..]
    ensures |s| == 1 ==> s[1..] == []
    ensures forall rest, e :: ResultOf(Eof(rest, e)) == None
    ensures s != [] && enc != UTF8 ==> StreamUtf16(s[0], s[1..], enc).enc == enc
  {
    hide StreamUtf16, StreamUtf8;
  }

  /** Reads a file to its first end: the characters are those of the whole file, and without a
      byte-order mark those that the string reader finds. */
  method ReadAll(file: FdInput) returns (chars: seq<bv32>)
    requires file.Valid()
    modifies file, file.buffer
    ensures chars == StreamChars(old(file.Remaining()), old(file.encoding))
    ensures old(file.encoding) == UTF8 && NoByteOrderMark(old(file.Remaining())) ==>
              chars == StringChars(old(file.Remaining()), UTF8)
  {
    hide StreamGetC, StringGetC;
    chars := [];
    ghost var whole := StreamChars(file.Remaining(), file.encoding);
    var r := file.GetC();
    while r != None
      invariant file.Valid()
      invariant r == None ==> whole == chars
      invariant r != None ==> whole == chars + [r.value] + StreamChars(file.Remaining(), file.encoding)
      decreases |file.Remaining()|, r != None
    {
      chars := chars + [r.value];
      r := file.GetC();
    }
    if old(file.encoding) == UTF8 && NoByteOrderMark(old(file.Remaining())) {
      ReadersAgree(old(file.Remaining()));
    }
  }
}
