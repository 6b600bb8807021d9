/** Writing characters to a file descriptor (mxml-file-utf8.c) through a buffer, with a `write` that
    may take less than it is given. */
module FileOutput {
  import opened Encodings
  import opened EncodingProofs

  const BUFFER_SIZE: nat := 8192

  /** `end`: characters of up to four bytes are stored only below this place. */
  const LIMIT: nat := BUFFER_SIZE - 4

  /** What one call of `write` does: it takes up to `n` bytes, or fails. */
  datatype WriteResult = Takes(n: nat) | Fails

  predicate Usable(schedule: seq<WriteResult>) {
    forall i :: 0 <= i < |schedule| && schedule[i].Takes? ==> schedule[i].n >= 1
  }

  /** `_mxml_fdbuf_t`, and the file behind it */
  class FdOutput {
    const buffer: array<Byte>
    var current: nat
    /** What the file has received so far */
    var received: seq<Byte>
    /** What the next calls of `write` will do; later calls take all they are given. */
    var schedule: seq<WriteResult>

    ghost predicate Valid()
      reads this
    {
      buffer.Length == BUFFER_SIZE && current < BUFFER_SIZE && Usable(schedule)
    }

    /** Everything that was ever put, written or still waiting */
    ghost function Sent(): seq<Byte>
      requires Valid()
      reads this, buffer
    {
      received + buffer[..current]
    }

    constructor (schedule: seq<WriteResult>)
      requires Usable(schedule)
      ensures Valid() && fresh(buffer) && Sent() == []
    {
      buffer := new Byte[BUFFER_SIZE];
      current := 0;
      received := [];
      this.schedule := schedule;
    }

    /** `write`: takes at least one of the bytes `from..current` of the buffer, or fails (-1) */
    method SystemWrite(from: nat) returns (bytes: int)
      requires Valid() && from < current
      modifies this`received, this`schedule
      ensures Valid() && -1 <= bytes <= current - from && bytes != 0
      ensures received == old(received) + (if bytes < 0 then [] else buffer[from..from + bytes])
    {
      bytes := current - from;
      if schedule != [] {
        match schedule[0] {
          case Fails => bytes := -1;
          case Takes(n) => if n < bytes { bytes := n; }
        }
        schedule := schedule[1..];
      }
      if bytes >= 0 {
        received := received + buffer[from..from + bytes];
      }
    }

    /** `mxml_fd_write`. When it fails, the file has received some of the waiting bytes and they
        all keep waiting. */
    method Flush() returns (ok: bool)
      requires Valid()
      modifies this`current, this`received, this`schedule
      ensures Valid()
      ensures ok ==> current == 0 && received == old(Sent())
      ensures !ok ==> current == old(current) && old(received) <= received <= old(Sent())
    {
      if current == 0 {
        return true;
      }
      var from := 0;
      while from < current
        invariant Valid() && current == old(current) && from <= current
        invariant received == old(received) + buffer[..from]
        decreases current - from
      {
        var bytes := SystemWrite(from);
        if bytes < 0 {
          assert buffer[..from] <= buffer[..current];
          return false;
        }
        assert buffer[..from + bytes] == buffer[..from] + buffer[from..from + bytes];
        from := from + bytes;
      }
      current := 0;
      return true;
    }

    method Store(b: Byte)
      requires Valid() && current < BUFFER_SIZE - 1
      modifies this`current, buffer
      ensures Valid() && current == old(current) + 1 && Sent() == old(Sent()) + [b]
    {
      buffer[current] := b;
      assert buffer[..current + 1] == old(buffer[..current]) + [b];
      current := current + 1;
    }

    /** `mxml_fd_putc`. The bytes that were put and those that the file received never differ
        but by what waits in the buffer. */
    method PutC(ch: bv32) returns (ok: bool)
      requires Valid()
      modifies this, buffer
      ensures Valid()
      ensures ok ==> Sent() == old(Sent()) + Encode(ch)
      ensures !ok ==> old(received) <= received <= old(Sent())
    {
      hide Low, Encode, Sent;
      if current >= LIMIT {
        var flushed := Flush();
        if !flushed {
          return false;
        }
        JustFlushed();
      }
      StoreCharacter(ch);
      return true;
    }

    lemma {:induction false} JustFlushed()
      requires Valid() && current == 0
      ensures Sent() == received
    {
    }

    /** The part of `mxml_fd_putc` that stores the bytes */
    method StoreCharacter(ch: bv32)
      requires Valid() && current < LIMIT
      modifies this`current, buffer
      ensures Valid() && Sent() == old(Sent()) + Encode(ch)
    {
      hide Low, Sent;
      ghost var s := Sent();
      if ch < 0x80 {
        Store(Low(ch));
      } else if ch < 0x800 {
        Store(Low(0xc0 | (ch >> 6)));
        Store(Low(0x80 | (ch & 0x3f)));
      } else if ch < 0x10000 {
        Store(Low(0xe0 | (ch >> 12)));
        Store(Low(0x80 | ((ch >> 6) & 0x3f)));
        Store(Low(0x80 | (ch & 0x3f)));
      } else {
        Store(Low(0xf0 | (ch >> 18)));
        Store(Low(0x80 | ((ch >> 12) & 0x3f)));
        Store(Low(0x80 | ((ch >> 6) & 0x3f)));
        Store(Low(0x80 | (ch & 0x3f)));
      }
    }
  }

  /** Puts a whole text and flushes at the end, as the savers do: the file has received all of it,
      or, after a failure, its beginning. */
  method WriteAll(file: FdOutput, chars: seq<bv32>) returns (ok: bool)
    requires file.Valid() && file.Sent() == []
    modifies file, file.buffer
    ensures ok ==> file.received == EncodeAll(chars)
    ensures file.received <= EncodeAll(chars)
  {
    hide Encode;
    var i := 0;
    while i < |chars|
      invariant file.Valid() && i <= |chars|
      invariant file.Sent() == EncodeAll(chars[..i])
    {
      ghost var before := file.Sent();
      EncodePrefix(chars, i);
      ok := file.PutC(chars[i]);
      if !ok {
        return;
      }
      assert chars[..i + 1][..i] == chars[..i];
      i := i + 1;
    }
    assert chars[..i] == chars;
    ok := file.Flush();
  }

  lemma {:induction false} EncodePrefix(chars: seq<bv32>, i: nat)
    requires i <= |chars|
    ensures EncodeAll(chars[..i]) <= EncodeAll(chars)
    decreases |chars|
  {
    hide Encode;
    if i == |chars| {
      assert chars[..i] == chars;
    } else {
      assert chars[..|chars| - 1][..i] == chars[..i];
      EncodePrefix(chars[..|chars| - 1], i);
    }
  }
}
