/** The growing buffers of the parsers and what mxml_add_char stores in them. */
module Buffers {
  import opened Encodings
  import Reader

  const FIRST_SIZE: nat := 64

  /** The size that a full buffer grows to */
  function NextSize(size: nat): nat {
    if size < 1024 then 2 * size else size + 1024
  }

  /** `buffer`, `bufptr` and `bufsize` of the parsers */
  class Buffer<T(0)> {
    var data: array<T>
    var used: nat

    /** There is always room for one more element: the terminating NUL fits. */
    ghost predicate Valid()
      reads this
    {
      FIRST_SIZE <= data.Length && used < data.Length
    }

    ghost function Content(): (s: seq<T>)
      requires Valid()
      reads this, data
      ensures |s| == used
    {
      data[..used]
    }

    lemma {:induction false} Parts()
      requires Valid()
      ensures FIRST_SIZE <= data.Length && used < data.Length && Content() == data[..used]
    {
    }

    constructor ()
      ensures Valid() && fresh(data) && Content() == [] && data.Length == 64
    {
      data := new T[FIRST_SIZE];
      used := 0;
    }

    /** The growth at the start of `mxml_add_char`: double below 1024 elements, 1024 more from
        there on */
    method Grow()
      requires Valid()
      modifies this
      ensures Valid() && Content() == old(Content()) && (data == old(data) || fresh(data))
      ensures used + 4 < data.Length
      ensures used + 4 < old(data.Length) ==> data == old(data)
      ensures used + 4 >= old(data.Length) ==>
                data.Length == if old(data.Length) < 1024 then 2 * old(data.Length) else old(data.Length) + 1024
    {
      if used as int >= data.Length - 4 {
        var bigger := new T[NextSize(data.Length)];
        forall i | 0 <= i < used {
          bigger[i] := data[i];
        }
        data := bigger;
      }
    }

    method Put(x: T)
      requires Valid() && used + 1 < data.Length
      modifies this`used, data
      ensures Valid() && data == old(data) && used == old(used) + 1 && Content() == old(Content()) + [x]
    {
      data[used] := x;
      used := used + 1;
    }

    /** `*bufptr = '\0'` */
    method Terminate(nul: T)
      requires Valid()
      modifies data
      ensures Valid() && Content() == old(Content()) && data[used] == nul
    {
      data[used] := nul;
    }

    /** `bufptr = buffer` */
    method Reset()
      requires Valid()
      modifies this`used
      ensures Valid() && Content() == []
    {
      used := 0;
    }
  }

  /** `mxml_add_char` of mxml-file-utf8.c */
  method AddCharacter(buffer: Buffer<Byte>, ch: bv32)
    requires buffer.Valid()
    modifies buffer, buffer.data
    ensures buffer.Valid() && (buffer.data == old(buffer.data) || fresh(buffer.data))
    ensures buffer.Content() == old(buffer.Content()) + Encode(ch)
  {
    buffer.Grow();
    StoreCharacter(buffer, ch);
  }

  lemma {:induction false} EncodeCases(ch: bv32)
    ensures ch < 0x80 ==> Encode(ch) == [Low(ch)]
    ensures 0x80 <= ch < 0x800 ==> Encode(ch) == [Low(0xc0 | (ch >> 6)), Low(0x80 | (ch & 0x3f))]
    ensures 0x800 <= ch < 0x10000 ==>
              Encode(ch) == [Low(0xe0 | (ch >> 12)), Low(0x80 | ((ch >> 6) & 0x3f)), Low(0x80 | (ch & 0x3f))]
    ensures 0x10000 <= ch ==>
              Encode(ch) == [Low(0xf0 | (ch >> 18)), Low(0x80 | ((ch >> 12) & 0x3f)), Low(0x80 | ((ch >> 6) & 0x3f)), Low(0x80 | (ch & 0x3f))]
  {
    hide Low;
  }

  method StoreCharacter(buffer: Buffer<Byte>, ch: bv32)
    requires buffer.Valid() && buffer.used + 4 < buffer.data.Length
    modifies buffer`used, buffer.data
    ensures buffer.Valid() && buffer.data == old(buffer.data)
    ensures buffer.Content() == old(buffer.Content()) + Encode(ch)
  {
    hide *;
    EncodeCases(ch);
    if ch < 0x80 {
      buffer.Put(Low(ch));
    } else if ch < 0x800 {
      buffer.Put(Low(0xc0 | (ch >> 6)));
      buffer.Put(Low(0x80 | (ch & 0x3f)));
    } else if ch < 0x10000 {
      buffer.Put(Low(0xe0 | (ch >> 12)));
      buffer.Put(Low(0x80 | ((ch >> 6) & 0x3f)));
      buffer.Put(Low(0x80 | (ch & 0x3f)));
    } else {
      buffer.Put(Low(0xf0 | (ch >> 18)));
      buffer.Put(Low(0x80 | ((ch >> 12) & 0x3f)));
      buffer.Put(Low(0x80 | ((ch >> 6) & 0x3f)));
      buffer.Put(Low(0x80 | (ch & 0x3f)));
    }
  }

  /** `mxml_add_char` of mxml-file.c, the variant that stores every value with bit 7 as one byte */
  method AddByteOrCharacter(buffer: Buffer<char>, ch: int)
    requires buffer.Valid()
    modifies buffer, buffer.data
    ensures buffer.Valid() && (buffer.data == old(buffer.data) || fresh(buffer.data))
    ensures buffer.Content() == old(buffer.Content()) + Reader.AddChar(ch)
  {
    buffer.Grow();
    StoreByteOrCharacter(buffer, ch);
  }

  method StoreByteOrCharacter(buffer: Buffer<char>, ch: int)
    requires buffer.Valid() && buffer.used + 4 < buffer.data.Length
    modifies buffer`used, buffer.data
    ensures buffer.Valid() && buffer.data == old(buffer.data)
    ensures buffer.Content() == old(buffer.Content()) + Reader.AddChar(ch)
  {
    hide Reader.LowByte;
    if ch < 0x80 || ch / 0x80 % 2 == 1 {
      buffer.Put(Reader.LowByte(ch));
    } else if ch < 0x800 {
      buffer.Put(Reader.LowByte(0xC0 + ch / 0x40));
      buffer.Put(Reader.LowByte(0x80 + ch % 0x40));
    } else if ch < 0x10000 {
      buffer.Put(Reader.LowByte(0xE0 + ch / 0x1000));
      buffer.Put(Reader.LowByte(0x80 + ch / 0x40 % 0x40));
      buffer.Put(Reader.LowByte(0x80 + ch % 0x40));
    } else {
      buffer.Put(Reader.LowByte(0xF0 + ch / 0x40000 % 0x10));
      buffer.Put(Reader.LowByte(0x80 + ch / 0x1000 % 0x40));
      buffer.Put(Reader.LowByte(0x80 + ch / 0x40 % 0x40));
      buffer.Put(Reader.LowByte(0x80 + ch % 0x40));
    }
  }
}
