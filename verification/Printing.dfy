/** The character loops of mxml-file.c's printer, writing to a string of limited size. */
module Printing {
  import opened Options
  import opened Chars
  import opened Trees
  import opened Writer

  /** The two pointers of `mxml_string_putc`: `count` is the distance of the first one from the start
      of the buffer, and it goes on past the end. */
  class StringSink {
    const buffer: array<char>
    var count: nat
    /** Everything that was put */
    ghost var written: string

    ghost predicate Valid()
      reads this, buffer
    {
      count == |written| && forall i :: 0 <= i < count && i < buffer.Length ==> buffer[i] == written[i]
    }

    constructor (buffer: array<char>)
      ensures Valid() && this.buffer == buffer && written == []
    {
      this.buffer := buffer;
      count := 0;
      written := [];
    }

    /** `mxml_string_putc` for a value below 0x80. Stored bytes are signed, so those from 0x80 on are
        negative here and take the same path. */
    method Put(c: char)
      requires Valid()
      modifies this, buffer
      ensures Valid() && written == old(written) + [c]
    {
      if count < buffer.Length {
        buffer[count] := c;
      }
      count := count + 1;
      written := written + [c];
    }

    method PutAll(s: string)
      requires Valid()
      modifies this, buffer
      ensures Valid() && written == old(written) + s
    {
      var i := 0;
      while i < |s|
        invariant Valid() && i <= |s| && written == old(written) + s[..i]
      {
        Put(s[i]);
        assert s[..i + 1] == s[..i] + [s[i]];
        i := i + 1;
      }
      assert s[..i] == s;
    }

    /** Writes one character of a string, as an entity if it has a name */
    method PutEscaped(c: char)
      requires Valid()
      modifies this, buffer
      ensures Valid() && written == old(written) + EscapeChar(c)
    {
      match NamedEntity(c) {
        case Some(name) =>
          Put('&');
          PutAll(name);
          Put(';');
          assert "&" + name + ";" == ['&'] + name + [';'];
        case None =>
          Put(c);
      }
    }

    /** `mxml_write_string` */
    method WriteString(s: string)
      requires Valid()
      modifies this, buffer
      ensures Valid() && written == old(written) + Escape(s)
    {
      hide EscapeChar;
      var i := 0;
      while i < |s|
        invariant Valid() && i <= |s| && written + Escape(s[i..]) == old(written) + Escape(s)
      {
        ghost var before := written;
        assert Escape(s[i..]) == EscapeChar(s[i]) + Escape(s[i + 1..]) by { assert s[i..][1..] == s[i + 1..]; }
        PutEscaped(s[i]);
        assert written + Escape(s[i + 1..]) == before + Escape(s[i..]);
        i := i + 1;
      }
    }

    /** `mxml_write_name` */
    method WriteNameString(s: string)
      requires Valid()
      modifies this, buffer
      ensures Valid() && written == old(written) + WriteName(s)
    {
      hide EscapeChar, Escape;
      if s != [] && IsQuote(s[0]) {
        var quote := s[0];
        Put(quote);
        ghost var start := written;
        var i := 1;
        while i < |s| && s[i] != quote
          invariant Valid() && 1 <= i <= |s|
          invariant written + Escape(UpTo(s[i..], quote)) == start + Escape(UpTo(s[1..], quote))
        {
          ghost var before := written;
          assert s[i..][1..] == s[i + 1..];
          EscapeStep(s[i], UpTo(s[i + 1..], quote));
          PutEscaped(s[i]);
          assert written + Escape(UpTo(s[i + 1..], quote)) == before + Escape(UpTo(s[i..], quote));
          i := i + 1;
        }
        EscapeNothing();
        assert UpTo(s[i..], quote) == [];
        assert written == start + Escape(UpTo(s[1..], quote)) by { assert written + [] == written; }
        Put(quote);
        assert written == old(written) + ([quote] + Escape(UpTo(s[1..], quote)) + [quote]);
      } else {
        PutAll(s);
      }
    }

    /** The close tag of an element */
    method WriteEndName(name: string)
      requires Valid()
      modifies this, buffer
      ensures Valid() && written == old(written) + EndName(name)
    {
      hide Escape;
      Put('<');
      Put('/');
      WriteString(name);
      Put('>');
      assert "</" + Escape(name) + ">" == ['<'] + ['/'] + Escape(name) + ['>'];
    }

    /** `mxml_write_ws`, for the string that the callback returned */
    method WriteSpaces(s: string, col: int) returns (after: int)
      requires Valid()
      modifies this, buffer
      ensures Valid() && written == old(written) + s && after == ColumnAfter(s, col)
    {
      after := col;
      var i := 0;
      while i < |s|
        invariant Valid() && i <= |s| && written == old(written) + s[..i]
        invariant ColumnAfter(s, col) == ColumnAfter(s[i..], after)
      {
        Put(s[i]);
        if s[i] == '\n' {
          after := 0;
        } else if s[i] == '\t' {
          after := after + TAB;
          after := after - CRem(after, TAB);
        } else {
          after := after + 1;
        }
        assert s[..i + 1] == s[..i] + [s[i]];
        assert s[i..][1..] == s[i + 1..];
        i := i + 1;
      }
      assert s[..i] == s;
    }

    /** A newline when `pastMargin`, a space otherwise */
    method Separate(pastMargin: bool, col: int) returns (after: int)
      requires Valid()
      modifies this, buffer
      ensures Valid()
      ensures var w := WriteSeparator(pastMargin, col); written == old(written) + w.text && after == w.col
    {
      if pastMargin {
        Put('\n');
        return 0;
      }
      Put(' ');
      return col + 1;
    }

    method WriteAttr(a: Attr)
      requires Valid()
      modifies this, buffer
      ensures Valid() && written == old(written) + AttrText(a)
    {
      hide Escape, WriteName;
      WriteNameString(a.name);
      if a.value.Some? {
        Put('=');
        Put('\"');
        WriteString(a.value.value);
        Put('\"');
      }
    }

    /** The loop over the attributes of an element */
    method WriteAttributes(attrs: seq<Attr>, wrap: int, col: int) returns (after: int)
      requires Valid()
      modifies this, buffer
      ensures Valid()
      ensures var w := WriteAttrs(attrs, wrap, col); written == old(written) + w.text && after == w.col
    {
      hide *;
      after := col;
      var i := 0;
      AttrsEnd(attrs, wrap, col);
      while i < |attrs|
        invariant Valid() && i <= |attrs|
        invariant var w, v := WriteAttrs(attrs, wrap, col), WriteAttrs(attrs[i..], wrap, after);
                  written + v.text == old(written) + w.text && v.col == w.col
      {
        ghost var before := written;
        ghost var c := after;
        var a := attrs[i];
        var width := |a.name| + (if a.value.Some? then |a.value.value| + 3 else 0);
        AttrsStep(attrs, i, wrap, after);
        WidthIs(a);
        after := Separate(after + width > wrap, after);
        WriteAttr(a);
        after := after + width;
        JoinAttr(before, WriteSeparator(c + width > wrap, c).text, AttrText(a), WriteAttrs(attrs[i + 1..], wrap, after).text);
        i := i + 1;
      }
      AttrsEnd(attrs, wrap, after);
      assert written + [] == written;
    }
  }

  function EndName(name: string): string {
    "</" + Escape(name) + ">"
  }

  lemma {:induction false} EscapeNothing()
    ensures Escape("") == ""
  {
  }

  lemma {:induction false} EscapeStep(c: char, rest: string)
    ensures Escape([c] + rest) == EscapeChar(c) + Escape(rest)
  {
    assert ([c] + rest)[1..] == rest;
  }

  lemma {:induction false} JoinAttr(a: string, b: string, c: string, d: string)
    ensures a + b + c + d == a + (b + c + d)
  {
  }

  lemma {:induction false} WidthIs(a: Attr)
    ensures AttrWidth(a) == |a.name| + (if a.value.Some? then |a.value.value| + 3 else 0)
  {
  }

  lemma {:induction false} AttrsEnd(attrs: seq<Attr>, wrap: int, col: int)
    ensures WriteAttrs(attrs[|attrs|..], wrap, col) == Written([], col) && attrs[0..] == attrs
  {
  }

  lemma {:induction false} AttrsStep(attrs: seq<Attr>, i: nat, wrap: int, col: int)
    requires i < |attrs|
    ensures var sep := WriteSeparator(col + AttrWidth(attrs[i]) > wrap, col);
            var rest := WriteAttrs(attrs[i + 1..], wrap, sep.col + AttrWidth(attrs[i]));
            WriteAttrs(attrs[i..], wrap, col) == Written(sep.text + AttrText(attrs[i]) + rest.text, rest.col)
  {
    hide AttrText;
    assert attrs[i..][1..] == attrs[i + 1..];
  }
}
