/** The character loops of mxml-file.c's loader, in the form of the C code: each reads from a source
    and stores into growing buffers. */
module Scanning {
  import opened Options
  import opened Chars
  import opened Numbers
  import opened Trees
  import opened Forests
  import opened Attributes
  import opened Buffers
  import opened Reader

  /** The string pointer that `mxml_string_getc` moves along */
  class Source {
    const text: string
    var pos: nat

    ghost predicate Valid()
      reads this`pos
    {
      pos <= |text|
    }

    ghost function Rest(): string
      requires Valid()
      reads this`pos
    {
      text[pos..]
    }

    constructor (text: string)
      ensures this.text == text && Valid() && Rest() == text
    {
      this.text := text;
      pos := 0;
    }

    /** `mxml_string_getc` of mxml-file.c, for a string without byte-order mark: the variant takes
        every byte as a character. */
    method GetChar() returns (ch: Option<char>)
      requires Valid()
      modifies this`pos
      ensures Valid()
      ensures var g := GetC(old(Rest())); Rest() == g.rest && ch == CharOf(g)
    {
      if pos == |text| || text[pos] == '\0' {
        return None;
      }
      var c := text[pos];
      pos := pos + 1;
      if BadChar(c as int) {
        return None;
      }
      return Some(c);
    }
  }

  function CharOf(g: Got): Option<char> {
    match g
    case Eof(_) => None
    case Got(c, _) => Some(c)
  }

  /** `mxml_get_entity` */
  method GetEntityFrom(source: Source, ents: string -> int) returns (code: Option<int>)
    requires source.Valid()
    modifies source`pos
    ensures source.Valid()
    ensures match GetEntity(old(source.Rest()), ents)
            case NoEntity => code == None
            case Entity(n, rest) => code == Some(n) && source.Rest() == rest
  {
    hide StrToL, ToInt32, IsAlnum;
    var entity := new char[64];
    var n := 0;
    var ch;
    while true
      invariant source.Valid() && n <= 63
      invariant ReadEntityName(old(source.Rest()), "") == ReadEntityName(source.Rest(), entity[..n])
      decreases |source.Rest()|
    {
      ch := source.GetChar();
      if ch == None {
        break;
      }
      if ch.value as int > 126 || (!IsAlnum(ch.value) && ch.value != '#') {
        break;
      } else if n < 63 {
        entity[n] := ch.value;
        assert entity[..n + 1] == entity[..n] + [ch.value];
        n := n + 1;
      } else {
        break;
      }
    }
    if ch != Some(';') {
      return None;
    }
    var value;
    if n > 0 && entity[0] == '#' {
      if n > 1 && entity[1] == 'x' {
        assert entity[..n][2..] == entity[2..n];
        value := ToInt32(StrToL(entity[2..n], 16).0);
      } else {
        assert entity[..n][1..] == entity[1..n];
        value := ToInt32(StrToL(entity[1..n], 10).0);
      }
    } else {
      value := ents(entity[..n]);
    }
    if BadChar(value) {
      return None;
    }
    return Some(value);
  }

  // ----- mxml_parse_element -----

  /** The loop that reads an attribute name without quotes */
  method ScanAttrName(source: Source, buffer: Buffer<char>, ents: string -> int) returns (ok: bool, ch: Option<char>)
    requires source.Valid() && buffer.Valid()
    modifies source`pos, buffer, buffer.data
    ensures source.Valid() && buffer.Valid() && (buffer.data == old(buffer.data) || fresh(buffer.data))
    ensures ReadAttrName(old(source.Rest()), old(buffer.Content()), ents)
         == if ok then Scanned(buffer.Content(), ch, source.Rest()) else ScanError
  {
    while true
      invariant source.Valid() && buffer.Valid() && (buffer.data == old(buffer.data) || fresh(buffer.data))
      invariant ReadAttrName(old(source.Rest()), old(buffer.Content()), ents)
             == ReadAttrName(source.Rest(), buffer.Content(), ents)
      decreases |source.Rest()|
    {
      ch := source.GetChar();
      if ch == None {
        return true, ch;
      }
      var c := ch.value;
      if IsSpace(c) || c == '=' || c == '/' || c == '>' || c == '?' {
        return true, ch;
      }
      var code := c as int;
      if c == '&' {
        var entity := GetEntityFrom(source, ents);
        if entity == None {
          return false, ch;
        }
        code := entity.value;
      }
      AddByteOrCharacter(buffer, code);
    }
  }

  /** The loop that reads an attribute value in quotes */
  method ScanQuoted(source: Source, quote: char, buffer: Buffer<char>, ents: string -> int) returns (ok: bool, ch: Option<char>)
    requires source.Valid() && buffer.Valid()
    modifies source`pos, buffer, buffer.data
    ensures source.Valid() && buffer.Valid() && (buffer.data == old(buffer.data) || fresh(buffer.data))
    ensures ReadQuoted(old(source.Rest()), quote, old(buffer.Content()), ents)
         == if ok then Scanned(buffer.Content(), ch, source.Rest()) else ScanError
  {
    while true
      invariant source.Valid() && buffer.Valid() && (buffer.data == old(buffer.data) || fresh(buffer.data))
      invariant ReadQuoted(old(source.Rest()), quote, old(buffer.Content()), ents)
             == ReadQuoted(source.Rest(), quote, buffer.Content(), ents)
      decreases |source.Rest()|
    {
      ch := source.GetChar();
      if ch == None {
        return true, ch;
      }
      var c := ch.value;
      if c == quote {
        return true, ch;
      }
      var code := c as int;
      if c == '&' {
        var entity := GetEntityFrom(source, ents);
        if entity == None {
          return false, ch;
        }
        code := entity.value;
      }
      AddByteOrCharacter(buffer, code);
    }
  }

  /** The loop that reads an attribute value without quotes */
  method ScanUnquoted(source: Source, buffer: Buffer<char>, ents: string -> int) returns (ok: bool, ch: Option<char>)
    requires source.Valid() && buffer.Valid()
    modifies source`pos, buffer, buffer.data
    ensures source.Valid() && buffer.Valid() && (buffer.data == old(buffer.data) || fresh(buffer.data))
    ensures ReadUnquoted(old(source.Rest()), old(buffer.Content()), ents)
         == if ok then Scanned(buffer.Content(), ch, source.Rest()) else ScanError
  {
    while true
      invariant source.Valid() && buffer.Valid() && (buffer.data == old(buffer.data) || fresh(buffer.data))
      invariant ReadUnquoted(old(source.Rest()), old(buffer.Content()), ents)
             == ReadUnquoted(source.Rest(), buffer.Content(), ents)
      decreases |source.Rest()|
    {
      ch := source.GetChar();
      if ch == None {
        return true, ch;
      }
      var c := ch.value;
      if IsSpace(c) || c == '=' || c == '/' || c == '>' {
        return true, ch;
      }
      var code := c as int;
      if c == '&' {
        var entity := GetEntityFrom(source, ents);
        if entity == None {
          return false, ch;
        }
        code := entity.value;
      }
      AddByteOrCharacter(buffer, code);
    }
  }

  /** The loops that skip whitespace up to the next character */
  method SkipSpace(source: Source) returns (ch: Option<char>)
    requires source.Valid()
    modifies source`pos
    ensures source.Valid()
    ensures var g := NextNonSpace(old(source.Rest())); ch == CharOf(g) && source.Rest() == g.rest
  {
    ch := source.GetChar();
    while ch != None && IsSpace(ch.value)
      invariant source.Valid()
      invariant var g := NextNonSpace(old(source.Rest()));
                if ch != None && IsSpace(ch.value) then g == NextNonSpace(source.Rest())
                else ch == CharOf(g) && source.Rest() == g.rest
      decreases |source.Rest()|, ch.Some?
    {
      ch := source.GetChar();
    }
  }

  /** The loop over a name in quotes. It stores everything up to and including the closing quote. */
  method ScanQuotedName(source: Source, quote: char, buffer: Buffer<char>, ents: string -> int) returns (ok: bool, ch: Option<char>)
    requires source.Valid() && buffer.Valid()
    modifies source`pos, buffer, buffer.data
    ensures source.Valid() && buffer.Valid() && (buffer.data == old(buffer.data) || fresh(buffer.data))
    ensures ReadQuotedName(old(source.Rest()), quote, old(buffer.Content()), ents)
         == if ok then Scanned(buffer.Content(), ch, source.Rest()) else ScanError
  {
    while true
      invariant source.Valid() && buffer.Valid() && (buffer.data == old(buffer.data) || fresh(buffer.data))
      invariant ReadQuotedName(old(source.Rest()), quote, old(buffer.Content()), ents)
             == ReadQuotedName(source.Rest(), quote, buffer.Content(), ents)
      decreases |source.Rest()|
    {
      ch := source.GetChar();
      if ch == None {
        return true, ch;
      }
      var code := ch.value as int;
      if ch == Some('&') {
        var entity := GetEntityFrom(source, ents);
        if entity == None {
          return false, ch;
        }
        code := entity.value;
      }
      AddByteOrCharacter(buffer, code);
      if code == quote as int {
        return true, Some(quote);
      }
    }
  }

  /** Reads the value of an attribute, whose '=' has been read, into `value` */
  method ScanValue(source: Source, value: Buffer<char>, ents: string -> int, ghost name: string) returns (ok: bool, ch: Option<char>)
    requires source.Valid() && value.Valid()
    modifies source`pos, value, value.data
    ensures source.Valid() && value.Valid() && (value.data == old(value.data) || fresh(value.data))
    ensures ReadValue(name, old(source.Rest()), ents)
         == if ok then AttrDone(name, value.Content(), ch, source.Rest()) else AttrError
  {
    ch := SkipSpace(source);
    if ch == None {
      return false, ch;
    }
    value.Reset();
    if IsQuote(ch.value) {
      ok, ch := ScanQuoted(source, ch.value, value, ents);
    } else {
      value.Put(ch.value);
      assert value.Content() == [ch.value];
      ok, ch := ScanUnquoted(source, value, ents);
    }
  }

  /** The name of an attribute that starts with `c`, in quotes or not */
  function ReadName(c: char, s: string, ents: string -> int): Scanned {
    if IsQuote(c) then ReadQuotedName(s, c, [c], ents) else ReadAttrName(s, [c], ents)
  }

  lemma {:induction false} ReadAttrIs(c: char, s: string, attrs: seq<Attr>, ents: string -> int)
    ensures ReadAttr(c, s, attrs, ents) ==
              match ReadName(c, s, ents)
              case ScanError => AttrError
              case Scanned(name, ch, rest) =>
                var eq := AfterName(ch, rest);
                if GetAttr(attrs, name).Some? || CharOf(eq) != Some('=') then AttrError else ReadValue(name, eq.rest, ents)
  {
    hide ReadAttrName, ReadQuotedName, ReadValue, AfterName, GetAttr;
  }

  lemma {:induction false} AfterNameIs(ch: Option<char>, s: string)
    ensures if ch.Some? && IsSpace(ch.value) then AfterName(ch, s) == NextNonSpace(s)
            else CharOf(AfterName(ch, s)) == ch && AfterName(ch, s).rest == s
  {
    hide NextNonSpace;
  }

  /** Reads the name of an attribute. */
  method ScanName(source: Source, c: char, name: Buffer<char>, ents: string -> int) returns (ok: bool, ch: Option<char>)
    requires source.Valid() && name.Valid()
    modifies source`pos, name, name.data
    ensures source.Valid() && name.Valid() && (name.data == old(name.data) || fresh(name.data))
    ensures ReadName(c, old(source.Rest()), ents) == if ok then Scanned(name.Content(), ch, source.Rest()) else ScanError
  {
    hide ReadAttrName, ReadQuotedName;
    name.Reset();
    name.Put(c);
    assert name.Content() == [c];
    if IsQuote(c) {
      ok, ch := ScanQuotedName(source, c, name, ents);
    } else {
      ok, ch := ScanAttrName(source, name, ents);
    }
    if ok {
      name.Terminate('\0');
    }
  }

  /** Reads one attribute, whose name starts with `c`, and sets it in `node` */
  method ScanAttr(source: Source, c: char, node: Node, name: Buffer<char>, value: Buffer<char>, ents: string -> int)
    returns (ok: bool, ch: Option<char>)
    requires source.Valid() && name.Valid() && value.Valid() && name != value && name.data != value.data
    requires node.value.ElementValue?
    modifies source`pos, node`value, name, name.data, value, value.data
    ensures source.Valid() && name.Valid() && value.Valid() && name.data != value.data
    ensures (name.data == old(name.data) || fresh(name.data)) && (value.data == old(value.data) || fresh(value.data))
    ensures match ReadAttr(c, old(source.Rest()), old(node.value).attrs, ents)
            case AttrError => !ok
            case AttrDone(n, v, end, rest) =>
              ok && ch == end && source.Rest() == rest &&
              node.value == old(node.value).(attrs := SetAttr(old(node.value).attrs, n, Some(v)))
  {
    hide *;
    ghost var attrs := node.value.attrs;
    ReadAttrIs(c, source.Rest(), attrs, ents);
    ok, ch := ScanName(source, c, name, ents);
    if !ok {
      return;
    }
    name.Parts();
    var text := name.data[..name.used];
    var known := ElementGetAttr(node, Some(text));
    if known.Some? {
      return false, ch;
    }
    AfterNameIs(ch, source.Rest());
    if ch != None && IsSpace(ch.value) {
      ch := SkipSpace(source);
    }
    if ch != Some('=') {
      return false, ch;
    }
    ok, ch := ScanValue(source, value, ents, text);
    if ok {
      value.Terminate('\0');
      value.Parts();
      ElementSetAttr(node, Some(text), Some(value.data[..value.used]));
    }
  }

  /** `mxml_parse_element`: sets the attributes of `node` and returns what ended the tag, or
      nothing after an error */
  method ScanElement(source: Source, node: Node, ents: string -> int) returns (end: Option<char>)
    requires source.Valid() && node.value.ElementValue?
    modifies source`pos, node`value
    ensures source.Valid()
    ensures match ParseElement(old(source.Rest()), old(node.value).attrs, ents)
            case ParseError => end == None
            case Parsed(attrs, c, rest) =>
              end == Some(c) && source.Rest() == rest && node.value == old(node.value).(attrs := attrs)
  {
    hide ReadAttr, SetAttr;
    var name := new Buffer<char>();
    var value := new Buffer<char>();
    while true
      invariant source.Valid() && name.Valid() && value.Valid()
      invariant fresh(name) && fresh(value) && fresh(name.data) && fresh(value.data) && name.data != value.data
      invariant node.value.ElementValue? && node.value == old(node.value).(attrs := node.value.attrs)
      invariant ParseElement(old(source.Rest()), old(node.value).attrs, ents)
             == ParseElement(source.Rest(), node.value.attrs, ents)
      decreases |source.Rest()|
    {
      end := source.GetChar();
      if end == None {
        return;
      }
      if IsSpace(end.value) {
        continue;
      }
      if end == Some('/') || end == Some('?') {
        var quote := source.GetChar();
        if quote != Some('>') {
          end := None;
        }
        return;
      } else if end == Some('<') {
        return None;
      } else if end == Some('>') {
        return;
      }
      var ok;
      ok, end := ScanAttr(source, end.value, node, name, value, ents);
      if !ok {
        return None;
      }
      if end == Some('/') || end == Some('?') {
        var quote := source.GetChar();
        if quote != Some('>') {
          end := None;
        }
        return;
      } else if end == Some('>') {
        return;
      }
    }
  }

  // ----- tags -----

  /** The loop that collects the name of a tag */
  method ScanTagName(source: Source, buffer: Buffer<char>, ents: string -> int) returns (ok: bool, ch: Option<char>)
    requires source.Valid() && buffer.Valid() && buffer.Content() == []
    modifies source`pos, buffer, buffer.data
    ensures source.Valid() && buffer.Valid() && (buffer.data == old(buffer.data) || fresh(buffer.data))
    ensures ReadTagName(old(source.Rest()), [], ents)
         == if ok then Scanned(buffer.Content(), ch, source.Rest()) else ScanError
  {
    while true
      invariant source.Valid() && buffer.Valid() && (buffer.data == old(buffer.data) || fresh(buffer.data))
      invariant ReadTagName(old(source.Rest()), [], ents) == ReadTagName(source.Rest(), buffer.Content(), ents)
      decreases |source.Rest()|
    {
      ch := source.GetChar();
      if ch == None {
        return true, ch;
      }
      var c := ch.value;
      if IsSpace(c) || c == '>' || (c == '/' && buffer.used > 0) {
        return true, ch;
      } else if c == '<' {
        return false, ch;
      } else if c == '&' {
        var entity := GetEntityFrom(source, ents);
        if entity == None {
          return false, ch;
        }
        AddByteOrCharacter(buffer, entity.value);
      } else {
        AddByteOrCharacter(buffer, c as int);
        if StopsTagName(buffer.data[..buffer.used]) {
          return true, ch;
        }
      }
    }
  }

  /** The tests on the last characters that end the three kinds of markup */
  method EndsHere(buffer: Buffer<char>, kind: MarkupKind) returns (last: bool)
    requires buffer.Valid()
    ensures last == EndsMarkup(kind, buffer.Content())
  {
    var data, n := buffer.data, buffer.used as int;
    match kind {
      case Comment => return n > 4 && data[n - 3] != '-' && data[n - 2] == '-' && data[n - 1] == '-';
      case CData => return n >= 2 && data[n - 2] == ']' && data[n - 1] == ']';
      case Directive => return n > 0 && data[n - 1] == '?';
    }
  }

  /** The three loops that collect a comment, a CDATA section or a processing instruction */
  method ScanMarkup(source: Source, buffer: Buffer<char>, kind: MarkupKind) returns (ok: bool)
    requires source.Valid() && buffer.Valid()
    modifies source`pos, buffer, buffer.data
    ensures source.Valid() && buffer.Valid() && (buffer.data == old(buffer.data) || fresh(buffer.data))
    ensures ReadMarkup(old(source.Rest()), old(buffer.Content()), kind)
         == if ok then Scanned(buffer.Content(), Some('>'), source.Rest()) else ScanError
  {
    hide EndsMarkup;
    while true
      invariant source.Valid() && buffer.Valid() && (buffer.data == old(buffer.data) || fresh(buffer.data))
      invariant ReadMarkup(old(source.Rest()), old(buffer.Content()), kind)
             == ReadMarkup(source.Rest(), buffer.Content(), kind)
      decreases |source.Rest()|
    {
      var ch := source.GetChar();
      if ch == None {
        return false;
      }
      var last := EndsHere(buffer, kind);
      if ch == Some('>') && last {
        return true;
      }
      AddByteOrCharacter(buffer, ch.value as int);
    }
  }

  /** The loop that collects a declaration, from the character `first` that stopped its name on */
  method ScanDeclaration(source: Source, buffer: Buffer<char>, first: Option<char>, ents: string -> int) returns (ok: bool)
    requires source.Valid() && buffer.Valid()
    modifies source`pos, buffer, buffer.data
    ensures source.Valid() && buffer.Valid() && (buffer.data == old(buffer.data) || fresh(buffer.data))
    ensures ReadDeclaration(first, old(source.Rest()), old(buffer.Content()), ents)
         == if ok then Scanned(buffer.Content(), Some('>'), source.Rest()) else ScanError
  {
    var ch := first;
    while ch != Some('>')
      invariant source.Valid() && buffer.Valid() && (buffer.data == old(buffer.data) || fresh(buffer.data))
      invariant ReadDeclaration(first, old(source.Rest()), old(buffer.Content()), ents)
             == ReadDeclaration(ch, source.Rest(), buffer.Content(), ents)
      decreases |source.Rest()|
    {
      var code := if ch.Some? then ch.value as int else -1;
      if ch == Some('&') {
        var entity := GetEntityFrom(source, ents);
        if entity == None {
          return false;
        }
        code := entity.value;
      }
      AddByteOrCharacter(buffer, code);
      ch := source.GetChar();
      if ch == None {
        return false;
      }
    }
    return true;
  }

  /** The loop that skips the rest of a close tag */
  method SkipCloseTag(source: Source, first: Option<char>)
    requires source.Valid()
    modifies source`pos
    ensures source.Valid() && source.Rest() == SkipToClose(first, old(source.Rest()))
  {
    var ch := first;
    while ch != Some('>') && ch != None
      invariant source.Valid()
      invariant SkipToClose(first, old(source.Rest())) == SkipToClose(ch, source.Rest())
      decreases |source.Rest()|, ch.Some?
    {
      ch := source.GetChar();
    }
  }
}
