/** The tags that the printer writes are read back by the parser as what they were. */
module TagProofs {
  import opened Options
  import opened Chars
  import opened Numbers
  import opened Trees
  import opened Reader
  import opened Writer
  import opened Canonical

  lemma {:induction false} GetCOf(c: char, rest: string)
    requires GoodChar(c)
    ensures GetC([c] + rest) == Got(c, rest)
    ensures AddChar(c as int) == [c]
  {
    assert ([c] + rest)[1..] == rest;
  }

  // ----- entities -----

  lemma {:induction false} ReadEntityNameOf(n1: string, n2: string, rest: string)
    requires |n1| + |n2| <= 63
    requires forall i :: 0 <= i < |n2| ==> IsAlnum(n2[i])
    ensures ReadEntityName(n2 + ";" + rest, n1) == EntityName(n1 + n2, Some(';'), rest)
    decreases |n2|
  {
    if n2 == [] {
      GetCOf(';', rest);
      assert n2 + ";" + rest == [';'] + rest;
      assert n1 + n2 == n1;
    } else {
      var tail := n2[1..] + ";" + rest;
      assert n2 + ";" + rest == [n2[0]] + tail;
      GetCOf(n2[0], tail);
      ReadEntityNameOf(n1 + [n2[0]], n2[1..], rest);
      assert n1 + [n2[0]] + n2[1..] == n1 + n2;
    }
  }

  /** The entity written for `c` is read as `c`. */
  lemma {:induction false} GetEntityOf(c: char, rest: string, ents: string -> int)
    requires StandardEntities(ents) && NamedEntity(c).Some?
    ensures EscapeChar(c) + rest == ['&'] + (NamedEntity(c).value + ";" + rest)
    ensures GetEntity(NamedEntity(c).value + ";" + rest, ents) == Entity(c as int, rest)
  {
    hide ReadEntityName, NamedEntity, StandardEntities, IsAlnum, BadChar;
    var name := NamedEntity(c).value;
    EntityNames(c, ents);
    ReadEntityNameOf([], name, rest);
    assert [] + name == name;
    assert "&" + name + ";" + rest == ['&'] + (name + ";" + rest);
  }

  lemma {:induction false} EntityNames(c: char, ents: string -> int)
    requires StandardEntities(ents) && NamedEntity(c).Some?
    ensures var name := NamedEntity(c).value;
            |name| <= 63 && name != [] && name[0] != '#' && (forall i :: 0 <= i < |name| ==> IsAlnum(name[i])) &&
            ents(name) == c as int && !BadChar(c as int)
  {
  }

  lemma {:induction false} EscapeNil(tail: string)
    ensures Escape([]) + tail == tail
  {
  }

  lemma {:induction false} EscapeCons(s: string, tail: string)
    requires s != []
    ensures Escape(s) + tail == EscapeChar(s[0]) + (Escape(s[1..]) + tail)
  {
    assert EscapeChar(s[0]) + Escape(s[1..]) + tail == EscapeChar(s[0]) + (Escape(s[1..]) + tail);
  }

  // ----- attributes -----

  lemma {:induction false} ReadQuotedOf(v: string, v0: string, rest: string, ents: string -> int)
    requires StandardEntities(ents) && Good(v)
    ensures ReadQuoted(Escape(v) + "\"" + rest, '\"', v0, ents) == Scanned(v0 + v, Some('\"'), rest)
    decreases |v|
  {
    if v == [] {
      assert Escape(v) + "\"" + rest == ['\"'] + rest;
      GetCOf('\"', rest);
      assert v0 + v == v0;
    } else {
      var c := v[0];
      var tail := Escape(v[1..]) + "\"" + rest;
      assert Escape(v) + "\"" + rest == EscapeChar(c) + tail;
      assert v0 + [c] + v[1..] == v0 + v;
      ReadQuotedOf(v[1..], v0 + [c], rest, ents);
      GetCOf(c, tail);
      if NamedEntity(c).Some? {
        GetEntityOf(c, tail, ents);
        GetCOf('&', NamedEntity(c).value + ";" + tail);
      }
    }
  }

  lemma {:induction false} ReadAttrNameOf(n1: string, n2: string, rest: string, ents: string -> int)
    requires Good(n2) && NoSpace(n2) && Lacks(n2, "=/>?&")
    ensures ReadAttrName(n2 + "=" + rest, n1, ents) == Scanned(n1 + n2, Some('='), rest)
    decreases |n2|
  {
    if n2 == [] {
      assert n2 + "=" + rest == ['='] + rest;
      GetCOf('=', rest);
      assert n1 + n2 == n1;
    } else {
      var tail := n2[1..] + "=" + rest;
      assert n2 + "=" + rest == [n2[0]] + tail;
      GetCOf(n2[0], tail);
      assert n2[0] !in "=/>?&";
      ReadAttrNameOf(n1 + [n2[0]], n2[1..], rest, ents);
      assert n1 + [n2[0]] + n2[1..] == n1 + n2;
    }
  }

  lemma {:induction false} FindAttrAbsent(attrs: seq<Attr>, name: string)
    requires forall i :: 0 <= i < |attrs| ==> attrs[i].name != name
    ensures FindAttr(attrs, name) == |attrs|
  {
  }

  lemma {:induction false} ReadValueOf(name: string, v: string, rest: string, ents: string -> int)
    requires StandardEntities(ents) && Good(v)
    ensures ReadValue(name, "\"" + Escape(v) + "\"" + rest, ents) == AttrDone(name, v, Some('\"'), rest)
  {
    hide Escape, ReadQuoted, AddChar, GetC, Good, StandardEntities;
    var tail := Escape(v) + "\"" + rest;
    assert "\"" + Escape(v) + "\"" + rest == ['\"'] + tail;
    GetCOf('\"', tail);
    ReadQuotedOf(v, [], rest, ents);
    assert [] + v == v;
  }

  /** The text of an attribute after the first character of its name */
  function AttrTail(a: Attr): string
    requires AttrOk(a)
  {
    a.name[1..] + "=" + ("\"" + Escape(a.value.value) + "\"")
  }

  lemma {:induction false} Regroup(n: string, eq: string, v: string, q: string, rest: string)
    requires n != []
    ensures n + (eq + v + q) + rest == [n[0]] + (n[1..] + eq + (v + q) + rest)
    ensures n[1..] + eq + (v + q) + rest == n[1..] + eq + (v + q + rest)
  {
  }

  lemma {:induction false} AttrTextSplit(a: Attr, rest: string)
    requires AttrOk(a)
    ensures AttrText(a) + rest == [a.name[0]] + (AttrTail(a) + rest)
    ensures AttrTail(a) + rest == a.name[1..] + "=" + ("\"" + Escape(a.value.value) + "\"" + rest)
  {
    hide Escape, Good, NoSpace, Lacks, UpTo;
    var v := "\"" + Escape(a.value.value);
    assert "=\"" + Escape(a.value.value) + "\"" == "=" + v + "\"";
    Regroup(a.name, "=", v, "\"", rest);
  }

  /** One written attribute is read as itself, up to its closing quote. */
  lemma {:induction false} ReadAttrOf(a: Attr, rest: string, attrs: seq<Attr>, ents: string -> int)
    requires StandardEntities(ents) && AttrOk(a)
    requires forall i :: 0 <= i < |attrs| ==> attrs[i].name != a.name
    ensures ReadAttr(a.name[0], AttrTail(a) + rest, attrs, ents)
         == AttrDone(a.name, a.value.value, Some('\"'), rest)
  {
    var quoted := "\"" + Escape(a.value.value) + "\"" + rest;
    AttrTextSplit(a, rest);
    assert Good(a.name[1..]);
    ReadAttrNameOf([a.name[0]], a.name[1..], quoted, ents);
    assert [a.name[0]] + a.name[1..] == a.name;
    FindAttrAbsent(attrs, a.name);
    ReadValueOf(a.name, a.value.value, rest, ents);
  }

  lemma {:induction false} ParseSkipsSpace(c: char, s: string, attrs: seq<Attr>, ents: string -> int)
    requires IsSpace(c)
    ensures ParseElement([c] + s, attrs, ents) == ParseElement(s, attrs, ents)
  {
    GetCOf(c, s);
  }

  /** The ends of an open tag: ">" or " />" */
  predicate IsEnd(end: string) {
    end == ">" || end == " />"
  }

  function EndChar(end: string): char {
    if end == ">" then '>' else '/'
  }

  lemma {:induction false} ParseEnd(end: string, rest: string, attrs: seq<Attr>, ents: string -> int)
    requires IsEnd(end)
    ensures ParseElement(end + rest, attrs, ents) == Parsed(attrs, EndChar(end), rest)
  {
    hide ParseElement, GetC, AddChar;
    if end == ">" {
      ParseGreater(rest, attrs, ents);
    } else {
      assert end + rest == [' '] + ("/>" + rest);
      ParseSkipsSpace(' ', "/>" + rest, attrs, ents);
      ParseSlash(rest, attrs, ents);
    }
  }

  lemma {:induction false} ParseGreater(rest: string, attrs: seq<Attr>, ents: string -> int)
    ensures ParseElement(">" + rest, attrs, ents) == Parsed(attrs, '>', rest)
  {
    hide AddChar, ReadAttr;
    GetCOf('>', rest);
  }

  lemma {:induction false} ParseSlash(rest: string, attrs: seq<Attr>, ents: string -> int)
    ensures ParseElement("/>" + rest, attrs, ents) == Parsed(attrs, '/', rest)
  {
    hide AddChar, ReadAttr;
    assert "/>" + rest == ['/'] + (['>'] + rest);
    GetCOf('/', ['>'] + rest);
    GetCOf('>', rest);
  }

  lemma {:induction false} ParseOneAttr(a: Attr, more: string, attrs: seq<Attr>, ents: string -> int)
    requires StandardEntities(ents) && AttrOk(a)
    requires forall i :: 0 <= i < |attrs| ==> attrs[i].name != a.name
    ensures ParseElement(AttrText(a) + more, attrs, ents) == ParseElement(more, attrs + [a], ents)
  {
    AttrTextSplit(a, more);
    ReadAttrOf(a, more, attrs, ents);
    GetCOf(a.name[0], AttrTail(a) + more);
    assert a.name[0] !in "/?<>";
    FindAttrAbsent(attrs, a.name);
    assert Attr(a.name, Some(a.value.value)) == a;
  }

  lemma {:induction false} Regroup3(sep: char, a: string, b: string, more: string)
    ensures [sep] + a + b + more == [sep] + (a + (b + more))
  {
  }

  lemma {:induction false} WriteAttrsCons(attrs: seq<Attr>, wrap: int, col: int, more: string) returns (sep: char, col': int)
    requires attrs != []
    ensures IsSpace(sep)
    ensures WriteAttrs(attrs, wrap, col).text + more
         == [sep] + (AttrText(attrs[0]) + (WriteAttrs(attrs[1..], wrap, col').text + more))
  {
    var w := WriteSeparator(col + AttrWidth(attrs[0]) > wrap, col);
    sep := if col + AttrWidth(attrs[0]) > wrap then '\n' else ' ';
    col' := w.col + AttrWidth(attrs[0]);
    Regroup3(sep, AttrText(attrs[0]), WriteAttrs(attrs[1..], wrap, col').text, more);
  }

  lemma {:induction false} NewName(attrs0: seq<Attr>, attrs: seq<Attr>, all: seq<Attr>)
    requires all == attrs0 + attrs && AttrsOk(all) && attrs != []
    ensures AttrOk(attrs[0]) && forall i :: 0 <= i < |attrs0| ==> attrs0[i].name != attrs[0].name
  {
    hide AttrOk;
    assert all[|attrs0|] == attrs[0];
    forall i | 0 <= i < |attrs0|
      ensures attrs0[i].name != attrs[0].name
    {
      assert all[i] == attrs0[i];
    }
  }

  /** All attributes of a tag, with the separators that the printer puts before them */
  lemma {:induction false} ParseAttrs(attrs: seq<Attr>, attrs0: seq<Attr>, all: seq<Attr>, wrap: int, col: int,
                                      end: string, rest: string, s: string, ents: string -> int)
    requires StandardEntities(ents) && IsEnd(end)
    requires all == attrs0 + attrs && AttrsOk(all)
    requires s == WriteAttrs(attrs, wrap, col).text + (end + rest)
    ensures ParseElement(s, attrs0, ents) == Parsed(all, EndChar(end), rest)
    decreases |attrs|
  {
    hide ParseElement, ReadAttr, AttrsOk, AttrOk, AttrText, AttrWidth, StandardEntities, IsEnd, EndChar, WriteSeparator;
    if attrs == [] {
      assert s == end + rest;
      assert all == attrs0;
      ParseEnd(end, rest, attrs0, ents);
    } else {
      var a := attrs[0];
      NewName(attrs0, attrs, all);
      var sep, col' := WriteAttrsCons(attrs, wrap, col, end + rest);
      var more := WriteAttrs(attrs[1..], wrap, col').text + (end + rest);
      ParseSkipsSpace(sep, AttrText(a) + more, attrs0, ents);
      ParseOneAttr(a, more, attrs0, ents);
      ParseAttrs(attrs[1..], attrs0 + [a], all, wrap, col', end, rest, more, ents);
    }
  }

  // ----- tag names -----

  predicate StopsName(c: char) {
    IsSpace(c) || c == '>' || c == '/'
  }

  /** A character that ends the name */
  lemma {:induction false} ReadStop(name: string, stop: char, rest: string, ents: string -> int)
    requires GoodChar(stop) && StopsName(stop) && (stop == '/' ==> name != [])
    ensures ReadTagName([stop] + rest, name, ents) == Scanned(name, Some(stop), rest)
  {
    GetCOf(stop, rest);
  }

  /** Characters of the name that are written as they are */
  lemma {:induction false} ReadRaw(n1: string, n2: string, name: string, more: string, ents: string -> int)
    requires name == n1 + n2
    requires Good(n2) && NoSpace(n2) && Lacks(n2, "<>&/")
    requires forall i :: |n1| < i <= |name| ==> !StopsTagName(name[..i])
    ensures ReadTagName(n2 + more, n1, ents) == ReadTagName(more, name, ents)
    decreases |n2|
  {
    hide StopsTagName, GetEntity;
    if n2 == [] {
      assert n2 + more == more;
      assert n1 == name;
    } else {
      var tail := n2[1..] + more;
      assert n2 + more == [n2[0]] + tail;
      GetCOf(n2[0], tail);
      assert n2[0] !in "<>&/";
      assert name[..|n1| + 1] == n1 + [n2[0]];
      ReadRaw(n1 + [n2[0]], n2[1..], name, more, ents);
    }
  }

  /** Characters of the name that the printer escapes: in close tags, and in quotes */
  lemma {:induction false} ReadEscaped(n1: string, n2: string, more: string, ents: string -> int)
    requires StandardEntities(ents) && n1 != [] && n1[0] !in "?!"
    requires Good(n2) && NoSpace(n2) && '/' !in n2
    ensures ReadTagName(Escape(n2) + more, n1, ents) == ReadTagName(more, n1 + n2, ents)
    decreases |n2|
  {
    hide *;
    if n2 == [] {
      EscapeNil(more);
      assert n1 + n2 == n1;
    } else {
      var c := n2[0];
      NameParts(n2);
      EscapeCons(n2, more);
      assert (n1 + [c])[0] == n1[0];
      assert n1 + [c] + n2[1..] == n1 + n2;
      ReadEscapedChar(n1, c, Escape(n2[1..]) + more, ents);
      ReadEscaped(n1 + [c], n2[1..], more, ents);
    }
  }

  lemma {:induction false} NameParts(n: string)
    requires Good(n) && NoSpace(n) && '/' !in n && n != []
    ensures GoodChar(n[0]) && !IsSpace(n[0]) && n[0] != '/' && Good(n[1..]) && NoSpace(n[1..]) && '/' !in n[1..]
  {
  }

  lemma {:induction false} ReadEscapedChar(n: string, c: char, more: string, ents: string -> int)
    requires StandardEntities(ents) && n != [] && n[0] !in "?!" && GoodChar(c) && !IsSpace(c) && c != '/'
    ensures ReadTagName(EscapeChar(c) + more, n, ents) == ReadTagName(more, n + [c], ents)
  {
    hide GetEntity, StandardEntities;
    assert (n + [c])[0] == n[0];
    GetCOf(c, more);
    if NamedEntity(c).Some? {
      GetEntityOf(c, more, ents);
      GetCOf('&', NamedEntity(c).value + ";" + more);
    }
  }

  // ----- whole tags -----

  /** Which branch a tag takes is decided by the first character of what was collected, and by
      whether that is a whole comment or CDATA prefix. */
  lemma {:induction false} TagBranch(st: State, s: string, buf: string, ch: Option<char>, rest: string, env: Env)
    requires ReadTagName(s, [], env.ents) == Scanned(buf, ch, rest)
    ensures buf == [] || buf[0] !in "?!/" ==> Tag(st, s, env) == OpenTag(st, buf, ch, rest, env)
    ensures buf != [] && buf[0] == '/' ==> Tag(st, s, env) == CloseTag(st, buf, ch, rest, env.cb)
    ensures buf != [] && buf[0] == '?' ==> Tag(st, s, env) == AddMarkup(st, ReadMarkup(rest, buf, Directive), true, env.cb)
    ensures buf == "!--" ==> Tag(st, s, env) == AddMarkup(st, ReadMarkup(rest, buf, Comment), false, env.cb)
    ensures buf == "![CDATA[" ==> Tag(st, s, env) == AddMarkup(st, ReadMarkup(rest, buf, CData), false, env.cb)
    ensures buf != [] && buf[0] == '!' && !StopsTagName(buf) ==>
              Tag(st, s, env) == AddMarkup(st, ReadDeclaration(ch, rest, buf, env.ents), true, env.cb)
  {
    hide ReadTagName, ReadMarkup, ReadDeclaration;
    var open := "!--";
    var cdata := "![CDATA[";
    assert open[0] == '!' && cdata[0] == '!' && open[1] != cdata[1];
  }

  /** State after an open tag: a child without children, or a new parent */
  function Opened(st: State, name: string, attrs: seq<Attr>, end: string, cb: Callback): State {
    if end == ">" then Push(st, name, attrs, cb) else AddNode(st, Element(name, attrs, []))
  }

  lemma {:induction false} NotMarkupStart(name: string)
    requires '/' !in name && !IsMarkup(name)
    ensures forall i :: 0 < i <= |name| ==> !StopsTagName(name[..i])
    ensures !IsVerbatim(name) && (name == [] || name[0] !in "?!/")
  {
    forall i | 0 < i <= |name|
      ensures !StopsTagName(name[..i])
    {
      assert name[..i][0] == name[0];
    }
  }

  lemma {:induction false} UpToQuote(s: string, quote: char, rest: string)
    requires quote !in s
    ensures UpTo(s + [quote] + rest, quote) == s
  {
    if s == [] {
      assert s + [quote] + rest == [quote] + rest;
    } else {
      assert (s + [quote] + rest)[0] == s[0] && (s + [quote] + rest)[1..] == s[1..] + [quote] + rest;
      UpToQuote(s[1..], quote, rest);
    }
  }

  /** A name in quotes is written up to its second quote, which is added if there is none; what is between
      them is escaped. Other names are written as they are. */
  lemma {:induction false} NameLook(name: string, q: char, inner: string, tail: string)
    requires (q == '\'' || q == '\"') && q !in inner
    ensures WriteName([q] + inner) == [q] + Escape(inner) + [q]
    ensures WriteName([q] + inner + [q] + tail) == [q] + Escape(inner) + [q]
    ensures name == [] || name[0] !in "\'\"" ==> WriteName(name) == name
  {
    hide Escape;
    UpToWhole(inner, q);
    UpToQuote(inner, q, tail);
    assert ([q] + inner)[1..] == inner && ([q] + inner + [q] + tail)[1..] == inner + [q] + tail;
  }

  lemma {:induction false} UpToWhole(s: string, quote: char)
    requires quote !in s
    ensures UpTo(s, quote) == s
  {
    if s != [] {
      UpToWhole(s[1..], quote);
    }
  }

  /** What is between the quotes of a name in quotes */
  lemma {:induction false} QuotedParts(name: string) returns (inner: string)
    requires ElementNameOk(name) && name != [] && IsQuote(name[0])
    ensures WriteName(name) == [name[0]] + Escape(inner) + [name[0]] && name == [name[0]] + inner + [name[0]]
    ensures Good(inner) && NoSpace(inner) && '/' !in inner && IsQuote(name[0]) && name[0] !in "?!"
  {
    hide Escape, IsMarkup;
    var q := name[0];
    inner := name[1..|name| - 1];
    assert name[1..] == inner + [q] + [];
    UpToQuote(inner, q, []);
    assert forall i :: 0 <= i < |inner| ==> inner[i] == name[i + 1];
  }

  lemma {:induction false} PlainParts(name: string)
    requires ElementNameOk(name) && !(name != [] && IsQuote(name[0]))
    ensures WriteName(name) == name && Good(name) && NoSpace(name) && Lacks(name, "<>&/")
  {
    hide IsMarkup, Good, NoSpace;
    LacksSlash(name);
  }

  /** The name of an open tag is read back as far as what follows it. */
  lemma {:induction false} ReadWritten(name: string, more: string, ents: string -> int)
    requires StandardEntities(ents) && ElementNameOk(name)
    ensures ReadTagName(WriteName(name) + more, [], ents) == ReadTagName(more, name, ents)
  {
    hide *;
    if name != [] && IsQuote(name[0]) {
      var q := name[0];
      var inner := QuotedParts(name);
      assert WriteName(name) + more == [q] + (Escape(inner) + ([q] + more));
      ReadQuote(q, [], Escape(inner) + ([q] + more), ents);
      assert [] + [q] == [q];
      ReadEscaped([q], inner, [q] + more, ents);
      ReadQuote(q, [q] + inner, more, ents);
    } else {
      PlainParts(name);
      OkNoMarkup(name);
      NotMarkupStart(name);
      assert [] + name == name;
      ReadRaw([], name, name, more, ents);
    }
  }

  lemma {:induction false} OkNoMarkup(name: string)
    requires ElementNameOk(name)
    ensures '/' !in name && !IsMarkup(name)
  {
  }

  lemma {:induction false} LacksSlash(name: string)
    requires Lacks(name, "<>&") && '/' !in name
    ensures Lacks(name, "<>&/")
  {
    forall i | 0 <= i < |name|
      ensures name[i] !in "<>&/"
    {
      assert name[i] !in "<>&" && name[i] != '/';
    }
  }

  lemma {:induction false} ReadQuote(q: char, buf: string, more: string, ents: string -> int)
    requires IsQuote(q) && (buf == [] || buf[0] == q)
    ensures ReadTagName([q] + more, buf, ents) == ReadTagName(more, buf + [q], ents)
  {
    GetCOf(q, more);
    assert (buf + [q])[0] == q;
  }

  /** What follows the name in a written open tag */
  function OpenTail(name: string, attrs: seq<Attr>, wrap: int, col: int, end: string, rest: string): string {
    WriteAttrs(attrs, wrap, col + |name| + 1).text + (end + rest)
  }

  lemma {:induction false} OpenTailStart(name: string, attrs: seq<Attr>, wrap: int, col: int, end: string, rest: string)
    requires IsEnd(end)
    ensures var tail := OpenTail(name, attrs, wrap, col, end, rest);
            tail != [] && GoodChar(tail[0]) &&
            (IsSpace(tail[0]) || (tail[0] == '>' && attrs == [] && end == ">" && tail == [tail[0]] + rest))
  {
    if attrs != [] {
      var _, _ := WriteAttrsCons(attrs, wrap, col + |name| + 1, end + rest);
    } else {
      assert OpenTail(name, attrs, wrap, col, end, rest) == end + rest;
    }
  }

  lemma {:induction false} OpenTextSplit(name: string, attrs: seq<Attr>, wrap: int, col: int, end: string, rest: string)
    requires !IsMarkup(name)
    ensures WriteOpen(name, attrs, wrap, col).text + (end + rest)
         == ['<'] + (WriteName(name) + OpenTail(name, attrs, wrap, col, end, rest))
  {
    assert !IsVerbatim(name);
  }

  lemma {:induction false} ReadOpenName(name: string, tail: string, ents: string -> int)
    requires StandardEntities(ents) && ElementNameOk(name)
    requires tail != [] && GoodChar(tail[0]) && (IsSpace(tail[0]) || tail[0] == '>')
    ensures ReadTagName(WriteName(name) + tail, [], ents) == Scanned(name, Some(tail[0]), tail[1..])
  {
    hide ReadTagName, ElementNameOk;
    ReadWritten(name, tail, ents);
    assert tail == [tail[0]] + tail[1..];
    ReadStop(name, tail[0], tail[1..], ents);
  }

  lemma {:induction false} OpenTagOf(st: State, name: string, attrs: seq<Attr>, wrap: int, col: int, end: string, rest: string, env: Env)
    requires StandardEntities(env.ents) && ElementNameOk(name) && AttrsOk(attrs) && IsEnd(end)
    ensures Tag(st, WriteName(name) + OpenTail(name, attrs, wrap, col, end, rest), env)
         == Running(Opened(st, name, attrs, end, env.cb), rest)
  {
    hide ParseElement, ReadTagName, WriteAttrs, WriteName;
    var tail := OpenTail(name, attrs, wrap, col, end, rest);
    OpenTailStart(name, attrs, wrap, col, end, rest);
    ReadOpenName(name, tail, env.ents);
    NotMarkupStart(name);
    TagBranch(st, WriteName(name) + tail, name, Some(tail[0]), tail[1..], env);
    if IsSpace(tail[0]) {
      ParseAttrs(attrs, [], attrs, wrap, col + |name| + 1, end, rest, tail, env.ents);
      ParseDropsSpace(tail, [], env.ents);
    } else {
      assert tail[1..] == rest;
    }
  }

  lemma {:induction false} ParseDropsSpace(s: string, attrs: seq<Attr>, ents: string -> int)
    requires s != [] && IsSpace(s[0])
    ensures ParseElement(s[1..], attrs, ents) == ParseElement(s, attrs, ents)
  {
    assert s == [s[0]] + s[1..];
    ParseSkipsSpace(s[0], s[1..], attrs, ents);
  }

  lemma {:induction false} CloseTagOf(st: State, name: string, rest: string, env: Env)
    requires StandardEntities(env.ents) && ElementNameOk(name)
    requires st.stack != [] && st.stack[|st.stack| - 1].name == name
    ensures Tag(st, "/" + Escape(name) + ">" + rest, env) == Running(Pop(st, env.cb), rest)
  {
    hide *;
    var text, buf := "/" + Escape(name) + ">" + rest, "/" + name;
    ReadCloseTagName(name, rest, env.ents);
    assert buf[0] == '/' && buf[1..] == name;
    TagBranch(st, text, buf, Some('>'), rest, env);
    ClosesTag(st, name, buf, rest, env.cb);
  }

  lemma {:induction false} ClosesTag(st: State, name: string, buf: string, rest: string, cb: Callback)
    requires st.stack != [] && st.stack[|st.stack| - 1].name == name && buf != [] && buf[1..] == name
    ensures CloseTag(st, buf, Some('>'), rest, cb) == Running(Pop(st, cb), rest)
  {
    hide Pop;
  }

  lemma {:induction false} ReadCloseTagName(name: string, rest: string, ents: string -> int)
    requires StandardEntities(ents) && ElementNameOk(name)
    ensures ReadTagName("/" + Escape(name) + ">" + rest, [], ents) == Scanned("/" + name, Some('>'), rest)
  {
    hide Escape, IsMarkup, ReadTagName, StandardEntities;
    var tail := Escape(name) + (['>'] + rest);
    assert "/" + Escape(name) + ">" + rest == ['/'] + tail;
    ReadSlash(tail, ents);
    ReadEscaped("/", name, ['>'] + rest, ents);
    ReadStop("/" + name, '>', rest, ents);
  }

  lemma {:induction false} ReadSlash(more: string, ents: string -> int)
    ensures ReadTagName(['/'] + more, [], ents) == ReadTagName(more, "/", ents)
  {
    GetCOf('/', more);
    assert [] + ['/'] == "/";
  }

  // ----- markup -----

  lemma {:induction false} ReadTagNameStops(n1: string, n2: string, name: string, rest: string, ents: string -> int)
    requires n2 != [] && Good(n2) && NoSpace(n2) && Lacks(n2, "<>&/")
    requires name == n1 + n2 && StopsTagName(name)
    requires forall i :: |n1| < i < |name| ==> !StopsTagName(name[..i])
    ensures ReadTagName(n2 + rest, n1, ents) == Scanned(name, Some(name[|name| - 1]), rest)
    decreases |n2|
  {
    hide StopsTagName, GetEntity;
    var tail := n2[1..] + rest;
    assert n2 + rest == [n2[0]] + tail;
    GetCOf(n2[0], tail);
    assert n2[0] !in "<>&/";
    if |n2| == 1 {
      assert name == n1 + [n2[0]];
      assert tail == rest;
    } else {
      assert name[..|n1| + 1] == n1 + [n2[0]];
      ReadTagNameStops(n1 + [n2[0]], n2[1..], name, rest, ents);
    }
  }

  lemma {:induction false} ReadMarkupOf(n1: string, n2: string, name: string, kind: MarkupKind, rest: string)
    requires name == n1 + n2 && Good(n2) && EndsMarkup(kind, name)
    requires forall i :: |n1| <= i < |name| && name[i] == '>' ==> !EndsMarkup(kind, name[..i])
    ensures ReadMarkup(n2 + ">" + rest, n1, kind) == Scanned(name, Some('>'), rest)
    decreases |n2|
  {
    if n2 == [] {
      assert n2 + ">" + rest == ['>'] + rest;
      GetCOf('>', rest);
      assert n1 == name;
    } else {
      var tail := n2[1..] + ">" + rest;
      assert n2 + ">" + rest == [n2[0]] + tail;
      GetCOf(n2[0], tail);
      assert name[|n1|] == n2[0] && name[..|n1|] == n1;
      ReadMarkupOf(n1 + [n2[0]], n2[1..], name, kind, rest);
    }
  }

  lemma {:induction false} PrefixStops(kind: MarkupKind)
    ensures Good(Prefix(kind)) && NoSpace(Prefix(kind)) && Lacks(Prefix(kind), "<>&/")
    ensures StopsTagName(Prefix(kind)) && Prefix(kind) != []
    ensures forall i :: 0 < i < |Prefix(kind)| ==> !StopsTagName(Prefix(kind)[..i])
  {
    var p := Prefix(kind);
    forall i | 0 < i < |p|
      ensures !StopsTagName(p[..i])
    {
      assert p[..i][0] == p[0] == '!';
      if i > 1 {
        assert p[..i][1] == p[1];
      }
    }
  }

  function MayOpen(name: string): bool {
    VerbatimOk(Directive, name) || DeclarationOk(name)
  }

  function Marked(st: State, name: string, cb: Callback): State {
    if MayOpen(name) && st.stack == [] then Push(st, name, [], cb) else AddNode(st, Element(name, [], []))
  }

  lemma {:induction false} ReadPrefix(kind: MarkupKind, tail: string, ents: string -> int)
    ensures var p := Prefix(kind); ReadTagName(p + tail, [], ents) == Scanned(p, Some(p[|p| - 1]), tail)
  {
    hide ReadTagName;
    PrefixStops(kind);
    ReadTagNameStops([], Prefix(kind), Prefix(kind), tail, ents);
  }

  lemma {:induction false} ReadVerbatim(kind: MarkupKind, name: string, body: string, rest: string)
    requires VerbatimOk(kind, name) && name == Prefix(kind) + body
    ensures ReadMarkup(body + ">" + rest, Prefix(kind), kind) == Scanned(name, Some('>'), rest)
  {
    hide ReadMarkup, EndsMarkup;
    var p := Prefix(kind);
    assert forall i :: 0 <= i < |body| ==> body[i] == name[|p| + i];
    ReadMarkupOf(p, body, name, kind, rest);
  }

  lemma {:induction false} VerbatimTagOf(st: State, name: string, kind: MarkupKind, rest: string, env: Env)
    requires VerbatimOk(kind, name)
    ensures Tag(st, name + ">" + rest, env) == Running(Marked(st, name, env.cb), rest)
  {
    hide ReadTagName, ReadMarkup;
    var p := Prefix(kind);
    var body := name[|p|..];
    assert name == p + body;
    var tail := body + ">" + rest;
    var text := name + ">" + rest;
    assert text == p + tail;
    VerbatimKind(kind, name);
    ReadVerbatim(kind, name, body, rest);
    ReadPrefix(kind, tail, env.ents);
    PrefixStops(kind);
    TagBranch(st, text, p, Some(p[|p| - 1]), tail, env);
  }

  /** The prefixes tell the kinds of markup apart. */
  lemma {:induction false} VerbatimKind(kind: MarkupKind, name: string)
    requires VerbatimOk(kind, name)
    ensures MayOpen(name) <==> kind == Directive
    ensures IsMarkup(name)
  {
    assert name[0] == Prefix(kind)[0];
  }

  lemma {:induction false} GoodParts(z: string)
    requires Good(z) && z != []
    ensures GoodChar(z[0]) && Good(z[1..])
  {
  }

  lemma {:induction false} DeclarationStep(c: char, s: string, buf: string, ents: string -> int)
    ensures ReadDeclaration(Some(c), s, buf, ents) ==
              if c == '>' then Scanned(buf, Some(c), s)
              else match (if c == '&' then GetEntity(s, ents) else Entity(c as int, s))
                   case NoEntity => ScanError
                   case Entity(code, rest) =>
                     match GetC(rest)
                     case Eof(_) => ScanError
                     case Got(c', rest') => ReadDeclaration(Some(c'), rest', buf + AddChar(code), ents)
  {
  }

  /** The next character of a declaration: one of `z`, or the '>' behind it */
  lemma {:induction false} NextOf(z: string, rest: string)
    requires Good(z)
    ensures GetC(z + ">" + rest) == if z == [] then Got('>', rest) else Got(z[0], z[1..] + ">" + rest)
  {
    if z == [] {
      assert z + ">" + rest == ['>'] + rest;
      GetCOf('>', rest);
    } else {
      assert z + ">" + rest == [z[0]] + (z[1..] + ">" + rest);
      GetCOf(z[0], z[1..] + ">" + rest);
    }
  }

  lemma {:induction false} CharItself(c: char)
    requires GoodChar(c)
    ensures AddChar(c as int) == [c]
  {
    GetCOf(c, []);
  }

  lemma {:induction false} ReadDeclarationOf(c: char, n1: string, n2: string, rest: string, ents: string -> int)
    requires Good([c] + n2) && Lacks([c] + n2, ">&")
    ensures ReadDeclaration(Some(c), n2 + ">" + rest, n1, ents) == Scanned(n1 + [c] + n2, Some('>'), rest)
    decreases |n2|
  {
    hide *;
    DeclarationParts(c, n2);
    DeclarationStep(c, n2 + ">" + rest, n1, ents);
    CharItself(c);
    NextOf(n2, rest);
    if n2 == [] {
      DeclarationStep('>', rest, n1 + [c], ents);
      assert n1 + [c] + n2 == n1 + [c];
    } else {
      assert [n2[0]] + n2[1..] == n2;
      ReadDeclarationOf(n2[0], n1 + [c], n2[1..], rest, ents);
      assert n1 + [c] + [n2[0]] + n2[1..] == n1 + [c] + n2;
    }
  }

  lemma {:induction false} DeclarationParts(c: char, n: string)
    requires Good([c] + n) && Lacks([c] + n, ">&")
    ensures GoodChar(c) && c !in ">&" && Good(n) && Lacks(n, ">&")
  {
    assert ([c] + n)[0] == c;
    assert forall i :: 0 <= i < |n| ==> n[i] == ([c] + n)[i + 1];
  }

  lemma {:induction false} HeadNonEmpty(name: string)
    requires name != [] && name[0] == '!'
    ensures Head(name) != [] && Head(name)[0] == '!'
  {
  }

  lemma {:induction false} DeclarationHead(name: string)
    requires DeclarationOk(name)
    ensures var h := Head(name);
            h != [] && h[0] == '!' && Lacks(h, "<>&/") && Good(h) &&
            forall i :: 0 < i <= |h| ==> !StopsTagName(h[..i])
  {
    var h := Head(name);
    HeadNonEmpty(name);
    forall i | 0 < i <= |h|
      ensures !StopsTagName(h[..i])
    {
      assert h[..i] == name[..i];
      assert h[..i][0] == '!';
    }
    forall i | 0 <= i < |h|
      ensures h[i] !in "<>&/" && GoodChar(h[i])
    {
      assert h[i] == name[i] && name[i] !in ">&";
      assert h[i] != '/' && h[i] != '<';
    }
  }

  lemma {:induction false} WholeHead(name: string, rest: string, ents: string -> int)
    requires DeclarationOk(name) && Head(name) == name
    ensures ReadTagName(name + ">" + rest, [], ents) == Scanned(name, Some('>'), rest)
  {
    hide ReadTagName;
    DeclarationHead(name);
    assert name + ">" + rest == name + (['>'] + rest);
    ReadRaw([], name, name, ['>'] + rest, ents);
    ReadStop(name, '>', rest, ents);
  }

  lemma {:induction false} HeadStop(name: string, h: string, c: char, body: string)
    requires DeclarationOk(name) && h == Head(name) && name == h + [c] + body
    ensures GoodChar(c) && StopsName(c) && h != [] && NoSpace(h) && Good([c] + body) && Lacks([c] + body, ">&")
  {
    hide Good, Head;
    assert name[|h|] == c;
    assert [c] + body == name[|h|..];
    GoodSuffix(name, |h|);
    assert c == ([c] + body)[0];
    HeadNonEmpty(name);
  }

  lemma {:induction false} GoodSuffix(name: string, k: nat)
    requires Good(name) && k <= |name|
    ensures Good(name[k..]) && (k < |name| ==> GoodChar(name[k]))
  {
  }

  lemma {:induction false} PartHead(name: string, h: string, c: char, body: string, rest: string, ents: string -> int)
    requires DeclarationOk(name) && h == Head(name) && name == h + [c] + body
    ensures ReadTagName(name + ">" + rest, [], ents) == Scanned(h, Some(c), body + ">" + rest)
    ensures Good([c] + body) && Lacks([c] + body, ">&")
  {
    hide *;
    DeclarationHead(name);
    HeadStop(name, h, c, body);
    var tail := body + ">" + rest;
    assert name + ">" + rest == h + ([c] + tail);
    assert [] + h == h;
    ReadRaw([], h, h, [c] + tail, ents);
    ReadStop(h, c, tail, ents);
  }

  lemma {:induction false} DeclarationTagOf(st: State, name: string, rest: string, env: Env)
    requires DeclarationOk(name)
    ensures Tag(st, name + ">" + rest, env) == Running(Marked(st, name, env.cb), rest)
  {
    hide ReadTagName, ReadDeclaration;
    var h := Head(name);
    var text := name + ">" + rest;
    DeclarationHead(name);
    assert h[..|h|] == h;
    if |h| == |name| {
      assert h == name;
      WholeHead(name, rest, env.ents);
      DeclarationDone(name, rest, env.ents);
      TagBranch(st, text, name, Some('>'), rest, env);
    } else {
      var c := name[|h|];
      var body := name[|h| + 1..];
      assert name == h + [c] + body;
      PartHead(name, h, c, body, rest, env.ents);
      TagBranch(st, text, h, Some(c), body + ">" + rest, env);
      ReadDeclarationOf(c, h, body, rest, env.ents);
    }
  }

  lemma {:induction false} DeclarationDone(name: string, rest: string, ents: string -> int)
    ensures ReadDeclaration(Some('>'), rest, name, ents) == Scanned(name, Some('>'), rest)
  {
  }

  /** Any markup that is written is read back as itself. */
  lemma {:induction false} MarkupTagOf(st: State, name: string, rest: string, env: Env)
    requires MarkupOk(name)
    ensures IsMarkup(name)
    ensures Tag(st, name + ">" + rest, env) == Running(Marked(st, name, env.cb), rest)
  {
    if DeclarationOk(name) {
      DeclarationTagOf(st, name, rest, env);
    } else {
      var kind := if VerbatimOk(Comment, name) then Comment
                  else if VerbatimOk(CData, name) then CData else Directive;
      assert Prefix(kind)[0] == name[0];
      VerbatimTagOf(st, name, kind, rest, env);
    }
  }
}
