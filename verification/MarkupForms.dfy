/** Comments, CDATA sections, processing instructions and declarations by what they may contain, and
    the inputs that the parser refuses or cuts short. */
module MarkupForms {
  import opened Options
  import opened Chars
  import opened Numbers
  import opened Trees
  import opened Reader
  import opened Canonical
  import opened TagProofs
  import opened Numerals
  import opened References
  import opened Spellings
  import opened TagForms

  // ----- markup -----

  predicate GoodText(s: string) {
    forall i :: 0 <= i < |s| ==> GoodByte(s[i])
  }

  lemma {:induction false} TextIsGood(s: string)
    requires GoodText(s)
    ensures Good(s)
  {
  }

  /** A comment that is not empty, holds no "--" and does not end in '-' is read whole, and becomes an
      element that is never a parent. */
  lemma {:induction false} CommentRead(body: string, rest: string, st: State, env: Env)
    requires GoodText(body) && body != [] && body[|body| - 1] != '-'
    requires forall i :: 0 <= i < |body| - 1 ==> !(body[i] == '-' && body[i + 1] == '-')
    ensures Tag(st, "!--" + body + "-->" + rest, env) == Running(AddNode(st, Element("!--" + body + "--", [], [])), rest)
  {
    hide Tag, AddNode, ReadMarkup;
    var name := "!--" + body + "--";
    TextIsGood(body);
    assert forall i :: 3 <= i < |body| + 3 ==> name[i] == body[i - 3];
    CommentOk(body, name);
    assert "!--" + body + "-->" + rest == name + ">" + rest;
    VerbatimTagOf(st, name, Comment, rest, env);
    assert name[1] == '-' && !MayOpen(name);
  }

  lemma {:induction false} CommentOk(body: string, name: string)
    requires Good(body) && body != [] && body[|body| - 1] != '-'
    requires forall i :: 0 <= i < |body| - 1 ==> !(body[i] == '-' && body[i + 1] == '-')
    requires name == "!--" + body + "--"
    ensures VerbatimOk(Comment, name)
  {
    assert forall i :: 3 <= i < |body| + 3 ==> name[i] == body[i - 3];
    forall i | 3 <= i < |name| && name[i] == '>'
      ensures !EndsMarkup(Comment, name[..i])
    {
      if i > 4 {
        assert name[i - 2] == body[i - 5] && name[i - 1] == body[i - 4];
      }
    }
  }

  /** An empty comment does not end: its '>' becomes part of a longer one. */
  lemma {:induction false} EmptyCommentGoesOn(rest: string)
    ensures ReadMarkup("-->" + rest, "!--", Comment) == ReadMarkup(rest, "!---->", Comment)
  {
    hide ReadMarkup;
    assert "-->" + rest == ['-'] + (['-'] + (['>'] + rest));
    MarkupStep('-', ['-'] + (['>'] + rest), "!--");
    MarkupStep('-', ['>'] + rest, "!--" + ['-']);
    assert "!--" + ['-'] + ['-'] == "!----" && "!----" + ['>'] == "!---->";
    MarkupStep('>', rest, "!----");
  }

  /** Neither does "<!-->", nor does a '>' behind three dashes end any comment. */
  lemma {:induction false} DashesGoOn(text: string, rest: string)
    ensures ReadMarkup(">" + rest, "!--", Comment) == ReadMarkup(rest, "!-->", Comment)
    ensures ReadMarkup(">" + rest, text + "---", Comment) == ReadMarkup(rest, text + "--->", Comment)
  {
    hide ReadMarkup;
    MarkupStep('>', rest, "!--");
    assert "!--" + ['>'] == "!-->";
    MarkupStep('>', rest, text + "---");
    assert text + "---" + ['>'] == text + "--->";
  }

  lemma {:induction false} MarkupStep(c: char, s: string, buf: string)
    requires GoodByte(c) && (c == '>' ==> !EndsMarkup(Comment, buf))
    ensures ReadMarkup([c] + s, buf, Comment) == ReadMarkup(s, buf + [c], Comment)
  {
    PlainRead(c, s);
  }

  /** A CDATA section without "]]>" is read whole. */
  lemma {:induction false} CDataRead(body: string, rest: string, st: State, env: Env)
    requires GoodText(body)
    requires forall i :: 0 <= i < |body| - 2 ==> !(body[i] == ']' && body[i + 1] == ']' && body[i + 2] == '>')
    ensures Tag(st, "![CDATA[" + body + "]]>" + rest, env) == Running(AddNode(st, Element("![CDATA[" + body + "]]", [], [])), rest)
  {
    hide Tag, AddNode, ReadMarkup;
    var name := "![CDATA[" + body + "]]";
    TextIsGood(body);
    assert forall i :: 8 <= i < |body| + 8 ==> name[i] == body[i - 8];
    CDataOk(body, name);
    assert "![CDATA[" + body + "]]>" + rest == name + ">" + rest;
    VerbatimTagOf(st, name, CData, rest, env);
    assert name[1] == '[' && !MayOpen(name) by { VerbatimKind(CData, name); }
  }

  lemma {:induction false} CDataOk(body: string, name: string)
    requires Good(body)
    requires forall i :: 0 <= i < |body| - 2 ==> !(body[i] == ']' && body[i + 1] == ']' && body[i + 2] == '>')
    requires name == "![CDATA[" + body + "]]"
    ensures VerbatimOk(CData, name)
  {
    assert forall i :: 8 <= i < |body| + 8 ==> name[i] == body[i - 8];
    forall i | 8 <= i < |name| && name[i] == '>'
      ensures !EndsMarkup(CData, name[..i])
    {
      if i >= 10 {
        assert name[i - 2] == body[i - 10] && name[i - 1] == body[i - 9] && name[i] == body[i - 8];
      }
    }
  }

  /** What markup that may hold the document becomes: the open element if there is none, a child otherwise */
  function Opening(st: State, name: string, cb: Callback): State {
    if st.stack == [] then Push(st, name, [], cb) else AddNode(st, Element(name, [], []))
  }

  /** A processing instruction without "?>" is read whole. */
  lemma {:induction false} InstructionRead(body: string, rest: string, st: State, env: Env)
    requires GoodText(body) && (body == [] || body[0] != '>')
    requires forall i :: 0 <= i < |body| - 1 ==> !(body[i] == '?' && body[i + 1] == '>')
    ensures Tag(st, "?" + body + "?>" + rest, env) == Running(Opening(st, "?" + body + "?", env.cb), rest)
  {
    hide Tag, AddNode, ReadMarkup, Push;
    var name := "?" + body + "?";
    TextIsGood(body);
    InstructionOk(body, name);
    assert "?" + body + "?>" + rest == name + ">" + rest;
    VerbatimTagOf(st, name, Directive, rest, env);
    assert MayOpen(name) by { VerbatimKind(Directive, name); }
  }

  lemma {:induction false} InstructionOk(body: string, name: string)
    requires Good(body) && (body == [] || body[0] != '>')
    requires forall i :: 0 <= i < |body| - 1 ==> !(body[i] == '?' && body[i + 1] == '>')
    requires name == "?" + body + "?"
    ensures VerbatimOk(Directive, name)
  {
    assert forall i :: 1 <= i < |body| + 1 ==> name[i] == body[i - 1];
    forall i | 1 <= i < |name| && name[i] == '>'
      ensures !EndsMarkup(Directive, name[..i])
    {
      if i >= 2 {
        assert name[i - 1] == body[i - 2] && name[i] == body[i - 1];
      }
    }
  }

  /** The first word of a declaration, behind its '!' */
  predicate KeywordOk(word: string) {
    && (forall i :: 0 <= i < |word| ==> GoodByte(word[i]) && word[i] !in " \t\r\n/<>&")
    && !("--" <= word) && !("[CDATA[" <= word)
  }

  /** In a declaration references are decoded behind its first word, and only there. */
  lemma {:induction false} DeclarationRead(word: string, c: char, ps: seq<Piece>, rest: string, st: State, env: Env)
    requires KeywordOk(word) && c in " \t\r\n/" && PiecesOk(ps, ">", env.ents)
    ensures Tag(st, "!" + word + [c] + (Spelled(ps) + (">" + rest)), env)
         == Running(Opening(st, "!" + word + [c] + Meant(ps, env.ents), env.cb), rest)
  {
    hide *;
    var h, tail := "!" + word, Spelled(ps) + (">" + rest);
    KeywordRead(word, c, tail, env.ents);
    DeclarationPieces(ps, h + [c], rest, env.ents);
    NextOfDeclaration(c, tail, h, env.ents);
    BangWord(word);
    TagBranch(st, h + [c] + tail, h, Some(c), tail, env);
    MarkupAdded(st, h + [c] + Meant(ps, env.ents), rest, env.cb);
  }

  lemma {:induction false} MarkupAdded(st: State, name: string, rest: string, cb: Callback)
    ensures AddMarkup(st, Scanned(name, Some('>'), rest), true, cb) == Running(Opening(st, name, cb), rest)
  {
    hide Push, AddNode;
  }

  lemma {:induction false} BangWord(word: string)
    requires KeywordOk(word)
    ensures var h := "!" + word; h != [] && h[0] == '!' && !StopsTagName(h)
    ensures var h := "!" + word; forall i :: 0 < i <= |h| ==> !StopsTagName(h[..i])
  {
    var h := "!" + word;
    assert h[1..] == word;
    assert "!--"[1..] == "--" && "![CDATA["[1..] == "[CDATA[";
    forall i | 0 < i <= |h|
      ensures !StopsTagName(h[..i])
    {
      assert h[..i][0] == '!';
      assert h[..i][1..] == word[..i - 1];
      assert word[..i - 1] <= word;
    }
    assert h[..|h|] == h;
  }

  lemma {:induction false} KeywordRead(word: string, c: char, tail: string, ents: string -> int)
    requires KeywordOk(word) && c in " \t\r\n/"
    ensures ReadTagName("!" + word + [c] + tail, [], ents) == Scanned("!" + word, Some(c), tail)
  {
    hide ReadTagName, StopsTagName;
    var h := "!" + word;
    BangWord(word);
    assert Good(h) && NoSpace(h) && Lacks(h, "<>&/");
    assert [] + h == h;
    assert h + [c] + tail == h + ([c] + tail);
    ReadRaw([], h, h, [c] + tail, ents);
    NameStops(h, c, tail, ents);
  }

  lemma {:induction false} NextOfDeclaration(c: char, s: string, buf: string, ents: string -> int)
    requires c in " \t\r\n/"
    ensures ReadDeclaration(Some(c), s, buf, ents) == DeclarationFrom(s, buf + [c], ents)
  {
    PlainRead(c, s);
  }

  // ----- refused tags -----

  /** An attribute needs an '=': any other character behind its name, or the end of the input, makes the
      whole load fail. */
  lemma {:induction false} EqualsMissing(first: char, name: seq<Piece>, blank: string, more: string, attrs: seq<Attr>, ents: string -> int)
    requires GoodByte(first) && first !in " \t\r\n\'\"/?<>" && PiecesOk(name, " \t\r\n=/>?", ents) && Blank(blank)
    requires more == [] || (GoodByte(more[0]) && more[0] !in " \t\r\n=" && (blank == [] ==> more[0] in "/>?"))
    ensures ParseElement([first] + (Spelled(name) + (blank + more)), attrs, ents) == ParseError
  {
    hide *;
    FirstFacts(first);
    var s := Spelled(name) + (blank + more);
    PlainRead(first, s);
    ParseNext(first, s, attrs, ents);
    NoEquals(first, name, blank, more, attrs, ents);
  }

  lemma {:induction false} FirstFacts(c: char)
    requires c !in " \t\r\n\'\"/?<>"
    ensures !IsSpace(c) && c !in "/?<>" && !IsQuote(c)
  {
  }

  lemma {:induction false} NoEquals(first: char, name: seq<Piece>, blank: string, more: string, attrs: seq<Attr>, ents: string -> int)
    requires PiecesOk(name, " \t\r\n=/>?", ents) && Blank(blank) && !IsQuote(first)
    requires more == [] || (GoodByte(more[0]) && more[0] !in " \t\r\n=" && (blank == [] ==> more[0] in "/>?"))
    ensures ReadAttr(first, Spelled(name) + (blank + more), attrs, ents) == AttrError
  {
    hide ReadAttrName, ReadQuotedName, Spelled, Meant, NextNonSpace, Blank, PiecesOk, GoodByte, ReadValue, GetAttr;
    var tail := blank + more;
    if tail == [] {
      NameCut(name, [first], [], ents);
    } else if blank == [] {
      assert tail == [more[0]] + more[1..];
      AttrNamePieces(name, [first], more[0], more[1..], ents);
    } else {
      FirstBlank(blank);
      BlankGood(blank);
      assert tail == [blank[0]] + (blank[1..] + more);
      AttrNamePieces(name, [first], blank[0], blank[1..] + more, ents);
      if more == [] {
        assert blank[1..] + more == blank[1..];
        OnlyBlank(blank[1..]);
      } else {
        assert more == [more[0]] + more[1..];
        SkipBlank(blank[1..], more[0], more[1..]);
      }
      assert IsSpace(blank[0]);
    }
  }

  lemma {:induction false} OnlyBlank(s: string)
    requires Blank(s)
    ensures NextNonSpace(s) == Eof([])
    decreases |s|
  {
    hide GetC, Blank, IsSpace, GoodByte, GoodChar, AddChar;
    if s == [] {
      NothingLeft();
    } else {
      BlankGood(s);
      PlainRead(s[0], s[1..]);
      assert s == [s[0]] + s[1..];
      OnlyBlank(s[1..]);
    }
  }

  lemma {:induction false} NothingLeft()
    ensures GetC([]) == Eof([])
  {
  }

  /** A second attribute of the same name makes the load fail, whatever its value is. */
  lemma {:induction false} DuplicateRefused(a: AttrForm, more: string, attrs: seq<Attr>, ents: string -> int)
    requires AttrFormOk(a, ents) && GetAttr(attrs, AttrMeant(a, ents).name).Some?
    ensures ParseElement(AttrFormText(a) + more, attrs, ents) == ParseError
  {
    hide *;
    AttrFormSplit(a, more);
    FormFacts(a, ents);
    ParseBlank(a.lead, [a.first] + AfterFirst(a, more), attrs, ents);
    PlainRead(a.first, AfterFirst(a, more));
    ParseNext(a.first, AfterFirst(a, more), attrs, ents);
    Duplicate(a, more, attrs, ents);
  }

  lemma {:induction false} Duplicate(a: AttrForm, more: string, attrs: seq<Attr>, ents: string -> int)
    requires AttrFormOk(a, ents) && GetAttr(attrs, AttrMeant(a, ents).name).Some? && !IsQuote(a.first)
    ensures ReadAttr(a.first, AfterFirst(a, more), attrs, ents) == AttrError
  {
    hide ReadAttrName, ReadQuotedName, ReadValue, AfterName, Spelled, Meant, AttrFormOk, GetAttr, ValueText;
    var r := NameAndEquals(a, a.after + (ValueText(a.value) + more), ents);
  }

  /** A '/' or '?' in a tag has to be followed by '>' at once; a '<' never stands in a tag; and a tag has
      to end. */
  lemma {:induction false} TagEndRefused(s: string, attrs: seq<Attr>, ents: string -> int)
    requires s == [] || s[0] == '<' || (s[0] in "/?" && (|s| == 1 || s[1] != '>'))
    ensures ParseElement(s, attrs, ents) == ParseError
  {
    if s != [] {
      assert s == [s[0]] + s[1..];
      GetCOf(s[0], s[1..]);
    }
  }

  /** The name of a tag holds no '<'. */
  lemma {:induction false} NestedTagRefused(name: seq<Piece>, s: string, st: State, env: Env)
    requires PiecesOk(name, " \t\r\n<>/", env.ents) && (Meant(name, env.ents) != [] ==> Meant(name, env.ents)[0] !in "?!")
    ensures Tag(st, Spelled(name) + ("<" + s), env) == Failed
  {
    hide ReadTagName, Spelled, Meant, PiecesOk;
    var n := Meant(name, env.ents);
    assert [] + n == n;
    TagNamePieces(name, [], "<" + s, env.ents);
    LessThan(n, s, env.ents);
  }

  lemma {:induction false} LessThan(n: string, s: string, ents: string -> int)
    ensures ReadTagName("<" + s, n, ents) == ScanError
  {
    GetCOf('<', s);
  }

  /** A reference never ends the name of a tag, even if it completes the start of a comment. */
  lemma {:induction false} ReferenceGoesOn(r: Reference, n: string, more: string, ents: string -> int)
    requires RefOk(r, ents)
    ensures ReadTagName("&" + RefName(r) + ";" + more, n, ents) == ReadTagName(more, n + AddChar(Code(r, ents)), ents)
  {
    hide GetEntity, RefOk, Code, RefName, AddChar;
    RefRead(r, more, ents);
  }

  /** A bad reference is an error wherever references are decoded. */
  lemma {:induction false} BadReferenceRefused(s: string, q: char, n: string, ents: string -> int)
    requires GetEntity(s, ents) == NoEntity && (q == '\'' || q == '\"')
    ensures ReadQuoted("&" + s, q, n, ents) == ScanError && ReadUnquoted("&" + s, n, ents) == ScanError
    ensures ReadAttrName("&" + s, n, ents) == ScanError && ReadTagName("&" + s, n, ents) == ScanError
    ensures DeclarationFrom("&" + s, n, ents) == ScanError
  {
    hide GetEntity;
    GetCOf('&', s);
  }

  // ----- inputs that are cut off -----

  /** The input ends at a NUL and at any other control character but tab, newline and return. */
  predicate Cut(s: string) {
    s == [] || !Acceptable(s[0] as int)
  }

  /** Only a control character is consumed by that, so that a loop that tries again reads on behind it. */
  function BehindCut(s: string): string {
    if s == [] || s[0] == '\0' then s else s[1..]
  }

  lemma {:induction false} CutRead(s: string)
    requires Cut(s)
    ensures GetC(s) == Eof(BehindCut(s))
  {
  }

  lemma {:induction false} NameCut(ps: seq<Piece>, n: string, s: string, ents: string -> int)
    requires PiecesOk(ps, " \t\r\n=/>?", ents) && Cut(s)
    ensures ReadAttrName(Spelled(ps) + s, n, ents) == Scanned(n + Meant(ps, ents), None, BehindCut(s))
    decreases |ps|
  {
    hide PieceOk, PieceText, PieceBytes, PiecesOk, Spelled, Meant, Cut, BehindCut, GetC;
    Pieces(ps, " \t\r\n=/>?", s, ents);
    CutRead(s);
    if ps == [] {
      assert n + [] == n;
    } else {
      AttrNamePiece(ps[0], n, Spelled(ps[1..]) + s, ents);
      NameCut(ps[1..], n + PieceBytes(ps[0], ents), s, ents);
    }
  }

  lemma {:induction false} QuotedCut(ps: seq<Piece>, q: char, v: string, s: string, ents: string -> int)
    requires (q == '\'' || q == '\"') && PiecesOk(ps, [q], ents) && Cut(s)
    ensures ReadQuoted(Spelled(ps) + s, q, v, ents) == Scanned(v + Meant(ps, ents), None, BehindCut(s))
    decreases |ps|
  {
    hide PieceOk, PieceText, PieceBytes, PiecesOk, Spelled, Meant, Cut, BehindCut, GetC;
    Pieces(ps, [q], s, ents);
    CutRead(s);
    if ps == [] {
      assert v + [] == v;
    } else {
      QuotedPiece(ps[0], q, v, Spelled(ps[1..]) + s, ents);
      QuotedCut(ps[1..], q, v + PieceBytes(ps[0], ents), s, ents);
    }
  }

  lemma {:induction false} UnquotedCut(ps: seq<Piece>, v: string, s: string, ents: string -> int)
    requires PiecesOk(ps, " \t\r\n=/>", ents) && Cut(s)
    ensures ReadUnquoted(Spelled(ps) + s, v, ents) == Scanned(v + Meant(ps, ents), None, BehindCut(s))
    decreases |ps|
  {
    hide PieceOk, PieceText, PieceBytes, PiecesOk, Spelled, Meant, Cut, BehindCut, GetC;
    Pieces(ps, " \t\r\n=/>", s, ents);
    CutRead(s);
    if ps == [] {
      assert v + [] == v;
    } else {
      UnquotedPiece(ps[0], v, Spelled(ps[1..]) + s, ents);
      UnquotedCut(ps[1..], v + PieceBytes(ps[0], ents), s, ents);
    }
  }

  /** A value, in any form, without what ends it */
  function OpenValue(v: ValueForm): string {
    match v
    case Quoted(q, ps) => [q] + Spelled(ps)
    case Unquoted(c, ps) => [c] + Spelled(ps)
  }

  /** A value that is cut off counts, and the tag goes on behind the cut. At the end of the input that
      makes the load fail; a control character separates the value from the next attribute. */
  lemma {:induction false} ValueCut(name: string, blank: string, v: ValueForm, s: string, attrs: seq<Attr>, ents: string -> int)
    requires ValueFormOk(v, ents) && Blank(blank) && Cut(s)
    ensures ReadValue(name, blank + (OpenValue(v) + s), ents) == AttrDone(name, ValueMeant(v, ents), None, BehindCut(s))
    ensures GoOn(None, BehindCut(s), attrs, ents) == if s == [] || s[0] == '\0' then ParseError else ParseElement(s[1..], attrs, ents)
  {
    hide ReadQuoted, ReadUnquoted, NextNonSpace, Spelled, Meant, Blank, PiecesOk, GoodByte, ReadAttr;
    match v
    case Quoted(q, ps) =>
      assert OpenValue(v) + s == [q] + (Spelled(ps) + s);
      assert GoodByte(q) by { QuoteGood(q); }
      SkipBlank(blank, q, Spelled(ps) + s);
      QuotedCut(ps, q, [], s, ents);
      assert [] + Meant(ps, ents) == Meant(ps, ents);
    case Unquoted(c, ps) =>
      assert OpenValue(v) + s == [c] + (Spelled(ps) + s);
      SkipBlank(blank, c, Spelled(ps) + s);
      UnquotedCut(ps, [c], s, ents);
  }

  /** A tag that is cut off behind its name is a whole element, and the last one. */
  lemma {:induction false} TagCut(name: seq<Piece>, s: string, st: State, env: Env)
    requires PiecesOk(name, " \t\r\n<>/", env.ents) && Cut(s)
    requires Meant(name, env.ents) != [] ==> Meant(name, env.ents)[0] !in "?!/"
    ensures Tag(st, Spelled(name) + s, env) == Stopped(AddNode(st, Element(Meant(name, env.ents), [], [])))
  {
    hide ReadTagName, Spelled, Meant, PiecesOk, Cut, BehindCut, AddNode, TagEnd;
    var n := Meant(name, env.ents);
    assert [] + n == n;
    TagNamePieces(name, [], s, env.ents);
    TagNameCut(n, s, env.ents);
    TagBranch(st, Spelled(name) + s, n, None, BehindCut(s), env);
  }

  lemma {:induction false} TagNameCut(n: string, s: string, ents: string -> int)
    requires Cut(s)
    ensures ReadTagName(s, n, ents) == Scanned(n, None, BehindCut(s))
  {
    hide GetC, Cut, BehindCut;
    CutRead(s);
  }

  /** A close tag that is cut off closes its element, and the document goes on behind the cut. */
  lemma {:induction false} CloseCut(t: CloseForm, s: string, st: State, env: Env)
    requires CloseFormOk(t, env.ents) && Cut(s)
    requires st.stack != [] && st.stack[|st.stack| - 1].name == Meant(t.name, env.ents)
    ensures Tag(st, "/" + Spelled(t.name) + t.junk + s, env) == Running(Pop(st, env.cb), BehindCut(s))
  {
    hide *;
    var name := Meant(t.name, env.ents);
    var tail := t.junk + s;
    var text := "/" + Spelled(t.name) + t.junk + s;
    assert text == ['/'] + (Spelled(t.name) + tail);
    ReadSlash(Spelled(t.name) + tail, env.ents);
    CloseNameOk(t, env.ents);
    TagNamePieces(t.name, "/", tail, env.ents);
    assert ("/" + name)[0] == '/' && ("/" + name)[1..] == name;
    if t.junk == [] {
      assert tail == s;
      TagNameCut("/" + name, s, env.ents);
      TagBranch(st, text, "/" + name, None, BehindCut(s), env);
      NothingToSkip(BehindCut(s));
      CutMeans(st, "/" + name, None, BehindCut(s), BehindCut(s), env.cb);
    } else {
      assert tail == [t.junk[0]] + (t.junk[1..] + s);
      NameStops("/" + name, t.junk[0], t.junk[1..] + s, env.ents);
      TagBranch(st, text, "/" + name, Some(t.junk[0]), t.junk[1..] + s, env);
      JunkCut(t.junk[1..], t.junk[0], s);
      CutMeans(st, "/" + name, Some(t.junk[0]), t.junk[1..] + s, BehindCut(s), env.cb);
    }
  }

  lemma {:induction false} CloseNameOk(t: CloseForm, ents: string -> int)
    requires CloseFormOk(t, ents)
    ensures PiecesOk(t.name, " \t\r\n<>/", ents)
    ensures t.junk != [] ==> t.junk[0] in " \t\r\n/>" && t.junk[0] != '>'
    ensures t.junk != [] ==> forall i :: 0 <= i < |t.junk| - 1 ==> GoodByte(t.junk[1..][i]) && t.junk[1..][i] != '>'
  {
    hide PiecesOk, GoodByte;
  }

  lemma {:induction false} NothingToSkip(s: string)
    ensures SkipToClose(None, s) == s
  {
  }

  lemma {:induction false} JunkCut(junk: string, c: char, s: string)
    requires forall i :: 0 <= i < |junk| ==> GoodByte(junk[i]) && junk[i] != '>'
    requires c != '>' && Cut(s)
    ensures SkipToClose(Some(c), junk + s) == BehindCut(s)
    decreases |junk|
  {
    hide GoodByte, Cut, BehindCut, GetC;
    if junk == [] {
      assert junk + s == s;
      CutRead(s);
      NothingToSkip(BehindCut(s));
    } else {
      assert junk + s == [junk[0]] + (junk[1..] + s);
      PlainRead(junk[0], junk[1..] + s);
      JunkCut(junk[1..], junk[0], s);
    }
  }

  lemma {:induction false} CutMeans(st: State, buf: string, ch: Option<char>, s: string, rest: string, cb: Callback)
    requires buf != [] && SkipToClose(ch, s) == rest && st.stack != [] && st.stack[|st.stack| - 1].name == buf[1..]
    ensures CloseTag(st, buf, ch, s, cb) == Running(Pop(st, cb), rest)
  {
    hide Pop, SkipToClose;
  }

  /** Comments, CDATA sections and processing instructions must not be cut off. */
  lemma {:induction false} MarkupCut(body: string, buf: string, kind: MarkupKind, s: string)
    requires GoodText(body) && '>' !in body && Cut(s)
    ensures ReadMarkup(body + s, buf, kind) == ScanError
    decreases |body|
  {
    hide GoodByte, Cut, BehindCut, GetC, EndsMarkup, AddChar;
    if body == [] {
      assert body + s == s;
      CutRead(s);
    } else {
      assert body + s == [body[0]] + (body[1..] + s);
      PlainRead(body[0], body[1..] + s);
      MarkupCut(body[1..], buf + [body[0]], kind, s);
    }
  }

  /** A control character behind the first word of a declaration is stored as the byte 255, the value of
      EOF, and the declaration goes on behind it. */
  lemma {:induction false} DeclarationCut(word: string, c: char, ps: seq<Piece>, rest: string, st: State, env: Env)
    requires KeywordOk(word) && !Acceptable(c as int) && c != '\0' && PiecesOk(ps, ">", env.ents)
    ensures Tag(st, "!" + word + [c] + (Spelled(ps) + (">" + rest)), env)
         == Running(Opening(st, "!" + word + [255 as char] + Meant(ps, env.ents), env.cb), rest)
  {
    hide *;
    var h, tail := "!" + word, Spelled(ps) + (">" + rest);
    WordCut(word, c, tail, env.ents);
    DeclarationPieces(ps, h + [255 as char], rest, env.ents);
    EofByte(tail, h, env.ents);
    BangWord(word);
    TagBranch(st, h + [c] + tail, h, None, tail, env);
    MarkupAdded(st, h + [255 as char] + Meant(ps, env.ents), rest, env.cb);
  }

  lemma {:induction false} EofByte(s: string, buf: string, ents: string -> int)
    ensures ReadDeclaration(None, s, buf, ents) == DeclarationFrom(s, buf + [255 as char], ents)
  {
    assert AddChar(-1) == [255 as char];
  }

  lemma {:induction false} WordCut(word: string, c: char, tail: string, ents: string -> int)
    requires KeywordOk(word) && !Acceptable(c as int) && c != '\0'
    ensures ReadTagName("!" + word + [c] + tail, [], ents) == Scanned("!" + word, None, tail)
  {
    hide ReadTagName, StopsTagName, Cut;
    var h := "!" + word;
    BangWord(word);
    assert Good(h) && NoSpace(h) && Lacks(h, "<>&/");
    assert [] + h == h;
    assert h + [c] + tail == h + ([c] + tail);
    ReadRaw([], h, h, [c] + tail, ents);
    assert Cut([c] + tail) by { CutChar(c, tail); }
    TagNameCut(h, [c] + tail, ents);
    assert ([c] + tail)[1..] == tail;
  }

  lemma {:induction false} CutChar(c: char, tail: string)
    requires !Acceptable(c as int)
    ensures Cut([c] + tail)
  {
  }

  // ----- the main loop -----

  /** A reference that is not closed, or that stands for a forbidden character, makes the load fail. */
  lemma {:induction false} BadReferenceFails(s: string, st: State, env: Env)
    requires GetEntity(s, env.ents) == NoEntity
    ensures Run(st, "&" + s, env) == Failed
  {
    hide GetEntity, Tag;
    GetCOf('&', s);
    assert Flush(st, '&') == Flushed(st);
  }

  /** Outside tags a NUL or a control character other than tab, newline and return ends the document. */
  lemma {:induction false} ControlEnds(c: char, s: string, st: State, env: Env)
    requires !Acceptable(c as int)
    ensures Run(st, [c] + s, env) == Stopped(st)
  {
  }

  /** Inside a tag it makes the load fail. */
  lemma {:induction false} ControlInTag(c: char, s: string, attrs: seq<Attr>, ents: string -> int)
    requires !Acceptable(c as int)
    ensures ParseElement([c] + s, attrs, ents) == ParseError
  {
  }

  /** What ends a value: a tag, and outside opaque values a blank as well. A text gets the whitespace flag
      that was pending; a blank makes the next one pending in texts; ignored characters are dropped. */
  lemma {:induction false} ValueEnds(c: char, st: State)
    requires c in " \t\r\n<" && st.buf != []
    ensures st.ty == TextType ==> Flush(st, c) == Flushed(AddNode(st, Text(st.ws, st.buf)).(buf := [], ws := c != '<'))
    ensures st.ty == OpaqueType ==>
              Flush(st, c) == Flushed(if c == '<' then AddNode(st, Opaque(st.buf)).(buf := [], ws := false) else st)
    ensures st.ty == IgnoreType ==> Flush(st, c) == Flushed(st.(buf := [], ws := false))
  {
    hide AddNode;
  }

  /** Whitespace without a value before it: it is pending in texts and part of opaque values, and means
      nothing to integers and ignored characters. */
  lemma {:induction false} BlankRead(c: char, s: string, st: State, env: Env)
    requires c in " \t\r\n" && st.buf == []
    ensures Run(st, [c] + s, env) == Run(match st.ty
                                         case TextType => st.(ws := true)
                                         case OpaqueType => st.(buf := [c])
                                         case _ => st, s, env)
  {
    hide Tag, GetEntity;
    GetCOf(c, s);
    assert Flush(st, c) == Flushed(if st.ty == TextType then st.(ws := true) else st);
    assert [] + [c] == [c];
  }

  /** Whitespace that is still pending before a tag becomes a text of its own. */
  lemma {:induction false} PendingBlank(st: State)
    requires st.buf == []
    ensures Flush(st, '<') == Flushed(if st.ws && st.ty == TextType then AddNode(st, Text(true, [])).(ws := false) else st)
  {
    hide AddNode;
  }

  /** The characters of an integer value, with their sign and base, up to a blank or a tag: the number
      becomes a node. Anything behind it that is no digit ends the load there, without an error; the node
      stays. */
  lemma {:induction false} IntegerEnds(l: Lead, n: nat, upper: bool, junk: string, c: char, st: State)
    requires LeadOk(l) && Ends(junk, Base(l.radix)) && (l.radix == Ten ==> n > 0)
    requires st.ty == IntegerType && st.buf == LeadText(l) + Numeral(n, Base(l.radix), upper) + junk
    requires c in " \t\r\n<"
    ensures var st' := AddNode(st, Integer(ToInt32(Limited(if l.sign == "-" then 0 - n as int else n as int))));
            Flush(st, c) == if junk == [] then Flushed(st'.(buf := [], ws := false)) else BadNumber(st')
  {
    hide StrToL, ToInt32, AddNode, LeadOk, LeadText, Numeral, Limited;
    ReadsAnyBase(l, n, upper, junk);
    NumeralStart(n, Base(l.radix), upper);
  }

  lemma {:induction false} MalformedStops(c: char, s: string, st: State, st': State, env: Env)
    requires c in " \t\r\n<" && Flush(st, c) == BadNumber(st')
    ensures Run(st, [c] + s, env) == Stopped(st')
  {
    hide Flush, Tag;
    GetCOf(c, s);
  }
}
