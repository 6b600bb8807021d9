/** The saved text of a canonical tree is a document, so every respelling of it loads as that tree. */
module Respelling {
  import opened Options
  import opened Chars
  import opened Numbers
  import opened Trees
  import opened Reader
  import opened Writer
  import opened Canonical
  import opened TagProofs
  import opened References
  import opened Spellings
  import opened TagForms
  import opened Documents
  import opened RoundTrip
  import opened RootProofs

  // ----- strings -----

  /** The pieces of an escaped string */
  function Escaped(s: string): seq<Piece> {
    if s == [] then [] else [EscapedPiece(s[0])] + Escaped(s[1..])
  }

  function EscapedPiece(c: char): Piece {
    match NamedEntity(c)
    case Some(name) => Ref(ByName(name))
    case None => Plain(c)
  }

  /** No character of `s` that is written as it is belongs to `stops`. */
  predicate Free(s: string, stops: string) {
    forall i :: 0 <= i < |s| ==> s[i] !in stops || NamedEntity(s[i]).Some?
  }

  lemma {:induction false} PieceEscaped(c: char, stops: string, ents: string -> int)
    requires StandardEntities(ents) && GoodChar(c) && (c !in stops || NamedEntity(c).Some?)
    ensures PieceText(EscapedPiece(c)) == EscapeChar(c) && PieceBytes(EscapedPiece(c), ents) == [c]
    ensures PieceOk(EscapedPiece(c), stops, ents)
  {
    if NamedEntity(c).Some? {
      EntityNames(c, ents);
      GetCOf(c, []);
    }
  }

  lemma {:induction false} EscapedMeans(s: string, stops: string, ents: string -> int)
    requires StandardEntities(ents) && Good(s) && Free(s, stops)
    ensures Spelled(Escaped(s)) == Escape(s) && Meant(Escaped(s), ents) == s && PiecesOk(Escaped(s), stops, ents)
  {
    hide EscapeChar, EscapedPiece, PieceText, PieceBytes, PieceOk, StandardEntities, GoodChar, NamedEntity;
    if s != [] {
      PieceEscaped(s[0], stops, ents);
      EscapedMeans(s[1..], stops, ents);
      assert [s[0]] + s[1..] == s;
    }
  }

  // ----- text -----

  function FirstWord(s: string): (w: string)
    ensures w <= s && (forall i :: 0 <= i < |w| ==> !IsSpace(w[i])) && (|w| < |s| ==> IsSpace(s[|w|]))
  {
    if s == [] || IsSpace(s[0]) then [] else [s[0]] + FirstWord(s[1..])
  }

  /** Words, and the whitespace between them */
  function WordParts(s: string): seq<Part>
    decreases |s|
  {
    if s == [] then []
    else if IsSpace(s[0]) then [BlankChar(s[0])] + WordParts(s[1..])
    else
      var w := FirstWord(s);
      [Word(Escaped(w))] + WordParts(s[|w|..])
  }

  ghost predicate DocOk(ps: seq<Part>, ents: string -> int) {
    forall i :: 0 <= i < |ps| ==> PartOk(ps[i], ents)
  }

  lemma {:induction false} DocAppend(ps: seq<Part>, qs: seq<Part>, ents: string -> int)
    requires DocOk(ps, ents) && DocOk(qs, ents)
    ensures DocOk(ps + qs, ents) && DocText(ps + qs) == DocText(ps) + DocText(qs)
    decreases |ps|
  {
    hide PartText, PartOk;
    if ps == [] {
      assert ps + qs == qs;
    } else {
      DocAppend(ps[1..], qs, ents);
      assert (ps + qs)[1..] == ps[1..] + qs;
    }
  }

  lemma {:induction false} OnePart(p: Part, ents: string -> int)
    requires PartOk(p, ents)
    ensures DocOk([p], ents) && DocText([p]) == PartText(p)
  {
    hide PartText, PartOk;
    assert [p][1..] == [];
    assert PartText(p) + [] == PartText(p);
  }

  lemma {:induction false} EscapeSplit(a: string, b: string)
    ensures Escape(a + b) == Escape(a) + Escape(b)
  {
    hide EscapeChar;
    if a == [] {
      assert a + b == b;
    } else {
      assert (a + b)[1..] == a[1..] + b;
      EscapeSplit(a[1..], b);
    }
  }

  lemma {:induction false} SpaceText(c: char, ents: string -> int)
    requires IsSpace(c)
    ensures PartOk(BlankChar(c), ents) && PartText(BlankChar(c)) == [c] && EscapeChar(c) == [c]
  {
  }

  lemma {:induction false} WordText(w: string, ents: string -> int)
    requires StandardEntities(ents) && Good(w) && forall i :: 0 <= i < |w| ==> !IsSpace(w[i])
    ensures PartOk(Word(Escaped(w)), ents) && PartText(Word(Escaped(w))) == Escape(w)
  {
    hide Escape, StandardEntities, GoodChar, Escaped, Spelled, Meant, PiecesOk;
    assert Free(w, " \t\r\n<");
    EscapedMeans(w, " \t\r\n<", ents);
  }

  /** An escaped string is a document of words and blanks. */
  lemma {:induction false} TextIsDocument(s: string, ents: string -> int)
    requires StandardEntities(ents) && Good(s)
    ensures DocOk(WordParts(s), ents) && DocText(WordParts(s)) == Escape(s)
    decreases |s|
  {
    hide StandardEntities, GoodChar, PartText, PartOk, Escape, IsSpace, DocText, DocOk;
    if s == [] {
      NoParts(ents);
    } else if IsSpace(s[0]) {
      TextIsDocument(s[1..], ents);
      SpaceText(s[0], ents);
      OnePart(BlankChar(s[0]), ents);
      DocAppend([BlankChar(s[0])], WordParts(s[1..]), ents);
      EscapeFirst(s);
    } else {
      var w := FirstWord(s);
      WordText(w, ents);
      OnePart(Word(Escaped(w)), ents);
      TextIsDocument(s[|w|..], ents);
      DocAppend([Word(Escaped(w))], WordParts(s[|w|..]), ents);
      EscapeSplit(w, s[|w|..]);
      assert w + s[|w|..] == s;
    }
  }

  lemma {:induction false} NoParts(ents: string -> int)
    ensures DocOk([], ents) && DocText([]) == Escape([])
  {
  }

  lemma {:induction false} EscapeFirst(s: string)
    requires s != []
    ensures Escape(s) == EscapeChar(s[0]) + Escape(s[1..])
  {
  }

  // ----- tags -----

  function AttrDoc(a: Attr, sep: string): AttrForm
    requires a.name != [] && a.value.Some?
  {
    AttrForm(sep, a.name[0], Plainly(a.name[1..]), "", "", Quoted('\"', Escaped(a.value.value)))
  }

  lemma {:induction false} AttrIsForm(a: Attr, sep: string, ents: string -> int)
    requires StandardEntities(ents) && AttrOk(a) && (sep == " " || sep == "\n")
    ensures AttrFormOk(AttrDoc(a, sep), ents) && AttrMeant(AttrDoc(a, sep), ents) == a
    ensures AttrFormText(AttrDoc(a, sep)) == sep + AttrText(a)
    ensures AttrDoc(a, sep).value.Quoted? && AttrDoc(a, sep).lead != []
  {
    hide *;
    AttrParts(a);
    var v := a.value.value;
    var f := AttrDoc(a, sep);
    QuoteFree(v);
    EscapedMeans(v, "\"", ents);
    PlainlyMeans(a.name[1..], ents);
    NamePiecesOk(a.name, ents);
    assert f == AttrForm(sep, a.name[0], Plainly(a.name[1..]), "", "", Quoted('\"', Escaped(v))) by { AttrDocIs(a, sep); }
    FormIs(f, a, sep, ents);
  }

  lemma {:induction false} AttrParts(a: Attr)
    requires AttrOk(a)
    ensures AttrNameOk(a.name) && a.name != [] && a.value.Some? && Good(a.value.value) && !IsQuote(a.name[0])
    ensures AttrText(a) == a.name + ("=\"" + Escape(a.value.value) + "\"")
  {
    hide Escape, Good, NoSpace, Lacks;
  }

  lemma {:induction false} AttrDocIs(a: Attr, sep: string)
    requires a.name != [] && a.value.Some?
    ensures AttrDoc(a, sep) == AttrForm(sep, a.name[0], Plainly(a.name[1..]), "", "", Quoted('\"', Escaped(a.value.value)))
  {
  }

  lemma {:induction false} FormIs(f: AttrForm, a: Attr, sep: string, ents: string -> int)
    requires f.value.Quoted? && f.value.quote == '\"' && f.before == "" && f.after == "" && f.lead == sep && (sep == " " || sep == "\n")
    requires a.name != [] && a.value.Some? && f.first == a.name[0]
    requires Spelled(f.name) == a.name[1..] && Meant(f.name, ents) == a.name[1..] && PiecesOk(f.name, " \t\r\n=/>?", ents)
    requires Meant(f.value.ps, ents) == a.value.value && PiecesOk(f.value.ps, "\"", ents)
    requires GoodByte(f.first) && f.first !in " \t\r\n\'\"/?<>"
    ensures AttrFormOk(f, ents) && AttrMeant(f, ents) == a
    ensures AttrFormText(f) == sep + (a.name + ("=\"" + Spelled(f.value.ps) + "\""))
  {
    hide Spelled, Meant, PiecesOk, GoodByte;
    assert "\"" == ['\"'];
    assert [f.first] + a.name[1..] == a.name;
    Line(sep, a.name, Spelled(f.value.ps));
  }

  lemma {:induction false} Line(sep: string, name: string, v: string)
    requires name != []
    ensures sep + [name[0]] + name[1..] + "" + "=" + "" + (['\"'] + v + ['\"']) == sep + (name + ("=\"" + v + "\""))
  {
    assert [name[0]] + name[1..] == name;
    assert sep + [name[0]] + name[1..] == sep + name;
  }

  lemma {:induction false} QuoteFree(v: string)
    ensures Free(v, "\"")
  {
  }

  lemma {:induction false} NamePiecesOk(name: string, ents: string -> int)
    requires AttrNameOk(name)
    ensures PiecesOk(Plainly(name[1..]), " \t\r\n=/>?", ents)
    ensures GoodByte(name[0]) && name[0] !in " \t\r\n\'\"/?<>" && !IsQuote(name[0])
  {
    forall i | 0 <= i < |name[1..]|
      ensures PieceOk(Plainly(name[1..])[i], " \t\r\n=/>?", ents)
    {
      assert name[1..][i] !in "=/>?&" && GoodChar(name[i + 1]) && !IsSpace(name[1..][i]);
    }
  }

  function Separator(past: bool): string {
    if past then "\n" else " "
  }

  function FormsDoc(attrs: seq<Attr>, wrap: int, col: int): seq<AttrForm>
    requires forall i :: 0 <= i < |attrs| ==> attrs[i].name != [] && attrs[i].value.Some?
  {
    if attrs == [] then []
    else
      var past := col + AttrWidth(attrs[0]) > wrap;
      [AttrDoc(attrs[0], Separator(past))] + FormsDoc(attrs[1..], wrap, (if past then 0 else col + 1) + AttrWidth(attrs[0]))
  }

  /** The written attributes of a tag are forms of them. */
  lemma {:induction false} AttrsAreForms(attrs: seq<Attr>, wrap: int, col: int, end: string, open: bool, ents: string -> int)
    requires StandardEntities(ents) && Stops(end)
    requires forall i :: 0 <= i < |attrs| ==> AttrOk(attrs[i]) && attrs[i].name != [] && attrs[i].value.Some?
    ensures var forms := FormsDoc(attrs, wrap, col);
            (forall i :: 0 <= i < |forms| ==> AttrFormOk(forms[i], ents)) && Separated(forms, end, open) &&
            FormsMeant(forms, ents) == attrs && FormsText(forms) == WriteAttrs(attrs, wrap, col).text
    decreases |attrs|
  {
    hide *;
    if attrs == [] {
      NoAttrs(wrap, col, end, open, ents);
    } else {
      var past := col + AttrWidth(attrs[0]) > wrap;
      var col' := (if past then 0 else col + 1) + AttrWidth(attrs[0]);
      FormsCons(attrs, wrap, col);
      SeparatorIs(past);
      AttrIsForm(attrs[0], Separator(past), ents);
      AttrsAreForms(attrs[1..], wrap, col', end, false, ents);
      FormCons(AttrDoc(attrs[0], Separator(past)), FormsDoc(attrs[1..], wrap, col'), attrs, end, open, ents);
    }
  }

  lemma {:induction false} SeparatorIs(past: bool)
    ensures Separator(past) == " " || Separator(past) == "\n"
  {
  }

  lemma {:induction false} NoAttrs(wrap: int, col: int, end: string, open: bool, ents: string -> int)
    requires Stops(end)
    ensures FormsDoc([], wrap, col) == [] && Separated([], end, open) && FormsMeant([], ents) == []
    ensures FormsText([]) == WriteAttrs([], wrap, col).text
  {
  }

  lemma {:induction false} FormsCons(attrs: seq<Attr>, wrap: int, col: int)
    requires attrs != [] && forall i :: 0 <= i < |attrs| ==> attrs[i].name != [] && attrs[i].value.Some?
    ensures var past := col + AttrWidth(attrs[0]) > wrap;
            var col' := (if past then 0 else col + 1) + AttrWidth(attrs[0]);
            FormsDoc(attrs, wrap, col) == [AttrDoc(attrs[0], Separator(past))] + FormsDoc(attrs[1..], wrap, col') &&
            WriteAttrs(attrs, wrap, col).text == Separator(past) + AttrText(attrs[0]) + WriteAttrs(attrs[1..], wrap, col').text
  {
    hide AttrDoc, AttrText, AttrWidth;
  }

  lemma {:induction false} FormCons(f: AttrForm, forms: seq<AttrForm>, attrs: seq<Attr>, end: string, open: bool, ents: string -> int)
    requires attrs != [] && AttrFormOk(f, ents) && AttrMeant(f, ents) == attrs[0] && f.lead != [] && f.value.Quoted?
    requires forall i :: 0 <= i < |forms| ==> AttrFormOk(forms[i], ents)
    requires Separated(forms, end, false) && FormsMeant(forms, ents) == attrs[1..]
    ensures var all := [f] + forms;
            (forall i :: 0 <= i < |all| ==> AttrFormOk(all[i], ents)) && Separated(all, end, open) &&
            FormsMeant(all, ents) == attrs && FormsText(all) == AttrFormText(f) + FormsText(forms)
  {
    hide AttrFormOk, AttrMeant, AttrFormText, Stops;
    var all := [f] + forms;
    assert all[1..] == forms;
    assert FormsMeant(all, ents) == [attrs[0]] + FormsMeant(forms, ents);
  }

  /** The pieces of an element name in an open tag */
  lemma {:induction false} NameIsSpelled(name: string, ents: string -> int) returns (ps: seq<Piece>)
    requires StandardEntities(ents) && ElementNameOk(name)
    ensures Spelled(ps) == WriteName(name) && Meant(ps, ents) == name && PiecesOk(ps, " \t\r\n<>/", ents)
  {
    hide *;
    if name != [] && IsQuote(name[0]) {
      var q := name[0];
      var inner := QuotedParts(name);
      InnerFree(inner);
      EscapedMeans(inner, " \t\r\n<>/", ents);
      ps := [Plain(q)] + Escaped(inner) + [Plain(q)];
      Quotes(q, Escaped(inner), ents);
    } else {
      PlainParts(name);
      ps := Plainly(name);
      PlainlyMeans(name, ents);
      PlainlyOk(name, ents);
    }
  }

  lemma {:induction false} PlainlyOk(name: string, ents: string -> int)
    requires Good(name) && NoSpace(name) && Lacks(name, "<>&/")
    ensures PiecesOk(Plainly(name), " \t\r\n<>/", ents)
  {
    forall i | 0 <= i < |name|
      ensures PieceOk(Plainly(name)[i], " \t\r\n<>/", ents)
    {
      assert name[i] !in "<>&/" && GoodChar(name[i]) && !IsSpace(name[i]);
    }
  }

  lemma {:induction false} InnerFree(inner: string)
    requires NoSpace(inner) && '/' !in inner
    ensures Free(inner, " \t\r\n<>/")
  {
  }

  lemma {:induction false} SpelledAppend(ps: seq<Piece>, p: Piece, ents: string -> int)
    ensures Spelled(ps + [p]) == Spelled(ps) + PieceText(p) && Meant(ps + [p], ents) == Meant(ps, ents) + PieceBytes(p, ents)
  {
    hide PieceText, PieceBytes;
    if ps == [] {
      assert ps + [p] == [p] && [p][1..] == [];
      assert PieceText(p) + [] == PieceText(p) && PieceBytes(p, ents) + [] == PieceBytes(p, ents);
    } else {
      assert (ps + [p])[1..] == ps[1..] + [p];
      SpelledAppend(ps[1..], p, ents);
    }
  }

  lemma {:induction false} Quotes(q: char, inner: seq<Piece>, ents: string -> int)
    requires IsQuote(q) && PiecesOk(inner, " \t\r\n<>/", ents)
    ensures var ps := [Plain(q)] + inner + [Plain(q)];
            Spelled(ps) == [q] + Spelled(inner) + [q] && Meant(ps, ents) == [q] + Meant(inner, ents) + [q] &&
            PiecesOk(ps, " \t\r\n<>/", ents)
  {
    hide Spelled, Meant, RefOk;
    var ps := [Plain(q)] + inner;
    assert ps[1..] == inner;
    assert Spelled(ps) == [q] + Spelled(inner) && Meant(ps, ents) == [q] + Meant(inner, ents) by { SpelledCons(Plain(q), inner, ents); }
    SpelledAppend(ps, Plain(q), ents);
  }

  lemma {:induction false} SpelledCons(p: Piece, ps: seq<Piece>, ents: string -> int)
    ensures Spelled([p] + ps) == PieceText(p) + Spelled(ps) && Meant([p] + ps, ents) == PieceBytes(p, ents) + Meant(ps, ents)
  {
    hide PieceText, PieceBytes;
    assert ([p] + ps)[1..] == ps;
  }

  /** A written open tag, with the end that is written for it */
  lemma {:induction false} OpenIsPart(name: string, attrs: seq<Attr>, wrap: int, col: int, end: string, ents: string -> int)
    returns (p: Part)
    requires StandardEntities(ents) && ElementNameOk(name) && AttrsOk(attrs) && IsEnd(end)
    ensures PartOk(p, ents) && PartText(p) == WriteOpen(name, attrs, wrap, col).text + end
  {
    hide *;
    var ps := NameIsSpelled(name, ents);
    NameStart(name);
    AttrsForms(attrs);
    EndStops(end);
    AttrsAreForms(attrs, wrap, col + |name| + 1, end, true, ents);
    var forms := FormsDoc(attrs, wrap, col + |name| + 1);
    var t := if end == ">" then TagForm(ps, forms, "", ">") else TagForm(ps, forms, " ", "/>");
    TagOk(t, name, attrs, end, ents);
    WrittenOpen(name, attrs, wrap, col, end);
    p := Open(t);
    PartIsTag(t, ents);
    assert TagText(t) == "<" + WriteName(name) + FormsText(forms) + end by { TagIs(t, end); }
  }

  lemma {:induction false} PartIsTag(t: TagForm, ents: string -> int)
    ensures PartOk(Open(t), ents) <==> TagFormOk(t, ents)
    ensures PartText(Open(t)) == TagText(t)
  {
    hide TagFormOk, TagText;
  }

  lemma {:induction false} TagIs(t: TagForm, end: string)
    requires t.space + t.close == end
    ensures TagText(t) == "<" + Spelled(t.name) + FormsText(t.forms) + end
  {
    hide Spelled, FormsText;
    assert "<" + Spelled(t.name) + FormsText(t.forms) + t.space + t.close == "<" + Spelled(t.name) + FormsText(t.forms) + (t.space + t.close);
  }

  lemma {:induction false} EndStops(end: string)
    requires IsEnd(end)
    ensures Stops(end) && (end == ">" || end == " />") && (end == " />" ==> " " + "/>" == end) && (end == ">" ==> "" + ">" == end)
  {
  }

  lemma {:induction false} WrittenOpen(name: string, attrs: seq<Attr>, wrap: int, col: int, end: string)
    requires !IsVerbatim(name)
    ensures WriteOpen(name, attrs, wrap, col).text + end
         == "<" + WriteName(name) + WriteAttrs(attrs, wrap, col + |name| + 1).text + end
  {
    hide WriteName, WriteAttrs;
  }

  lemma {:induction false} TagOk(t: TagForm, name: string, attrs: seq<Attr>, end: string, ents: string -> int)
    requires PiecesOk(t.name, " \t\r\n<>/", ents) && Meant(t.name, ents) == name && (name != [] ==> name[0] !in "?!/")
    requires forall i :: 0 <= i < |t.forms| ==> AttrFormOk(t.forms[i], ents)
    requires FormsMeant(t.forms, ents) == attrs && UniqueNames(attrs) && Separated(t.forms, end, true)
    requires t.space + t.close == end
    requires (t.space == "" && t.close == ">") || (t.space == " " && t.close == "/>")
    ensures TagFormOk(t, ents)
  {
    hide PiecesOk, AttrFormOk, Separated, UniqueNames, FormsMeant, Meant;
  }

  lemma {:induction false} AttrsForms(attrs: seq<Attr>)
    requires AttrsOk(attrs)
    ensures forall i :: 0 <= i < |attrs| ==> AttrOk(attrs[i]) && attrs[i].name != [] && attrs[i].value.Some?
    ensures UniqueNames(attrs)
  {
  }

  lemma {:induction false} NameStart(name: string)
    requires ElementNameOk(name)
    ensures !IsMarkup(name) && !IsVerbatim(name) && (name != [] ==> name[0] !in "?!/")
  {
    hide Good, NoSpace, PlainOrQuoted;
    NotMarkupStart(name);
  }

  lemma {:induction false} CloseIsPart(name: string, ents: string -> int)
    requires StandardEntities(ents) && ElementNameOk(name)
    ensures PartOk(Close(CloseForm(Escaped(name), "")), ents)
    ensures PartText(Close(CloseForm(Escaped(name), ""))) == "</" + Escape(name) + ">"
  {
    hide Escape, StandardEntities, Spelled, Meant, PiecesOk, Escaped, IsMarkup, PlainOrQuoted, Good;
    assert Free(name, " \t\r\n<>/");
    EscapedMeans(name, " \t\r\n<>/", ents);
  }

  // ----- trees -----

  /** What is written for a value */
  lemma {:induction false} ValueIsDocument(t: Tree, around: seq<Around>, before: seq<Tree>, after: seq<Tree>, wrap: int, col: int,
                                           ty: ValueType, ents: string -> int)
    returns (ps: seq<Part>)
    requires StandardEntities(ents) && !t.Element? && ValueOk(t, before, ty)
    ensures DocOk(ps, ents) && DocText(ps) == WriteNode(t, around, before, after, Silent, wrap, col).text
  {
    hide DocOk, DocText, StandardEntities, Escape, WordParts, Good, NoSpace;
    var s := match t
             case Integer(n) => Decimal(n)
             case Opaque(s) => s
             case Text(_, s) => s;
    if t.Integer? {
      GoodDecimal(t.n);
    }
    TextIsDocument(s, ents);
    var sep := if (t.Integer? && before != []) || (t.Text? && t.ws && col > 0) then Separator(col > wrap) else "";
    if sep == "" {
      ps := WordParts(s);
      assert sep + Escape(s) == Escape(s);
    } else {
      SpaceText(sep[0], ents);
      OnePart(BlankChar(sep[0]), ents);
      DocAppend([BlankChar(sep[0])], WordParts(s), ents);
      ps := [BlankChar(sep[0])] + WordParts(s);
    }
  }

  lemma {:induction false} MarkupIsPart(name: string, ents: string -> int)
    requires MarkupOk(name)
    ensures DocOk([Markup(name)], ents) && DocText([Markup(name)]) == "<" + name + ">"
  {
    hide DocOk, DocText, MarkupOk;
    OnePart(Markup(name), ents);
  }

  lemma {:induction false} NodeIsDocument(t: Tree, around: seq<Around>, before: seq<Tree>, after: seq<Tree>, wrap: int, col: int,
                                          ty: ValueType, cb: Callback, ents: string -> int)
    returns (ps: seq<Part>)
    requires StandardEntities(ents) && CanonicalNode(t, before, ty, cb)
    ensures DocOk(ps, ents) && DocText(ps) == WriteNode(t, around, before, after, Silent, wrap, col).text
    decreases t, 1
  {
    hide *;
    CanonicalCases(t, before, ty, cb);
    if !t.Element? {
      ps := ValueIsDocument(t, around, before, after, wrap, col, ty, ents);
    } else if IsMarkup(t.name) {
      MarkupIsPart(t.name, ents);
      MarkupText(t, around, before, after, Silent, wrap, col, []);
      NoSpaces(Place(around, before, t, after), col);
      assert WriteNode(t, around, before, after, Silent, wrap, col).text + []
          == "<" + t.name + ">";
      ps := [Markup(t.name)];
    } else if t.kids == [] {
      EmptyText(t, around, before, after, Silent, wrap, col, []);
      NoSpaces(Place(around, before, t, after), col);
      EndIs();
      var p := OpenIsPart(t.name, t.attrs, wrap, col, " />", ents);
      OnePart(p, ents);
      assert WriteNode(t, around, before, after, Silent, wrap, col).text + [] == PartText(p);
      ps := [p];
    } else {
      ps := FullIsDocument(t, around, before, after, wrap, col, cb, ents);
    }
  }

  lemma {:induction false} EndIs()
    ensures IsEnd(">") && IsEnd(" />")
  {
  }

  lemma {:induction false} CanonicalCases(t: Tree, before: seq<Tree>, ty: ValueType, cb: Callback)
    requires CanonicalNode(t, before, ty, cb)
    ensures !t.Element? ==> ValueOk(t, before, ty)
    ensures t.Element? && IsMarkup(t.name) ==> MarkupOk(t.name) && t.attrs == [] && t.kids == []
    ensures t.Element? && !IsMarkup(t.name) ==>
              ElementNameOk(t.name) && AttrsOk(t.attrs) && CanonicalNodes(t.kids, [], cb.TypeOf(t.name, t.attrs), cb)
  {
    hide MarkupOk, ElementNameOk, AttrsOk, ValueOk, CanonicalNodes;
  }

  lemma {:induction false} NoSpaces(p: Place, col: int)
    ensures forall w :: Silent(p, w) == []
    ensures forall c: int :: ColumnAfter([], c) == c
  {
  }

  lemma {:induction false} FullIsDocument(t: Tree, around: seq<Around>, before: seq<Tree>, after: seq<Tree>, wrap: int, col: int,
                                          cb: Callback, ents: string -> int)
    returns (ps: seq<Part>)
    requires StandardEntities(ents) && t.Element? && ElementNameOk(t.name) && !IsMarkup(t.name) && AttrsOk(t.attrs) && t.kids != []
    requires CanonicalNodes(t.kids, [], cb.TypeOf(t.name, t.attrs), cb)
    ensures DocOk(ps, ents) && DocText(ps) == WriteNode(t, around, before, after, Silent, wrap, col).text
    decreases t, 0
  {
    hide *;
    FullText(t, around, before, after, Silent, wrap, col, []);
    NoSpaces(Place(around, before, t, after), col);
    var open := WriteOpen(t.name, t.attrs, wrap, col);
    EndIs();
    var p := OpenIsPart(t.name, t.attrs, wrap, col, ">", ents);
    OnePart(p, ents);
    var inside := around + [Around(t.name, t.attrs, before, after)];
    var inner := NodesAreDocument(t.kids, inside, [], wrap, open.col + 1, cb.TypeOf(t.name, t.attrs), cb, ents);
    CloseIsPart(t.name, ents);
    var q := Close(CloseForm(Escaped(t.name), ""));
    OnePart(q, ents);
    DocAppend(inner, [q], ents);
    DocAppend([p], inner + [q], ents);
    ps := [p] + (inner + [q]);
    Nothing(open.text, ">", DocText(inner), "</" + Escape(t.name) + ">", WriteNode(t, around, before, after, Silent, wrap, col).text);
  }

  lemma {:induction false} Nothing(a: string, b: string, c: string, d: string, s: string)
    ensures [] + (a + (b + ([] + (c + ([] + (d + ([] + []))))))) == (a + b) + (c + d)
    ensures s + [] == s
  {
  }

  lemma {:induction false} NodesAreDocument(ts: seq<Tree>, around: seq<Around>, before: seq<Tree>, wrap: int, col: int,
                                            ty: ValueType, cb: Callback, ents: string -> int)
    returns (ps: seq<Part>)
    requires StandardEntities(ents) && CanonicalNodes(ts, before, ty, cb)
    ensures DocOk(ps, ents) && DocText(ps) == WriteNodes(ts, around, before, Silent, wrap, col).text
    decreases ts, 0
  {
    hide WriteNode, CanonicalNode, StandardEntities, DocOk, DocText, Escape;
    if ts == [] {
      NoParts(ents);
      ps := [];
      assert Escape([]) == [] by { EscapeNothing(); }
    } else {
      var first := NodeIsDocument(ts[0], around, before, ts[1..], wrap, col, ty, cb, ents);
      var w := WriteNode(ts[0], around, before, ts[1..], Silent, wrap, col);
      var more := NodesAreDocument(ts[1..], around, before + [ts[0]], wrap, w.col, ty, cb, ents);
      DocAppend(first, more, ents);
      ps := first + more;
    }
  }

  lemma {:induction false} EscapeNothing()
    ensures Escape([]) == []
  {
  }

  // ----- roots -----

  /** The saved text of a canonical root is a document. */
  lemma {:induction false} SaveIsDocument(t: Tree, wrap: int, cb: Callback, ents: string -> int) returns (ps: seq<Part>)
    requires StandardEntities(ents) && CanonicalRoot(t, cb)
    ensures DocOk(ps, ents) && DocText(ps) == Save(t, Silent, wrap)
  {
    hide *;
    RootCases(t, cb);
    if CanonicalNode(t, [], TextType, cb) {
      ps := NodeIsDocument(t, [], [], [], wrap, 0, TextType, cb, ents);
    } else {
      ps := StayingIsDocument(t, wrap, cb, ents);
    }
    SaveRest(t, Silent, wrap);
    var w := WriteNode(t, [], [], [], Silent, wrap, 0);
    EndsWithNewline(w.col, ents);
    if w.col > 0 {
      DocAppend(ps, [BlankChar('\n')], ents);
      ps := ps + [BlankChar('\n')];
    } else {
      assert w.text + [] == w.text;
    }
  }

  lemma {:induction false} EndsWithNewline(col: int, ents: string -> int)
    ensures DocOk([BlankChar('\n')], ents) && DocText([BlankChar('\n')]) == "\n"
    ensures EndOfFile(col) == if col > 0 then "\n" else []
  {
    assert [BlankChar('\n')][1..] == [];
  }

  lemma {:induction false} RootCases(t: Tree, cb: Callback)
    requires CanonicalRoot(t, cb)
    ensures CanonicalNode(t, [], TextType, cb) ||
            (t.Element? && MarkupOk(t.name) && IsMarkup(t.name) && t.attrs == [] && CanonicalNodes(t.kids, [], cb.TypeOf(t.name, []), cb))
  {
    hide VerbatimOk, DeclarationOk, CanonicalNode, CanonicalNodes, NotLost, IsMarkup;
    if !CanonicalNode(t, [], TextType, cb) {
      StaysIsMarkup(t.name);
    }
  }

  lemma {:induction false} StayingIsDocument(t: Tree, wrap: int, cb: Callback, ents: string -> int) returns (ps: seq<Part>)
    requires StandardEntities(ents) && t.Element? && MarkupOk(t.name) && IsMarkup(t.name) && t.attrs == []
    requires CanonicalNodes(t.kids, [], cb.TypeOf(t.name, []), cb)
    ensures DocOk(ps, ents) && DocText(ps) == WriteNode(t, [], [], [], Silent, wrap, 0).text
  {
    hide *;
    MarkupIsPart(t.name, ents);
    NoSpaces(Place([], [], t, []), 0);
    if t.kids == [] {
      MarkupText(t, [], [], [], Silent, wrap, 0, []);
      assert WriteNode(t, [], [], [], Silent, wrap, 0).text + [] == "<" + t.name + ">";
      ps := [Markup(t.name)];
    } else {
      StayingText(t, Silent, wrap, []);
      var inner := NodesAreDocument(t.kids, [] + [Around(t.name, t.attrs, [], [])], [], wrap, |t.name| + 2, cb.TypeOf(t.name, []), cb, ents);
      DocAppend([Markup(t.name)], inner, ents);
      ps := [Markup(t.name)] + inner;
      StayingJoin(t.name, DocText(inner), WriteNode(t, [], [], [], Silent, wrap, 0).text);
    }
  }

  lemma {:induction false} StayingJoin(name: string, inner: string, s: string)
    ensures [] + (['<'] + (name + ">" + ([] + (inner + [])))) == "<" + name + ">" + inner
    ensures s + [] == s
  {
  }

  /** Every respelling of a saved document loads as the tree that was saved: with characters referred to
      by number or by name, with values in single quotes or in none, with other whitespace in its tags,
      and with anything behind the names of its close tags. */
  lemma {:induction false} RespelledLoads(t: Tree, wrap: int, env: Env) returns (saved: seq<Part>)
    requires StandardEntities(env.ents) && CanonicalRoot(t, env.cb)
    ensures DocText(saved) == Save(t, Silent, wrap) && SameDocument(saved, saved, env.ents)
    ensures forall other :: SameDocument(saved, other, env.ents) ==> Load(DocText(other), env) == Some(t)
  {
    hide *;
    saved := SaveIsDocument(t, wrap, env.cb, env.ents);
    SameAsItself(saved, env.ents);
    SaveThenLoad(t, wrap, env);
    forall other | SameDocument(saved, other, env.ents)
      ensures Load(DocText(other), env) == Some(t)
    {
      SpellingDoesNotMatter(saved, other, env);
    }
  }

  lemma {:induction false} SameAsItself(ps: seq<Part>, ents: string -> int)
    requires DocOk(ps, ents)
    ensures SameDocument(ps, ps, ents)
  {
    hide PartOk;
  }
}
