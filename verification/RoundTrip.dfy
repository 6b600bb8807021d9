/** The main results about the parser and the printer: what is saved is loaded back. */
module RoundTrip {
  import opened Options
  import opened Chars
  import opened Numbers
  import opened Trees
  import opened Reader
  import opened Writer
  import opened Canonical
  import opened TagProofs
  import opened RunProofs

  /** A whitespace callback that returns only whitespace */
  ghost predicate Blank(ws: WsCallback) {
    forall p, w :: AllSpace(ws(p, w))
  }

  /** A whitespace callback that returns nothing */
  ghost predicate Mute(ws: WsCallback) {
    forall p, w :: ws(p, w) == []
  }

  /** Is `t` a value that the parser builds from characters of type `ty`? */
  predicate HasType(t: Tree, ty: ValueType) {
    match t
    case Element(_, _, _) => false
    case Text(_, _) => ty == TextType
    case Opaque(_) => ty == OpaqueType
    case Integer(_) => ty == IntegerType
  }

  function Last(ts: seq<Tree>): Tree
    requires ts != []
  {
    ts[|ts| - 1]
  }

  /** The parser is where the printer was after writing the children `before`: it has them all,
      up to what a tag will still make of the pending characters. `mute` says that no
      whitespace callback is at work; then it has them exactly. */
  ghost predicate Tracks(l: Local, before: seq<Tree>, col: int, ty: ValueType, mute: bool) {
    && Sound(l, ty)
    && col >= 0
    && Norm(l.kids + Pending(l, ty)) == Norm(before)
    && (mute ==> l.kids + Pending(l, ty) == before)
    && (l.buf != [] ==> before != [] && HasType(Last(before), ty) && col > 0)
    && (mute && col == 0 ==> before != [] && Last(before) == Text(true, []))
    && (ty == OpaqueType ==> mute)
  }

  // ----- columns -----

  lemma {:induction false} ColumnStays(s: string, col: int)
    requires col >= 0
    ensures ColumnAfter(s, col) >= 0
    decreases |s|
  {
    if s != [] {
      ColumnStays(s[1..], if s[0] == '\n' then 0
                          else if s[0] == '\t' then col + TAB - CRem(col + TAB, TAB)
                          else col + 1);
    }
  }

  lemma {:induction false} AttrColumn(attrs: seq<Attr>, wrap: int, col: int)
    requires col > 0
    requires forall i :: 0 <= i < |attrs| ==> AttrOk(attrs[i])
    ensures WriteAttrs(attrs, wrap, col).col > 0
    decreases |attrs|
  {
    if attrs != [] {
      assert AttrOk(attrs[0]);
      var sep := WriteSeparator(col + AttrWidth(attrs[0]) > wrap, col);
      AttrColumn(attrs[1..], wrap, sep.col + AttrWidth(attrs[0]));
    }
  }

  // ----- value nodes -----

  lemma {:induction false} NormSnoc(ts: seq<Tree>, t: Tree)
    ensures Norm(ts + [t]) == Norm(ts) + (if t.Text? && t.s == [] then [] else [NormTree(t)])
  {
    NormAppend(ts, [t]);
    NormOne(t);
  }

  /** Whitespace turns the buffered characters into a node; up to empty texts nothing changes. */
  lemma {:induction false} TracksSpaces(l: Local, before: seq<Tree>, col: int, ty: ValueType, mute: bool, s: string)
    requires Tracks(l, before, col, ty, mute) && AllSpace(s) && s != []
    ensures var l' := AfterSpaces(l, ty, s);
            Sound(l', ty) && Norm(l'.kids + Pending(l', ty)) == Norm(before) && Norm(l'.kids) == Norm(before)
    ensures mute && (before != [] ==> Last(before) != Text(true, [])) ==> AfterSpaces(l, ty, s).kids == before
  {
    hide StrToL;
    var l' := AfterSpaces(l, ty, s);
    if ty == TextType {
      NormSnoc(l'.kids, Text(true, []));
      if l.buf == [] && l.ws {
        NormSnoc(l.kids, Text(true, []));
        assert l'.kids == l.kids;
        assert mute ==> before[|before| - 1] == Text(true, []);
      }
    } else {
      assert l'.kids + [] == l'.kids;
    }
  }

  lemma {:induction false} RunText(o: Spot, l: Local, t: Tree, before: seq<Tree>, after: seq<Tree>, around: seq<Around>, ws: WsCallback,
                                   wrap: int, col: int, rest: string, env: Env, mute: bool) returns (l': Local)
    requires StandardEntities(env.ents)
    requires t.Text? && ValueOk(t, before, o.Type(env.cb)) && Tracks(l, before, col, o.Type(env.cb), mute)
    ensures var w := WriteNode(t, around, before, after, ws, wrap, col);
            Run(At(o, l, env.cb), w.text + rest, env) == Run(At(o, l', env.cb), rest, env) &&
            Tracks(l', before + [t], w.col, o.Type(env.cb), mute)
  {
    hide Run, Norm, NormTree, AfterSpaces, Escape, Good, NoSpace;
    var sep := if t.ws && col > 0 then WriteSeparator(col > wrap, col) else Written([], col);
    assert WriteNode(t, around, before, after, ws, wrap, col).text + rest == sep.text + (Escape(t.s) + rest);
    var l1 := if sep.text == [] then l else Local(l.kids + Buffered(l, TextType), true, []);
    assert Run(At(o, l, env.cb), sep.text + (Escape(t.s) + rest), env) == Run(At(o, l1, env.cb), Escape(t.s) + rest, env) by {
      SeparatorRun(o, l, sep.text, Escape(t.s) + rest, env);
    }
    assert l1.buf == [];
    RunData(At(o, l1, env.cb), t.s, rest, env);
    l' := Local(l1.kids, l1.ws, t.s);
    assert l1.buf + t.s == t.s;
    assert At(o, l1, env.cb).(buf := t.s) == At(o, l', env.cb);
    NormSnoc(before, t);
    NormSnoc(l1.kids, Text(l1.ws, t.s));
    assert NormTree(t) == NormTree(Text(l1.ws, t.s)) by { NormText(t, l1.ws); }
    assert Norm(l1.kids) == Norm(before) by {
      if sep.text == [] {
        if l.ws {
          NormSnoc(l.kids, Text(true, []));
        } else {
          assert l.kids + [] == l.kids;
        }
      } else {
        TracksSpaces(l, before, col, TextType, mute, sep.text);
        SeparatorAfter(l, sep.text);
      }
    }
  }

  lemma {:induction false} NormText(t: Tree, ws: bool)
    requires t.Text?
    ensures NormTree(t) == NormTree(Text(ws, t.s))
  {
  }

  lemma {:induction false} SeparatorAfter(l: Local, sep: string)
    requires sep != []
    ensures AfterSpaces(l, TextType, sep) == Local(l.kids + Buffered(l, TextType), true, [])
  {
  }

  lemma {:induction false} SeparatorRun(o: Spot, l: Local, sep: string, rest: string, env: Env)
    requires AllSpace(sep) && Sound(l, o.Type(env.cb)) && o.Type(env.cb) == TextType
    ensures Run(At(o, l, env.cb), sep + rest, env)
         == Run(At(o, if sep == [] then l else Local(l.kids + Buffered(l, TextType), true, []), env.cb), rest, env)
  {
    hide Run;
    RunSpaces(o, l, sep, rest, env);
  }

  lemma {:induction false} RunOpaque(o: Spot, l: Local, t: Tree, before: seq<Tree>, after: seq<Tree>, around: seq<Around>, ws: WsCallback,
                                     wrap: int, col: int, rest: string, env: Env, mute: bool) returns (l': Local)
    requires StandardEntities(env.ents)
    requires t.Opaque? && ValueOk(t, before, o.Type(env.cb)) && Tracks(l, before, col, o.Type(env.cb), mute)
    ensures var w := WriteNode(t, around, before, after, ws, wrap, col);
            Run(At(o, l, env.cb), w.text + rest, env) == Run(At(o, l', env.cb), rest, env) &&
            Tracks(l', before + [t], w.col, o.Type(env.cb), mute)
  {
    hide Run, Norm, NormTree, Escape, Good;
    assert l.buf == [];
    RunData(At(o, l, env.cb), t.s, rest, env);
    l' := Local(l.kids, false, t.s);
    assert l.buf + t.s == t.s;
    assert At(o, l, env.cb).(buf := t.s) == At(o, l', env.cb);
    assert l.kids + [] == l.kids;
  }

  lemma {:induction false} GoodDecimal(n: int)
    requires -0x8000_0000 <= n < 0x8000_0000
    ensures StrToL(Decimal(n), 0) == (n, |Decimal(n)|) && ToInt32(n) == n
    ensures Decimal(n) != [] && Good(Decimal(n)) && NoSpace(Decimal(n))
  {
    DecimalRoundTrip(n);
  }

  lemma {:induction false} RunInteger(o: Spot, l: Local, t: Tree, before: seq<Tree>, after: seq<Tree>, around: seq<Around>, ws: WsCallback,
                                      wrap: int, col: int, rest: string, env: Env, mute: bool) returns (l': Local)
    requires StandardEntities(env.ents)
    requires t.Integer? && ValueOk(t, before, o.Type(env.cb)) && Tracks(l, before, col, o.Type(env.cb), mute)
    ensures var w := WriteNode(t, around, before, after, ws, wrap, col);
            Run(At(o, l, env.cb), w.text + rest, env) == Run(At(o, l', env.cb), rest, env) &&
            Tracks(l', before + [t], w.col, o.Type(env.cb), mute)
  {
    hide Run, Norm, NormTree, Escape, Decimal, StrToL, ToInt32, Good, NoSpace;
    var d := Decimal(t.n);
    GoodDecimal(t.n);
    var sep := if before != [] then WriteSeparator(col > wrap, col) else Written([], col);
    assert WriteNode(t, around, before, after, ws, wrap, col).text + rest == sep.text + (Escape(d) + rest);
    var l1 := AfterSpaces(l, IntegerType, sep.text);
    RunSpaces(o, l, sep.text, Escape(d) + rest, env);
    RunData(At(o, l1, env.cb), d, rest, env);
    l' := Local(l1.kids, false, d);
    assert l1.buf + d == d;
    assert At(o, l1, env.cb).(buf := d) == At(o, l', env.cb);
    assert l.kids + [] == l.kids;
    assert l1.kids == l.kids + Pending(l, IntegerType);
    NormSnoc(before, t);
    NormSnoc(l1.kids, t);
  }

  lemma {:induction false} RunValue(o: Spot, l: Local, t: Tree, before: seq<Tree>, after: seq<Tree>, around: seq<Around>, ws: WsCallback,
                                    wrap: int, col: int, rest: string, env: Env, mute: bool) returns (l': Local)
    requires StandardEntities(env.ents)
    requires !t.Element? && ValueOk(t, before, o.Type(env.cb)) && Tracks(l, before, col, o.Type(env.cb), mute)
    ensures var w := WriteNode(t, around, before, after, ws, wrap, col);
            Run(At(o, l, env.cb), w.text + rest, env) == Run(At(o, l', env.cb), rest, env) &&
            Tracks(l', before + [t], w.col, o.Type(env.cb), mute)
  {
    hide Run, WriteNode, Tracks, ValueOk;
    if t.Text? {
      l' := RunText(o, l, t, before, after, around, ws, wrap, col, rest, env, mute);
    } else if t.Opaque? {
      l' := RunOpaque(o, l, t, before, after, around, ws, wrap, col, rest, env, mute);
    } else {
      l' := RunInteger(o, l, t, before, after, around, ws, wrap, col, rest, env, mute);
    }
  }

  // ----- elements -----

  /** What is known about a whitespace callback: only whitespace, and nothing at all if `mute` */
  ghost predicate Calm(ws: WsCallback, mute: bool) {
    Blank(ws) && (mute ==> Mute(ws))
  }

  /** Whitespace before a tag: afterwards a tag finds the same children, up to empty texts. */
  lemma {:induction false} RunBlank(o: Spot, l: Local, s: string, before: seq<Tree>, col: int, rest: string, env: Env, mute: bool)
      returns (l': Local)
    requires AllSpace(s) && (mute ==> s == [])
    requires Tracks(l, before, col, o.Type(env.cb), mute)
    ensures Run(At(o, l, env.cb), s + rest, env) == Run(At(o, l', env.cb), rest, env)
    ensures var ty := o.Type(env.cb);
            Sound(l', ty) && Norm(l'.kids + Pending(l', ty)) == Norm(before) &&
            (mute ==> l'.kids + Pending(l', ty) == before)
  {
    hide Run, AfterSpaces;
    var ty := o.Type(env.cb);
    l' := AfterSpaces(l, ty, s);
    RunSpaces(o, l, s, rest, env);
    if s == [] {
      assert l' == l by { SpacesNone(l, ty); }
    } else {
      TracksSpaces(l, before, col, ty, mute, s);
    }
  }

  lemma {:induction false} SpacesNone(l: Local, ty: ValueType)
    ensures AfterSpaces(l, ty, []) == l
  {
  }

  /** Whitespace after a tag, where nothing is pending */
  lemma {:induction false} RunBlankAfter(o: Spot, kids: seq<Tree>, s: string, before: seq<Tree>, col: int, rest: string,
                                         env: Env, mute: bool) returns (l': Local)
    requires AllSpace(s) && (mute ==> s == []) && (o.Type(env.cb) == OpaqueType ==> mute)
    requires Norm(kids) == Norm(before) && (mute ==> kids == before && col > 0) && col >= 0
    ensures Run(At(o, Local(kids, false, []), env.cb), s + rest, env) == Run(At(o, l', env.cb), rest, env)
    ensures Tracks(l', before, ColumnAfter(s, col), o.Type(env.cb), mute)
  {
    hide Run, Norm;
    var l := Local(kids, false, []);
    var ty := o.Type(env.cb);
    RunSpaces(o, l, s, rest, env);
    ColumnStays(s, col);
    l' := AfterSpaces(l, ty, s);
    assert kids + [] == kids;
    if ty == TextType {
      NormSnoc(kids, Text(true, []));
    }
  }

  lemma {:induction false} NormElement(kids: seq<Tree>, before: seq<Tree>, t: Tree, t': Tree)
    requires t.Element? && t'.Element? && t.name == t'.name && t.attrs == t'.attrs
    requires Norm(t.kids) == Norm(t'.kids) && Norm(kids) == Norm(before)
    ensures Norm(kids + [t']) == Norm(before + [t])
  {
    NormSnoc(kids, t');
    NormSnoc(before, t);
  }

  lemma {:induction false} MarkupText(t: Tree, around: seq<Around>, before: seq<Tree>, after: seq<Tree>, ws: WsCallback, wrap: int, col: int, rest: string)
    requires t.Element? && IsMarkup(t.name) && t.attrs == [] && t.kids == []
    ensures var p := Place(around, before, t, after);
            var c := ColumnAfter(ws(p, BeforeOpen), col) + |t.name| + 2;
            WriteNode(t, around, before, after, ws, wrap, col).text + rest
              == ws(p, BeforeOpen) + (['<'] + (t.name + ">" + (ws(p, AfterClose) + rest))) &&
            WriteNode(t, around, before, after, ws, wrap, col).col == ColumnAfter(ws(p, AfterClose), c)
  {
    hide ColumnAfter;
    var p := Place(around, before, t, after);
    assert WriteOpen(t.name, [], wrap, ColumnAfter(ws(p, BeforeOpen), col)).text == ['<'] + t.name;
    Join4(ws(p, BeforeOpen), ['<'], t.name, ">", ws(p, AfterClose), rest);
  }

  lemma {:induction false} Join4(a: string, b: string, c: string, d: string, e: string, rest: string)
    ensures a + (b + c) + (d + e) + rest == a + (b + (c + d + (e + rest)))
  {
  }

  lemma {:induction false} RunMarkupElement(o: Spot, l: Local, t: Tree, before: seq<Tree>, after: seq<Tree>, around: seq<Around>, ws: WsCallback,
                                            wrap: int, col: int, rest: string, env: Env, mute: bool) returns (l': Local)
    requires StandardEntities(env.ents) && Calm(ws, mute)
    requires t.Element? && IsMarkup(t.name) && MarkupOk(t.name) && t.attrs == [] && t.kids == []
    requires Tracks(l, before, col, o.Type(env.cb), mute)
    ensures var w := WriteNode(t, around, before, after, ws, wrap, col);
            Run(At(o, l, env.cb), w.text + rest, env) == Run(At(o, l', env.cb), rest, env) &&
            Tracks(l', before + [t], w.col, o.Type(env.cb), mute)
  {
    hide Run, WriteNode, MarkupOk, Norm, ColumnAfter, Pending;
    var p := Place(around, before, t, after);
    var behind := ws(p, AfterClose);
    var c := ColumnAfter(ws(p, BeforeOpen), col);
    ColumnStays(ws(p, BeforeOpen), col);
    MarkupText(t, around, before, after, ws, wrap, col, rest);
    var l1 := RunBlank(o, l, ws(p, BeforeOpen), before, col, ['<'] + (t.name + ">" + (behind + rest)), env, mute);
    var kids := l1.kids + Pending(l1, o.Type(env.cb));
    RunMarkup(o, l1, t.name, behind + rest, env);
    NormElement(kids, before, t, t);
    l' := RunBlankAfter(o, kids + [t], behind, before + [t], c + |t.name| + 2, rest, env, mute);
  }

  lemma {:induction false} EmptyText(t: Tree, around: seq<Around>, before: seq<Tree>, after: seq<Tree>, ws: WsCallback, wrap: int, col: int, rest: string)
    requires t.Element? && !IsMarkup(t.name) && t.kids == []
    ensures var p := Place(around, before, t, after);
            var c := ColumnAfter(ws(p, BeforeOpen), col);
            var open := WriteOpen(t.name, t.attrs, wrap, c);
            WriteNode(t, around, before, after, ws, wrap, col).text + rest
              == ws(p, BeforeOpen) + (open.text + (" />" + (ws(p, AfterClose) + rest))) &&
            WriteNode(t, around, before, after, ws, wrap, col).col == ColumnAfter(ws(p, AfterClose), open.col + 3)
  {
    hide ColumnAfter, WriteOpen;
    var p := Place(around, before, t, after);
    Join3(ws(p, BeforeOpen), WriteOpen(t.name, t.attrs, wrap, ColumnAfter(ws(p, BeforeOpen), col)).text,
          " />", ws(p, AfterClose), rest);
  }

  lemma {:induction false} Join3(a: string, b: string, c: string, d: string, rest: string)
    ensures a + b + (c + d) + rest == a + (b + (c + (d + rest)))
  {
  }

  lemma {:induction false} OpenColumn(name: string, attrs: seq<Attr>, wrap: int, col: int)
    requires ElementNameOk(name) && AttrsOk(attrs) && col >= 0
    ensures WriteOpen(name, attrs, wrap, col).col > 0
  {
    AttrColumn(attrs, wrap, col + |name| + 1);
  }

  lemma {:induction false} RunEmptyElement(o: Spot, l: Local, t: Tree, before: seq<Tree>, after: seq<Tree>, around: seq<Around>, ws: WsCallback,
                                           wrap: int, col: int, rest: string, env: Env, mute: bool) returns (l': Local)
    requires StandardEntities(env.ents) && Calm(ws, mute)
    requires t.Element? && ElementNameOk(t.name) && AttrsOk(t.attrs) && t.kids == []
    requires Tracks(l, before, col, o.Type(env.cb), mute)
    ensures var w := WriteNode(t, around, before, after, ws, wrap, col);
            Run(At(o, l, env.cb), w.text + rest, env) == Run(At(o, l', env.cb), rest, env) &&
            Tracks(l', before + [t], w.col, o.Type(env.cb), mute)
  {
    hide Run, WriteNode, WriteOpen, ElementNameOk, AttrsOk, Norm, ColumnAfter, Pending;
    var p := Place(around, before, t, after);
    var behind := ws(p, AfterClose);
    var c := ColumnAfter(ws(p, BeforeOpen), col);
    var open := WriteOpen(t.name, t.attrs, wrap, c);
    ColumnStays(ws(p, BeforeOpen), col);
    OpenColumn(t.name, t.attrs, wrap, c);
    assert !IsMarkup(t.name) by { NameIsPlain(t.name); }
    EmptyText(t, around, before, after, ws, wrap, col, rest);
    var l1 := RunBlank(o, l, ws(p, BeforeOpen), before, col, open.text + (" />" + (behind + rest)), env, mute);
    var kids := l1.kids + Pending(l1, o.Type(env.cb));
    RunOpen(o, l1, t.name, t.attrs, wrap, c, " />", behind + rest, env);
    assert " />" != ">";
    NormElement(kids, before, t, t);
    assert Element(t.name, t.attrs, []) == t;
    l' := RunBlankAfter(o, kids + [t], behind, before + [t], open.col + 3, rest, env, mute);
  }

  lemma {:induction false} NameIsPlain(name: string)
    requires ElementNameOk(name)
    ensures !IsMarkup(name)
  {
  }

  // ----- elements with children -----

  lemma {:induction false} FullText(t: Tree, around: seq<Around>, before: seq<Tree>, after: seq<Tree>, ws: WsCallback, wrap: int, col: int, rest: string)
    requires t.Element? && !IsMarkup(t.name) && t.kids != []
    ensures var p := Place(around, before, t, after);
            var c := ColumnAfter(ws(p, BeforeOpen), col);
            var open := WriteOpen(t.name, t.attrs, wrap, c);
            var c2 := ColumnAfter(ws(p, AfterOpen), open.col + 1);
            var inner := WriteNodes(t.kids, around + [Around(t.name, t.attrs, before, after)], [], ws, wrap, c2);
            var w := WriteNode(t, around, before, after, ws, wrap, col);
            w.text + rest == ws(p, BeforeOpen) + (open.text + (">" + (ws(p, AfterOpen) +
              (inner.text + (ws(p, BeforeClose) + ("</" + Escape(t.name) + ">" + (ws(p, AfterClose) + rest))))))) &&
            w.col == ColumnAfter(ws(p, AfterClose), ColumnAfter(ws(p, BeforeClose), inner.col) + |t.name| + 3)
  {
    hide ColumnAfter, WriteOpen, WriteNodes, Escape;
    var p := Place(around, before, t, after);
    var c := ColumnAfter(ws(p, BeforeOpen), col);
    var open := WriteOpen(t.name, t.attrs, wrap, c);
    var c2 := ColumnAfter(ws(p, AfterOpen), open.col + 1);
    var inner := WriteNodes(t.kids, around + [Around(t.name, t.attrs, before, after)], [], ws, wrap, c2);
    Join8(ws(p, BeforeOpen), open.text, ws(p, AfterOpen), inner.text, ws(p, BeforeClose), Escape(t.name), ws(p, AfterClose), rest);
  }

  lemma {:induction false} Join8(a: string, b: string, c: string, d: string, e: string, f: string, g: string, rest: string)
    ensures a + b + (">" + c + (d + e + "</" + f + ">" + g)) + rest
         == a + (b + (">" + (c + (d + (e + ("</" + f + ">" + (g + rest)))))))
  {
    var x := d + e + "</" + f + ">" + g;
    assert x + rest == d + (e + ("</" + f + ">" + (g + rest)));
    assert a + b + (">" + c + x) + rest == a + (b + (">" + (c + (x + rest))));
  }

  /** The part of an element after its children: indentation, close tag, newline */
  lemma {:induction false} RunElementEnd(o: Spot, kids: seq<Tree>, l: Local, t: Tree, before: seq<Tree>, p: Place, ws: WsCallback,
                                         col: int, rest: string, env: Env, mute: bool) returns (l': Local)
    requires StandardEntities(env.ents) && Calm(ws, mute)
    requires t.Element? && ElementNameOk(t.name)
    requires Norm(kids) == Norm(before) && (mute ==> kids == before)
    requires o.Type(env.cb) == OpaqueType ==> mute
    requires Tracks(l, t.kids, col, env.cb.TypeOf(t.name, t.attrs), mute)
    ensures Run(At(Inside(o, kids, t.name, t.attrs), l, env.cb),
                ws(p, BeforeClose) + ("</" + Escape(t.name) + ">" + (ws(p, AfterClose) + rest)), env)
         == Run(At(o, l', env.cb), rest, env)
    ensures Tracks(l', before + [t],
                   ColumnAfter(ws(p, AfterClose), ColumnAfter(ws(p, BeforeClose), col) + |t.name| + 3),
                   o.Type(env.cb), mute)
  {
    hide Run, Escape, Norm, ColumnAfter, Pending;
    var o' := Inside(o, kids, t.name, t.attrs);
    var ty := env.cb.TypeOf(t.name, t.attrs);
    var after := ws(p, AfterClose);
    ColumnStays(ws(p, BeforeClose), col);
    var l1 := RunBlank(o', l, ws(p, BeforeClose), t.kids, col, "</" + Escape(t.name) + ">" + (after + rest), env, mute);
    var inner := l1.kids + Pending(l1, ty);
    RunClose(o, kids, t.name, t.attrs, l1, after + rest, env);
    var t' := Element(t.name, t.attrs, inner);
    NormElement(kids, before, t, t');
    assert mute ==> t' == t;
    l' := RunBlankAfter(o, kids + [t'], after, before + [t], ColumnAfter(ws(p, BeforeClose), col) + |t.name| + 3, rest, env, mute);
  }

  /** No element among `ts`, at any depth, holds opaque values, unless the callback is mute. */
  ghost predicate Allowed(ts: seq<Tree>, cb: Callback, mute: bool) {
    mute || forall i :: 0 <= i < |ts| ==> NoOpaque(ts[i], cb)
  }

  /** An element without children, or with children that the parser follows */
  lemma {:induction false} RunElement(o: Spot, l: Local, t: Tree, before: seq<Tree>, after: seq<Tree>, around: seq<Around>, ws: WsCallback,
                                      wrap: int, col: int, rest: string, env: Env, mute: bool) returns (l': Local)
    requires StandardEntities(env.ents) && Calm(ws, mute)
    requires t.Element? && CanonicalNode(t, before, o.Type(env.cb), env.cb) && Allowed([t], env.cb, mute)
    requires Tracks(l, before, col, o.Type(env.cb), mute)
    ensures var w := WriteNode(t, around, before, after, ws, wrap, col);
            Run(At(o, l, env.cb), w.text + rest, env) == Run(At(o, l', env.cb), rest, env) &&
            Tracks(l', before + [t], w.col, o.Type(env.cb), mute)
    decreases t, 1
  {
    if IsMarkup(t.name) {
      l' := RunMarkupElement(o, l, t, before, after, around, ws, wrap, col, rest, env, mute);
    } else if t.kids == [] {
      l' := RunEmptyElement(o, l, t, before, after, around, ws, wrap, col, rest, env, mute);
    } else {
      l' := RunFullElement(o, l, t, before, after, around, ws, wrap, col, rest, env, mute);
    }
  }

  lemma {:induction false} RunFullElement(o: Spot, l: Local, t: Tree, before: seq<Tree>, after: seq<Tree>, around: seq<Around>, ws: WsCallback,
                                          wrap: int, col: int, rest: string, env: Env, mute: bool) returns (l': Local)
    requires StandardEntities(env.ents) && Calm(ws, mute)
    requires t.Element? && !IsMarkup(t.name) && t.kids != []
    requires CanonicalNode(t, before, o.Type(env.cb), env.cb) && Allowed([t], env.cb, mute)
    requires Tracks(l, before, col, o.Type(env.cb), mute)
    ensures var w := WriteNode(t, around, before, after, ws, wrap, col);
            Run(At(o, l, env.cb), w.text + rest, env) == Run(At(o, l', env.cb), rest, env) &&
            Tracks(l', before + [t], w.col, o.Type(env.cb), mute)
    decreases t, 0
  {
    hide *;
    var p := Place(around, before, t, after);
    var ty := env.cb.TypeOf(t.name, t.attrs);
    CanonicalParts(t, before, o.Type(env.cb), env.cb);
    AllowedKids(t, env.cb, mute);
    TracksParts(l, before, col, o.Type(env.cb), mute);
    CalmAt(ws, mute, p, BeforeOpen);
    CalmAt(ws, mute, p, AfterOpen);
    var c := ColumnAfter(ws(p, BeforeOpen), col);
    var open := WriteOpen(t.name, t.attrs, wrap, c);
    var c2 := ColumnAfter(ws(p, AfterOpen), open.col + 1);
    var inner := WriteNodes(t.kids, around + [Around(t.name, t.attrs, before, after)], [], ws, wrap, c2);
    ColumnStays(ws(p, BeforeOpen), col);
    OpenColumn(t.name, t.attrs, wrap, c);
    FullText(t, around, before, after, ws, wrap, col, rest);
    var r5 := ws(p, BeforeClose) + ("</" + Escape(t.name) + ">" + (ws(p, AfterClose) + rest));
    var r3 := ws(p, AfterOpen) + (inner.text + r5);
    var l1 := RunBlank(o, l, ws(p, BeforeOpen), before, col, open.text + (">" + r3), env, mute);
    var kids := l1.kids + Pending(l1, o.Type(env.cb));
    InsideType(o, kids, t.name, t.attrs, env.cb);
    RunOpen(o, l1, t.name, t.attrs, wrap, c, ">", r3, env);
    var o' := Inside(o, kids, t.name, t.attrs);
    var l2 := RunBlankAfter(o', [], ws(p, AfterOpen), [], open.col + 1, inner.text + r5, env, mute);
    var l3 := RunNodes(o', l2, t.kids, [], around + [Around(t.name, t.attrs, before, after)], ws, wrap, c2, r5, env, mute);
    assert [] + t.kids == t.kids;
    l' := RunElementEnd(o, kids, l3, t, before, p, ws, inner.col, rest, env, mute);
  }

  lemma {:induction false} CanonicalParts(t: Tree, before: seq<Tree>, ty: ValueType, cb: Callback)
    requires t.Element? && !IsMarkup(t.name) && CanonicalNode(t, before, ty, cb)
    ensures ElementNameOk(t.name) && AttrsOk(t.attrs) && CanonicalNodes(t.kids, [], cb.TypeOf(t.name, t.attrs), cb)
  {
    hide ElementNameOk, AttrsOk, CanonicalNodes;
  }

  lemma {:induction false} AllowedKids(t: Tree, cb: Callback, mute: bool)
    requires t.Element? && Allowed([t], cb, mute)
    ensures Allowed(t.kids, cb, mute) && (cb.TypeOf(t.name, t.attrs) == OpaqueType ==> mute)
  {
    if !mute {
      assert NoOpaque([t][0], cb);
    }
  }

  lemma {:induction false} TracksParts(l: Local, before: seq<Tree>, col: int, ty: ValueType, mute: bool)
    requires Tracks(l, before, col, ty, mute)
    ensures col >= 0 && (ty == OpaqueType ==> mute)
  {
  }

  lemma {:induction false} CalmAt(ws: WsCallback, mute: bool, p: Place, w: Where)
    requires Calm(ws, mute)
    ensures AllSpace(ws(p, w)) && (mute ==> ws(p, w) == [])
  {
  }

  lemma {:induction false} InsideType(o: Spot, kids: seq<Tree>, name: string, attrs: seq<Attr>, cb: Callback)
    ensures Inside(o, kids, name, attrs).Type(cb) == cb.TypeOf(name, attrs) && IsEnd(">") && Fresh == Local([], false, [])
  {
  }

  /** The parser follows the printer over a list of siblings. */
  lemma {:induction false} RunNodes(o: Spot, l: Local, ts: seq<Tree>, before: seq<Tree>, around: seq<Around>, ws: WsCallback,
                                    wrap: int, col: int, rest: string, env: Env, mute: bool) returns (l': Local)
    requires StandardEntities(env.ents) && Calm(ws, mute)
    requires CanonicalNodes(ts, before, o.Type(env.cb), env.cb) && Allowed(ts, env.cb, mute)
    requires Tracks(l, before, col, o.Type(env.cb), mute)
    ensures var w := WriteNodes(ts, around, before, ws, wrap, col);
            Run(At(o, l, env.cb), w.text + rest, env) == Run(At(o, l', env.cb), rest, env) &&
            Tracks(l', before + ts, w.col, o.Type(env.cb), mute)
    decreases ts, 0
  {
    hide Run, WriteNode, Tracks, NoOpaque;
    if ts == [] {
      l' := l;
      assert before + ts == before;
      assert WriteNodes(ts, around, before, ws, wrap, col).text + rest == rest;
    } else {
      var t := ts[0];
      var w := WriteNode(t, around, before, ts[1..], ws, wrap, col);
      var more := WriteNodes(ts[1..], around, before + [t], ws, wrap, w.col);
      assert WriteNodes(ts, around, before, ws, wrap, col).text + rest == w.text + (more.text + rest);
      var l1: Local;
      if t.Element? {
        l1 := RunElement(o, l, t, before, ts[1..], around, ws, wrap, col, more.text + rest, env, mute);
      } else {
        l1 := RunValue(o, l, t, before, ts[1..], around, ws, wrap, col, more.text + rest, env, mute);
      }
      l' := RunNodes(o, l1, ts[1..], before + [t], around, ws, wrap, w.col, rest, env, mute);
      assert before + [t] + ts[1..] == before + ts;
    }
  }
}
