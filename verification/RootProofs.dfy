/** Saving and loading whole documents. */
module RootProofs {
  import opened Options
  import opened Chars
  import opened Numbers
  import opened Trees
  import opened Reader
  import opened Writer
  import opened Canonical
  import opened TagProofs
  import opened RunProofs
  import opened RoundTrip
  import opened FinalTree

  // ----- what follows the root -----

  /** Whitespace behind a finished root is never turned into a node. */
  lemma {:induction false} TrailingSpaces(st: State, s: string, env: Env)
    requires AllSpace(s) && st.stack == [] && (st.buf == [] || st.ty == OpaqueType)
    ensures var r := Run(st, s, env); r.Stopped? && r.st.stack == [] && r.st.done == st.done
    decreases |s|
  {
    if s != [] {
      assert s == [s[0]] + s[1..];
      GetCOf(s[0], s[1..]);
      var st' := if st.ty == OpaqueType then st.(buf := st.buf + [s[0]])
                 else if st.ty == TextType then st.(ws := true) else st;
      assert Step(st, s[0], s[1..], env) == Running(st', s[1..]);
      TrailingSpaces(st', s[1..], env);
    }
  }

  /** Whitespace at the end of an element that stays open adds the buffered value, if any. */
  lemma {:induction false} TrailingInside(o: Spot, l: Local, s: string, env: Env)
    requires AllSpace(s) && Sound(l, o.Type(env.cb))
    requires o.Type(env.cb) == OpaqueType ==> l.buf == []
    requires o.below == []
    ensures var r := Run(At(o, l, env.cb), s, env);
            r.Stopped? && r.st.done == o.done && r.st.stack == [Frame(o.name, o.attrs, l.kids + (if s == [] then [] else Buffered(l, o.Type(env.cb))))]
  {
    var ty := o.Type(env.cb);
    if ty == OpaqueType {
      TrailingOpaque(o, l, s, env);
      assert l.kids + [] == l.kids;
    } else {
      RunSpaces(o, l, s, [], env);
      assert s + [] == s;
      assert Run(At(o, AfterSpaces(l, ty, s), env.cb), [], env) == Stopped(At(o, AfterSpaces(l, ty, s), env.cb));
      assert l.kids + [] == l.kids;
    }
  }

  lemma {:induction false} SpacesSplit(s: string)
    requires AllSpace(s) && s != []
    ensures IsSpace(s[0]) && GoodChar(s[0]) && AllSpace(s[1..])
  {
  }

  lemma {:induction false} RunNothing(st: State, env: Env)
    ensures Run(st, [], env) == Stopped(st)
  {
  }

  lemma {:induction false} RunOne(st: State, c: char, rest: string, st': State, env: Env)
    requires GoodChar(c) && Step(st, c, rest, env) == Running(st', rest)
    ensures Run(st, [c] + rest, env) == Run(st', rest, env)
  {
    hide Step;
    GetCOf(c, rest);
  }

  lemma {:induction false} OpaqueSpace(o: Spot, l: Local, c: char, rest: string, env: Env)
    requires IsSpace(c) && o.Type(env.cb) == OpaqueType
    ensures Step(At(o, l, env.cb), c, rest, env) == Running(At(o, l.(buf := l.buf + [c]), env.cb), rest)
  {
    hide Tag, GetEntity;
    GetCOf(c, rest);
  }

  lemma {:induction false} TrailingOpaque(o: Spot, l: Local, s: string, env: Env)
    requires AllSpace(s) && o.Type(env.cb) == OpaqueType
    ensures Run(At(o, l, env.cb), s, env) == Stopped(At(o, l.(buf := l.buf + s), env.cb))
    decreases |s|
  {
    hide *;
    if s == [] {
      assert l.buf + s == l.buf;
      RunNothing(At(o, l, env.cb), env);
    } else {
      assert s == [s[0]] + s[1..];
      SpacesSplit(s);
      var l' := l.(buf := l.buf + [s[0]]);
      OpaqueSpace(o, l, s[0], s[1..], env);
      RunOne(At(o, l, env.cb), s[0], s[1..], At(o, l', env.cb), env);
      TrailingOpaque(o, l', s[1..], env);
      assert l'.buf + s[1..] == l.buf + s;
    }
  }

  // ----- the root's own tags -----

  /** The place outside everything, where the root is written */
  function RootSpot(name: string, attrs: seq<Attr>): Spot {
    Spot([], [], name, attrs)
  }

  lemma {:induction false} RunRootTag(s: string, st: State, rest: string, env: Env)
    requires Tag(Start, s, env) == Running(st, rest)
    ensures Run(Start, ['<'] + s, env) == Run(st, rest, env)
  {
    hide Tag;
    GetCOf('<', s);
    assert Flush(Start, '<') == Flushed(Start);
    assert Start.(buf := []) == Start;
  }

  lemma {:induction false} PushRoot(name: string, attrs: seq<Attr>, cb: Callback)
    ensures Push(Start, name, attrs, cb) == At(RootSpot(name, attrs), Fresh, cb)
  {
  }

  /** The state after a root element has been closed */
  lemma {:induction false} RunRootClose(name: string, attrs: seq<Attr>, l: Local, rest: string, env: Env) returns (st: State)
    requires StandardEntities(env.ents) && ElementNameOk(name)
    requires Sound(l, env.cb.TypeOf(name, attrs))
    ensures Run(At(RootSpot(name, attrs), l, env.cb), "</" + Escape(name) + ">" + rest, env) == Run(st, rest, env)
    ensures st.done == [Element(name, attrs, l.kids + Pending(l, env.cb.TypeOf(name, attrs)))]
    ensures st.stack == [] && st.buf == []
  {
    hide Run, Tag, Escape;
    var o := RootSpot(name, attrs);
    var inner := l.kids + Pending(l, env.cb.TypeOf(name, attrs));
    var here := At(o, Local(inner, false, []), env.cb);
    var tail := "/" + Escape(name) + ">" + rest;
    assert "</" + Escape(name) + ">" + rest == ['<'] + tail;
    CloseTagOf(here, name, rest, env);
    st := Pop(here, env.cb);
    RunTag(o, l, tail, st, rest, env);
  }

  lemma {:induction false} RunRootOpen(name: string, attrs: seq<Attr>, wrap: int, end: string, rest: string, env: Env)
    requires StandardEntities(env.ents) && ElementNameOk(name) && AttrsOk(attrs) && IsEnd(end)
    ensures Run(Start, WriteOpen(name, attrs, wrap, 0).text + (end + rest), env)
              == Run(if end == ">" then At(RootSpot(name, attrs), Fresh, env.cb)
                     else AddNode(Start, Element(name, attrs, [])), rest, env)
  {
    hide Run, Tag, WriteOpen, OpenTail;
    OpenTextSplit(name, attrs, wrap, 0, end, rest);
    OpenTagOf(Start, name, attrs, wrap, 0, end, rest, env);
    PushRoot(name, attrs, env.cb);
    RunRootTag(WriteName(name) + OpenTail(name, attrs, wrap, 0, end, rest), Opened(Start, name, attrs, end, env.cb), rest, env);
  }

  // ----- the three kinds of root -----

  /** What loading the saved text gives, as far as it is promised: the same tree without a
      callback, the same tree up to empty texts and flags with one; and no other node */
  ghost predicate Reloads(s: string, t: Tree, env: Env, mute: bool) {
    var o := Run(Start, s, env);
    var r := Load(s, env);
    o.Stopped? && Single(o.st) && r.Some? && NormTree(r.value) == NormTree(t) && (mute ==> r.value == t)
  }

  function EndOfFile(col: int): string {
    if col > 0 then "\n" else []
  }

  lemma {:induction false} SaveRest(t: Tree, ws: WsCallback, wrap: int)
    ensures var w := WriteNode(t, [], [], [], ws, wrap, 0); Save(t, ws, wrap) == w.text + EndOfFile(w.col)
  {
  }

  lemma {:induction false} EmptyRoot(t: Tree, ws: WsCallback, wrap: int, env: Env, mute: bool)
    requires StandardEntities(env.ents) && Calm(ws, mute) && ws(Place([], [], t, []), BeforeOpen) == []
    requires t.Element? && ElementNameOk(t.name) && AttrsOk(t.attrs) && t.kids == []
    ensures Reloads(Save(t, ws, wrap), t, env, mute)
  {
    hide Run, WriteNode, WriteOpen, ElementNameOk, AttrsOk, NormTree, Save;
    var w := WriteNode(t, [], [], [], ws, wrap, 0);
    var more := ws(Place([], [], t, []), AfterClose) + EndOfFile(w.col);
    var open := WriteOpen(t.name, t.attrs, wrap, 0);
    SaveRest(t, ws, wrap);
    NameIsPlain(t.name);
    EmptyText(t, [], [], [], ws, wrap, 0, EndOfFile(w.col));
    assert [] + (open.text + (" />" + more)) == open.text + (" />" + more);
    RunRootOpen(t.name, t.attrs, wrap, " />", more, env);
    assert " />" != ">";
    TrailingSpaces(AddNode(Start, Element(t.name, t.attrs, [])), more, env);
  }

  lemma {:induction false} FullRoot(t: Tree, ws: WsCallback, wrap: int, env: Env, mute: bool)
    requires StandardEntities(env.ents) && Calm(ws, mute) && ws(Place([], [], t, []), BeforeOpen) == []
    requires t.Element? && !IsMarkup(t.name) && t.kids != []
    requires CanonicalNode(t, [], TextType, env.cb) && Allowed([t], env.cb, mute)
    ensures Reloads(Save(t, ws, wrap), t, env, mute)
  {
    hide *;
    var p := Place([], [], t, []);
    var o := RootSpot(t.name, t.attrs);
    var w := WriteNode(t, [], [], [], ws, wrap, 0);
    var open := WriteOpen(t.name, t.attrs, wrap, 0);
    var c2 := ColumnAfter(ws(p, AfterOpen), open.col + 1);
    var inner := WriteNodes(t.kids, [] + [Around(t.name, t.attrs, [], [])], [], ws, wrap, c2);
    CanonicalParts(t, [], TextType, env.cb);
    AllowedKids(t, env.cb, mute);
    CalmAt(ws, mute, p, AfterOpen);
    CalmAt(ws, mute, p, BeforeClose);
    CalmAt(ws, mute, p, AfterClose);
    RootType(t, env.cb);
    SaveRest(t, ws, wrap);
    OpenColumn(t.name, t.attrs, wrap, 0);
    NoColumn();
    FullText(t, [], [], [], ws, wrap, 0, EndOfFile(w.col));
    var more := ws(p, AfterClose) + EndOfFile(w.col);
    var r5 := ws(p, BeforeClose) + ("</" + Escape(t.name) + ">" + more);
    var r3 := ws(p, AfterOpen) + (inner.text + r5);
    assert [] + (open.text + (">" + r3)) == open.text + (">" + r3);
    RunRootOpen(t.name, t.attrs, wrap, ">", r3, env);
    var l2 := RunBlankAfter(o, [], ws(p, AfterOpen), [], open.col + 1, inner.text + r5, env, mute);
    var l3 := RunNodes(o, l2, t.kids, [], [] + [Around(t.name, t.attrs, [], [])], ws, wrap, c2, r5, env, mute);
    assert [] + t.kids == t.kids;
    var l4 := RunBlank(o, l3, ws(p, BeforeClose), t.kids, inner.col, "</" + Escape(t.name) + ">" + more, env, mute);
    var st := RunRootClose(t.name, t.attrs, l4, more, env);
    EndBlank(ws(p, AfterClose), w.col);
    TrailingSpaces(st, more, env);
    var kids := l4.kids + Pending(l4, env.cb.TypeOf(t.name, t.attrs));
    ClosedReloads(Save(t, ws, wrap), t, kids, env, mute);
  }

  lemma {:induction false} RootType(t: Tree, cb: Callback)
    requires t.Element?
    ensures RootSpot(t.name, t.attrs).Type(cb) == cb.TypeOf(t.name, t.attrs)
    ensures Fresh == Local([], false, []) && IsEnd(">") && IsEnd(" />")
  {
  }

  lemma {:induction false} EndBlank(s: string, col: int)
    requires AllSpace(s)
    ensures AllSpace(s + EndOfFile(col))
  {
  }

  /** The run ends behind the root, which has the same children up to empty text nodes. */
  lemma {:induction false} ClosedReloads(s: string, t: Tree, kids: seq<Tree>, env: Env, mute: bool)
    requires t.Element? && Norm(kids) == Norm(t.kids) && (mute ==> kids == t.kids)
    requires var o := Run(Start, s, env); o.Stopped? && o.st.stack == [] && o.st.done == [Element(t.name, t.attrs, kids)]
    ensures Reloads(s, t, env, mute)
  {
    hide Run, Norm;
  }

  lemma {:induction false} NoColumn()
    ensures ColumnAfter([], 0) == 0
  {
  }

  /** A comment, CDATA section, processing instruction or declaration on its own */
  lemma {:induction false} MarkupRoot(t: Tree, ws: WsCallback, wrap: int, env: Env, mute: bool)
    requires StandardEntities(env.ents) && Calm(ws, mute) && ws(Place([], [], t, []), BeforeOpen) == []
    requires t.Element? && MarkupOk(t.name) && t.attrs == [] && t.kids == []
    ensures Reloads(Save(t, ws, wrap), t, env, mute)
  {
    hide Run, WriteNode, Tag, MarkupOk, NormTree, Save;
    var w := WriteNode(t, [], [], [], ws, wrap, 0);
    var more := ws(Place([], [], t, []), AfterClose) + EndOfFile(w.col);
    SaveRest(t, ws, wrap);
    MarkupTagOf(Start, t.name, more, env);
    MarkupText(t, [], [], [], ws, wrap, 0, EndOfFile(w.col));
    assert [] + (['<'] + (t.name + ">" + more)) == ['<'] + (t.name + ">" + more);
    RunRootTag(t.name + ">" + more, Marked(Start, t.name, env.cb), more, env);
    if MayOpen(t.name) {
      PushRoot(t.name, [], env.cb);
      TrailingInside(RootSpot(t.name, []), Fresh, more, env);
      assert Fresh.kids + [] == [];
    } else {
      TrailingSpaces(AddNode(Start, t), more, env);
    }
  }

  lemma {:induction false} StayingText(t: Tree, ws: WsCallback, wrap: int, rest: string)
    requires t.Element? && IsMarkup(t.name) && t.attrs == [] && t.kids != []
    ensures var p := Place([], [], t, []);
            var c := ColumnAfter(ws(p, BeforeOpen), 0) + |t.name| + 2;
            var inner := WriteNodes(t.kids, [] + [Around(t.name, t.attrs, [], [])], [], ws, wrap, ColumnAfter(ws(p, AfterOpen), c));
            var w := WriteNode(t, [], [], [], ws, wrap, 0);
            w.text + rest == ws(p, BeforeOpen) + (['<'] + (t.name + ">" + (ws(p, AfterOpen) + (inner.text + rest)))) &&
            w.col == inner.col
  {
    hide ColumnAfter, WriteNodes;
    var p := Place([], [], t, []);
    var c := ColumnAfter(ws(p, BeforeOpen), 0) + |t.name| + 2;
    var inner := WriteNodes(t.kids, [] + [Around(t.name, t.attrs, [], [])], [], ws, wrap, ColumnAfter(ws(p, AfterOpen), c));
    Join5(ws(p, BeforeOpen), ['<'], t.name, ">", ws(p, AfterOpen), inner.text, rest);
  }

  lemma {:induction false} Join5(a: string, b: string, c: string, d: string, e: string, f: string, rest: string)
    ensures a + (b + c + []) + (d + e + f) + rest == a + (b + (c + d + (e + (f + rest))))
  {
    assert b + c + [] == b + c;
  }

  /** A processing instruction or declaration that holds the document */
  lemma {:induction false} StayingRoot(t: Tree, ws: WsCallback, wrap: int, env: Env, mute: bool)
    requires StandardEntities(env.ents) && Calm(ws, mute) && ws(Place([], [], t, []), BeforeOpen) == []
    requires t.Element? && StaysOpen(t.name) && t.attrs == [] && t.kids != [] && NotLost(t.kids)
    requires CanonicalNodes(t.kids, [], env.cb.TypeOf(t.name, []), env.cb) && Allowed([t], env.cb, mute)
    ensures Reloads(Save(t, ws, wrap), t, env, mute)
  {
    hide *;
    var p := Place([], [], t, []);
    var o := RootSpot(t.name, []);
    var ty := o.Type(env.cb);
    var w := WriteNode(t, [], [], [], ws, wrap, 0);
    var end := EndOfFile(w.col);
    var c := |t.name| + 2;
    var inner := WriteNodes(t.kids, [] + [Around(t.name, t.attrs, [], [])], [], ws, wrap, ColumnAfter(ws(p, AfterOpen), c));
    RootType(t, env.cb);
    AllowedKids(t, env.cb, mute);
    CalmAt(ws, mute, p, AfterOpen);
    SaveRest(t, ws, wrap);
    StayingTag(t.name, ws(p, AfterOpen) + (inner.text + end), env);
    NoColumn();
    StayingText(t, ws, wrap, end);
    var tail := t.name + ">" + (ws(p, AfterOpen) + (inner.text + end));
    assert [] + (['<'] + tail) == ['<'] + tail;
    var l2 := RunBlankAfter(o, [], ws(p, AfterOpen), [], c, inner.text + end, env, mute);
    var l3 := RunNodes(o, l2, t.kids, [], [] + [Around(t.name, t.attrs, [], [])], ws, wrap, ColumnAfter(ws(p, AfterOpen), c), end, env, mute);
    assert [] + t.kids == t.kids;
    NothingLost(l3, t.kids, inner.col, ty, mute);
    EndBlank([], w.col);
    assert [] + end == end;
    RootBelow(t.name);
    TrailingInside(o, l3, end, env);
    OpenReloads(Save(t, ws, wrap), t, l3.kids + (if end == [] then [] else Buffered(l3, ty)), env, mute);
  }

  lemma {:induction false} RootBelow(name: string)
    ensures var o := RootSpot(name, []); o.below == [] && o.done == [] && o.name == name && o.attrs == []
  {
  }

  /** The run ends inside the root, which has the same children up to empty text nodes. */
  lemma {:induction false} OpenReloads(s: string, t: Tree, kids: seq<Tree>, env: Env, mute: bool)
    requires t.Element? && t.attrs == [] && Norm(kids) == Norm(t.kids) && (mute ==> kids == t.kids)
    requires var o := Run(Start, s, env); o.Stopped? && o.st.done == [] && o.st.stack == [Frame(t.name, [], kids)]
    ensures Reloads(s, t, env, mute)
  {
    hide Run, Norm;
  }

  lemma {:induction false} StayingTag(name: string, rest: string, env: Env)
    requires StaysOpen(name)
    ensures IsMarkup(name)
    ensures Run(Start, ['<'] + (name + ">" + rest), env) == Run(At(RootSpot(name, []), Fresh, env.cb), rest, env)
  {
    hide Run, Tag, VerbatimOk, DeclarationOk;
    MarkupTagOf(Start, name, rest, env);
    PushRoot(name, [], env.cb);
    RunRootTag(name + ">" + rest, Marked(Start, name, env.cb), rest, env);
  }

  /** At the end of the file only the buffered characters can still become a node. */
  lemma {:induction false} NothingLost(l: Local, kids: seq<Tree>, col: int, ty: ValueType, mute: bool)
    requires Tracks(l, kids, col, ty, mute) && kids != [] && NotLost(kids)
    ensures var final := l.kids + (if EndOfFile(col) == [] then [] else Buffered(l, ty));
            Norm(final) == Norm(kids) && (mute ==> final == kids)
    ensures Sound(l, ty) && (ty == OpaqueType ==> l.buf == [])
  {
    hide StrToL;
    if l.buf == [] && l.ws && ty == TextType {
      NormSnoc(l.kids, Text(true, []));
      var extended := l.kids + [Text(true, [])];
      assert extended[|extended| - 1] == Text(true, []);
      assert l.kids + [] == l.kids;
    } else if col == 0 {
      assert l.kids + [] == l.kids;
    }
  }

  // ----- main results -----

  lemma {:induction false} SaveReloads(t: Tree, ws: WsCallback, wrap: int, env: Env, mute: bool)
    requires StandardEntities(env.ents) && Calm(ws, mute) && ws(Place([], [], t, []), BeforeOpen) == []
    requires CanonicalRoot(t, env.cb) && Allowed([t], env.cb, mute)
    ensures Reloads(Save(t, ws, wrap), t, env, mute)
  {
    hide Reloads, MarkupOk, StaysOpen;
    if t.kids == [] && IsMarkup(t.name) {
      assert MarkupOk(t.name) by { StaysIsMarkup(t.name); }
      MarkupRoot(t, ws, wrap, env, mute);
    } else if t.kids == [] {
      assert !StaysOpen(t.name) by { StaysIsMarkup(t.name); }
      EmptyRoot(t, ws, wrap, env, mute);
    } else if IsMarkup(t.name) {
      StayingRoot(t, ws, wrap, env, mute);
    } else {
      assert !StaysOpen(t.name) by { StaysIsMarkup(t.name); }
      FullRoot(t, ws, wrap, env, mute);
    }
  }

  lemma {:induction false} StaysIsMarkup(name: string)
    ensures StaysOpen(name) ==> MarkupOk(name) && IsMarkup(name)
  {
  }

  /** Round trip: saving without a whitespace callback and loading gives the same tree, for every
      canonical tree, every wrap margin and every load callback. */
  lemma {:induction false} SaveThenLoad(t: Tree, wrap: int, env: Env)
    requires StandardEntities(env.ents) && CanonicalRoot(t, env.cb)
    ensures Load(Save(t, Silent, wrap), env) == Some(t)
  {
    SaveReloads(t, Silent, wrap, env, true);
  }

  /** Two canonical trees that are saved as the same text are the same tree. */
  lemma {:induction false} SaveInjective(t: Tree, t': Tree, wrap: int, wrap': int, env: Env)
    requires StandardEntities(env.ents) && CanonicalRoot(t, env.cb) && CanonicalRoot(t', env.cb)
    requires Save(t, Silent, wrap) == Save(t', Silent, wrap')
    ensures t == t'
  {
    SaveThenLoad(t, wrap, env);
    SaveThenLoad(t', wrap', env);
  }

  /** Any whitespace callback keeps the meaning: the loaded tree is the saved one up to empty text
      nodes and whitespace flags, so no two words merge and none is split. */
  lemma {:induction false} SaveWithSpacesThenLoad(t: Tree, ws: WsCallback, wrap: int, env: Env)
    requires StandardEntities(env.ents) && CanonicalRoot(t, env.cb) && NoOpaque(t, env.cb)
    requires Blank(ws) && ws(Place([], [], t, []), BeforeOpen) == []
    ensures var r := Load(Save(t, ws, wrap), env); r.Some? && NormTree(r.value) == NormTree(t)
  {
    assert Allowed([t], env.cb, false);
    SaveReloads(t, ws, wrap, env, false);
  }

  /** In particular the library's own indentation does. */
  lemma {:induction false} SaveIndentedThenLoad(t: Tree, wrap: int, env: Env)
    requires StandardEntities(env.ents) && CanonicalRoot(t, env.cb) && NoOpaque(t, env.cb)
    ensures var r := Load(Save(t, Indent, wrap), env); r.Some? && NormTree(r.value) == NormTree(t)
  {
    forall p: Place, w: Where
      ensures AllSpace(Indent(p, w))
    {
      SpacesBlank(if |p.around| - 1 < 29 then |p.around| - 1 else 29);
    }
    SaveWithSpacesThenLoad(t, Indent, wrap, env);
  }

  lemma {:induction false} SpacesBlank(n: int)
    ensures n >= 0 ==> AllSpace(Spaces(n))
  {
    if n > 0 {
      SpacesBlank(n - 1);
    }
  }

  // ----- where the parser is lenient -----

  /** An element that is still open at the end of the input is returned as if it were closed. */
  lemma {:induction false} UnclosedLoads(name: string, attrs: seq<Attr>, wrap: int, env: Env)
    requires StandardEntities(env.ents) && ElementNameOk(name) && AttrsOk(attrs)
    ensures Load(WriteOpen(name, attrs, wrap, 0).text + ">", env) == Some(Element(name, attrs, []))
  {
    hide Run, WriteOpen;
    RunRootOpen(name, attrs, wrap, ">", [], env);
    assert ">" + [] == ">";
    RunNothing(At(RootSpot(name, attrs), Fresh, env.cb), env);
  }

  /** Two such elements are too many. */
  lemma {:induction false} TwoUnclosedFail(name: string, attrs: seq<Attr>, inner: string, innerAttrs: seq<Attr>, wrap: int, col: int, env: Env)
    requires StandardEntities(env.ents) && ElementNameOk(name)
    requires AttrsOk(attrs) && ElementNameOk(inner) && AttrsOk(innerAttrs)
    ensures Load(WriteOpen(name, attrs, wrap, 0).text + (">" + (WriteOpen(inner, innerAttrs, wrap, col).text + ">")), env) == None
  {
    hide Run, WriteOpen, ElementNameOk, AttrsOk, StandardEntities;
    var o := RootSpot(name, attrs);
    var rest := WriteOpen(inner, innerAttrs, wrap, col).text + ">";
    RunRootOpen(name, attrs, wrap, ">", rest, env);
    assert ">" + [] == ">";
    RunOpen(o, Fresh, inner, innerAttrs, wrap, col, ">", [], env);
    RunNothing(At(Inside(o, [], inner, innerAttrs), Fresh, env.cb), env);
    assert Fresh.kids + Pending(Fresh, o.Type(env.cb)) == [];
  }

  /** A tag that the end of the input cuts off after its name is taken for a whole element. */
  lemma {:induction false} CutTagLoads(name: string, env: Env)
    requires StandardEntities(env.ents) && ElementNameOk(name)
    ensures Load(['<'] + WriteName(name), env) == Some(Element(name, [], []))
  {
    hide Tag, ReadTagName, WriteName, StandardEntities;
    ReadWritten(name, [], env.ents);
    assert WriteName(name) + [] == WriteName(name);
    ReadEnd(name, env.ents);
    NotMarkupStart(name);
    TagBranch(Start, WriteName(name), name, None, [], env);
    GetCOf('<', WriteName(name));
    assert Flush(Start, '<') == Flushed(Start);
    assert Start.(buf := []) == Start;
  }

  lemma {:induction false} ReadEnd(name: string, ents: string -> int)
    ensures ReadTagName([], name, ents) == Scanned(name, None, [])
  {
  }
}
