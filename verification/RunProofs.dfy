/** How the parser's main loop runs over the pieces of text that the printer writes, when it is
    inside an open element. */
module RunProofs {
  import opened Options
  import opened Chars
  import opened Numbers
  import opened Trees
  import opened Reader
  import opened Writer
  import opened Canonical
  import opened TagProofs

  /** An open element and everything outside it */
  datatype Spot = Spot(done: seq<Tree>, below: seq<Frame>, name: string, attrs: seq<Attr>) {
    function Type(cb: Callback): ValueType {
      cb.TypeOf(name, attrs)
    }
  }

  /** What the parser has seen inside that element: finished children, the pending-whitespace
      flag, and the buffered characters */
  datatype Local = Local(kids: seq<Tree>, ws: bool, buf: string)

  const Fresh := Local([], false, [])

  function At(o: Spot, l: Local, cb: Callback): State {
    State(o.done, o.below + [Frame(o.name, o.attrs, l.kids)], o.Type(cb), l.ws, l.buf)
  }

  /** The element `name` opened inside `o` after the children `kids` */
  function Inside(o: Spot, kids: seq<Tree>, name: string, attrs: seq<Attr>): Spot {
    Spot(o.done, o.below + [Frame(o.name, o.attrs, kids)], name, attrs)
  }

  /** The node that the buffered characters will become */
  function Buffered(l: Local, ty: ValueType): seq<Tree> {
    if l.buf == [] then []
    else
      match ty
      case IgnoreType => []
      case TextType => [Text(l.ws, l.buf)]
      case OpaqueType => [Opaque(l.buf)]
      case IntegerType => [Integer(ToInt32(StrToL(l.buf, 0).0))]
  }

  /** The node that a tag makes of what is pending */
  function Pending(l: Local, ty: ValueType): seq<Tree> {
    if l.buf == [] && l.ws && ty == TextType then [Text(true, [])] else Buffered(l, ty)
  }

  ghost predicate Sound(l: Local, ty: ValueType) {
    && (l.ws ==> ty == TextType)
    && (ty == IntegerType && l.buf != [] ==> StrToL(l.buf, 0).1 == |l.buf|)
  }

  // ----- the tree under construction -----

  lemma {:induction false} AddNodeAt(o: Spot, l: Local, t: Tree, cb: Callback)
    ensures AddNode(At(o, l, cb), t) == At(o, l.(kids := l.kids + [t]), cb)
  {
    assert At(o, l, cb).stack[..|o.below|] == o.below;
  }

  lemma {:induction false} PushAt(o: Spot, kids: seq<Tree>, name: string, attrs: seq<Attr>, cb: Callback)
    ensures Push(At(o, Local(kids, false, []), cb), name, attrs, cb) == At(Inside(o, kids, name, attrs), Fresh, cb)
  {
  }

  lemma {:induction false} PopAt(o: Spot, kids: seq<Tree>, name: string, attrs: seq<Attr>, inner: seq<Tree>, cb: Callback)
    ensures Pop(At(Inside(o, kids, name, attrs), Local(inner, false, []), cb), cb)
         == At(o, Local(kids + [Element(name, attrs, inner)], false, []), cb)
  {
    var outer := At(o, Local(kids, false, []), cb);
    var st := At(Inside(o, kids, name, attrs), Local(inner, false, []), cb);
    assert st.stack[..|st.stack| - 1] == outer.stack;
    assert outer.stack[..|o.below|] == o.below;
  }

  // ----- whitespace -----

  function AfterSpaces(l: Local, ty: ValueType, s: string): Local {
    if s == [] then l else Local(l.kids + Buffered(l, ty), ty == TextType, [])
  }

  lemma {:induction false} FlushSpace(o: Spot, l: Local, c: char, cb: Callback)
    requires IsSpace(c) && Sound(l, o.Type(cb)) && o.Type(cb) != OpaqueType
    ensures Flush(At(o, l, cb), c) == Flushed(At(o, AfterSpaces(l, o.Type(cb), [c]), cb))
  {
    hide StrToL;
    if l.buf != [] && o.Type(cb) != IgnoreType {
      AddNodeAt(o, l, Buffered(l, o.Type(cb))[0], cb);
    }
    assert l.kids + [] == l.kids;
  }

  lemma {:induction false} RunSpace(o: Spot, l: Local, c: char, rest: string, env: Env)
    requires IsSpace(c) && Sound(l, o.Type(env.cb)) && o.Type(env.cb) != OpaqueType
    ensures Run(At(o, l, env.cb), [c] + rest, env) == Run(At(o, AfterSpaces(l, o.Type(env.cb), [c]), env.cb), rest, env)
  {
    hide Flush, AfterSpaces;
    FlushSpace(o, l, c, env.cb);
    GetCOf(c, rest);
  }

  lemma {:induction false} RunSpaces(o: Spot, l: Local, s: string, rest: string, env: Env)
    requires AllSpace(s) && Sound(l, o.Type(env.cb)) && (o.Type(env.cb) == OpaqueType ==> s == [])
    ensures Run(At(o, l, env.cb), s + rest, env) == Run(At(o, AfterSpaces(l, o.Type(env.cb), s), env.cb), rest, env)
    decreases |s|
  {
    hide Run;
    if s == [] {
      assert s + rest == rest;
    } else {
      var ty := o.Type(env.cb);
      var l' := AfterSpaces(l, ty, [s[0]]);
      assert s + rest == [s[0]] + (s[1..] + rest);
      RunSpace(o, l, s[0], s[1..] + rest, env);
      RunSpaces(o, l', s[1..], rest, env);
      assert l'.kids + [] == l'.kids;
      assert AfterSpaces(l', ty, s[1..]) == AfterSpaces(l, ty, s);
    }
  }

  // ----- characters of a value -----

  lemma {:induction false} RunChar(st: State, c: char, rest: string, env: Env)
    requires StandardEntities(env.ents) && GoodChar(c) && (st.ty != OpaqueType ==> !IsSpace(c))
    ensures Run(st, EscapeChar(c) + rest, env) == Run(st.(buf := st.buf + [c]), rest, env)
  {
    hide GetEntity, AddNode;
    GetCOf(c, rest);
    if NamedEntity(c).Some? {
      GetEntityOf(c, rest, env.ents);
      GetCOf('&', NamedEntity(c).value + ";" + rest);
      assert Flush(st, '&') == Flushed(st);
    } else {
      assert c != '&' && c != '<';
      assert Flush(st, c) == Flushed(st);
    }
  }

  lemma {:induction false} RunData(st: State, s: string, rest: string, env: Env)
    requires StandardEntities(env.ents) && Good(s) && (st.ty != OpaqueType ==> NoSpace(s))
    ensures Run(st, Escape(s) + rest, env) == Run(st.(buf := st.buf + s), rest, env)
    decreases |s|
  {
    hide Run, EscapeChar;
    if s == [] {
      assert Escape(s) + rest == rest;
      assert st.buf + s == st.buf;
    } else {
      EscapeCons(s, rest);
      RunChar(st, s[0], Escape(s[1..]) + rest, env);
      RunData(st.(buf := st.buf + [s[0]]), s[1..], rest, env);
      assert st.buf + [s[0]] + s[1..] == st.buf + s;
    }
  }

  // ----- tags -----

  lemma {:induction false} FlushTag(o: Spot, l: Local, cb: Callback)
    requires Sound(l, o.Type(cb))
    ensures Flush(At(o, l, cb), '<') == Flushed(At(o, Local(l.kids + Pending(l, o.Type(cb)), false, []), cb))
  {
    hide StrToL;
    var ty := o.Type(cb);
    if Pending(l, ty) == [] {
      assert l.kids + [] == l.kids;
    } else {
      AddNodeAt(o, l, Pending(l, ty)[0], cb);
    }
  }

  lemma {:induction false} RunTag(o: Spot, l: Local, s: string, st: State, rest: string, env: Env)
    requires Sound(l, o.Type(env.cb))
    requires Tag(At(o, Local(l.kids + Pending(l, o.Type(env.cb)), false, []), env.cb), s, env) == Running(st, rest)
    ensures Run(At(o, l, env.cb), ['<'] + s, env) == Run(st, rest, env)
  {
    hide Flush, Tag, Pending;
    FlushTag(o, l, env.cb);
    GetCOf('<', s);
  }

  /** The open tag of an element that has children, or the whole tag of one that has none */
  lemma {:induction false} RunOpen(o: Spot, l: Local, name: string, attrs: seq<Attr>, wrap: int, col: int,
                                   end: string, rest: string, env: Env)
    requires StandardEntities(env.ents) && ElementNameOk(name) && AttrsOk(attrs) && IsEnd(end)
    requires Sound(l, o.Type(env.cb))
    ensures var kids := l.kids + Pending(l, o.Type(env.cb));
            Run(At(o, l, env.cb), WriteOpen(name, attrs, wrap, col).text + (end + rest), env)
              == Run(if end == ">" then At(Inside(o, kids, name, attrs), Fresh, env.cb)
                else At(o, Local(kids + [Element(name, attrs, [])], false, []), env.cb), rest, env)
  {
    hide Run, Tag, WriteOpen, OpenTail, Push, AddNode;
    var kids := l.kids + Pending(l, o.Type(env.cb));
    var here := Local(kids, false, []);
    OpenTextSplit(name, attrs, wrap, col, end, rest);
    OpenTagOf(At(o, here, env.cb), name, attrs, wrap, col, end, rest, env);
    PushAt(o, kids, name, attrs, env.cb);
    AddNodeAt(o, here, Element(name, attrs, []), env.cb);
    RunTag(o, l, WriteName(name) + OpenTail(name, attrs, wrap, col, end, rest),
           Opened(At(o, here, env.cb), name, attrs, end, env.cb), rest, env);
  }

  lemma {:induction false} RunClose(o: Spot, kids: seq<Tree>, name: string, attrs: seq<Attr>, l: Local, rest: string, env: Env)
    requires StandardEntities(env.ents) && ElementNameOk(name)
    requires Sound(l, env.cb.TypeOf(name, attrs))
    ensures var inner := l.kids + Pending(l, env.cb.TypeOf(name, attrs));
            Run(At(Inside(o, kids, name, attrs), l, env.cb), "</" + Escape(name) + ">" + rest, env)
              == Run(At(o, Local(kids + [Element(name, attrs, inner)], false, []), env.cb), rest, env)
  {
    hide Run, Tag, Pop, Escape;
    var o' := Inside(o, kids, name, attrs);
    var inner := l.kids + Pending(l, env.cb.TypeOf(name, attrs));
    var st := At(o', Local(inner, false, []), env.cb);
    var tail := "/" + Escape(name) + ">" + rest;
    assert "</" + Escape(name) + ">" + rest == ['<'] + tail;
    CloseTagOf(st, name, rest, env);
    PopAt(o, kids, name, attrs, inner, env.cb);
    RunTag(o', l, tail, Pop(st, env.cb), rest, env);
  }

  lemma {:induction false} RunMarkup(o: Spot, l: Local, name: string, rest: string, env: Env)
    requires MarkupOk(name) && Sound(l, o.Type(env.cb))
    ensures var kids := l.kids + Pending(l, o.Type(env.cb));
            Run(At(o, l, env.cb), ['<'] + (name + ">" + rest), env)
              == Run(At(o, Local(kids + [Element(name, [], [])], false, []), env.cb), rest, env)
  {
    hide Run, Tag, AddNode, MarkupOk;
    var here := Local(l.kids + Pending(l, o.Type(env.cb)), false, []);
    MarkupTagOf(At(o, here, env.cb), name, rest, env);
    AddNodeAt(o, here, Element(name, [], []), env.cb);
    RunTag(o, l, name + ">" + rest, Marked(At(o, here, env.cb), name, env.cb), rest, env);
  }
}
