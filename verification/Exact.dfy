/** The converse of the round trip: a tree that is saved and loaded back is canonical. The run over the
    saved text is followed node by node; the first name or text string that is not canonical makes the
    parser add a node that the final tree does not have in that place. */
module Exact {
  import opened Options
  import opened Chars
  import opened Numbers
  import opened Trees
  import opened Reader
  import opened Writer
  import opened Canonical
  import opened TagProofs
  import opened RunProofs
  import opened RoundTrip
  import opened RootProofs
  import opened FinalTree
  import opened Loaded
  import opened TagExact

  /** In the run that ends with `t`, the element around the parser becomes `x`. */
  predicate Aims(t: Tree, o: Spot, before: seq<Tree>, x: Tree) {
    o.done == [] && Reach(t, o.below) == Some(x) && Becomes(Frame(o.name, o.attrs, before), x)
  }

  /** The child that comes after `before` */
  predicate NextIs(before: seq<Tree>, x: Tree, e: Tree) {
    x.Element? && |before| < |x.kids| && x.kids[|before|] == e
  }

  lemma {:induction false} PartialAt(t: Tree, o: Spot, l: Local, cb: Callback)
    requires Partial(t, At(o, l, cb))
    ensures o.done == [] && Reach(t, o.below).Some? && Aims(t, o, l.kids, Reach(t, o.below).value)
  {
    var st := At(o, l, cb);
    assert st.stack[..|o.below|] == o.below;
  }

  // ----- tags -----

  lemma {:induction false} RunTagUnfold(o: Spot, l: Local, s: string, env: Env, t: Tree)
    requires Sound(l, o.Type(env.cb)) && Reproduces(Run(At(o, l, env.cb), ['<'] + s, env), t)
    ensures var st := At(o, Local(l.kids + Pending(l, o.Type(env.cb)), false, []), env.cb);
            !Tag(st, s, env).Failed? && Partial(t, Tag(st, s, env).st)
  {
    hide Flush, Tag, Pending, Partial, Single, Finish;
    FlushTag(o, l, env.cb);
    GetCOf('<', s);
    var st := At(o, Local(l.kids + Pending(l, o.Type(env.cb)), false, []), env.cb);
    assert st.(buf := []) == st;
    var r := Tag(st, s, env);
    match r
    case Failed =>
    case Stopped(st') => FinalPartial(st', t);
    case Running(st', rest) => RunPartial(st', rest, env, t);
  }

  /** A tag adds or opens the next child. */
  lemma {:induction false} TagTells(o: Spot, l: Local, before: seq<Tree>, s: string, env: Env, t: Tree, x: Tree, e: Tree)
    requires Sound(l, o.Type(env.cb)) && l.kids + Pending(l, o.Type(env.cb)) == before
    requires Aims(t, o, before, x) && NextIs(before, x, e)
    requires Reproduces(Run(At(o, l, env.cb), ['<'] + s, env), t)
    ensures e.Element? && Effect(s, env.ents) == Adds(e.name, e.attrs)
  {
    hide Run, Tag, Effect, Pending, Partial, Reproduces, Pop, Push, AddNode, Reach;
    RunTagUnfold(o, l, s, env, t);
    var st := At(o, Local(before, false, []), env.cb);
    TagEffected(st, s, env);
    assert st.stack[..|o.below|] == o.below;
    match Effect(s, env.ents)
    case Fails =>
    case Closes =>
      BackPop(t, st, env.cb);
    case Adds(name, attrs) =>
      if Tag(st, s, env).st == AddNode(st, Element(name, attrs, [])) {
        BackAdd(t, st, Element(name, attrs, []));
      } else {
        BackPush(t, st, name, attrs, env.cb);
        ReachNext(t, o, before, x, e);
      }
  }

  lemma {:induction false} ReachNext(t: Tree, o: Spot, before: seq<Tree>, x: Tree, e: Tree)
    requires Aims(t, o, before, x) && NextIs(before, x, e)
    ensures Reach(t, o.below + [Frame(o.name, o.attrs, before)]) == Some(e)
  {
    var stack := o.below + [Frame(o.name, o.attrs, before)];
    assert stack[..|o.below|] == o.below;
  }

  /** The same for the root. */
  lemma {:induction false} RootTells(s: string, env: Env, t: Tree)
    requires Reproduces(Run(Start, ['<'] + s, env), t)
    ensures t.Element? && Effect(s, env.ents) == Adds(t.name, t.attrs)
    ensures !Tag(Start, s, env).Failed? && Partial(t, Tag(Start, s, env).st)
  {
    hide Tag, Effect, Pop, Push, AddNode, Partial, Single, Finish;
    GetCOf('<', s);
    assert Flush(Start, '<') == Flushed(Start);
    assert Start.(buf := []) == Start;
    var r := Tag(Start, s, env);
    match r {
      case Failed =>
      case Stopped(st') => FinalPartial(st', t);
      case Running(st', rest) => RunPartial(st', rest, env, t);
    }
    TagEffected(Start, s, env);
    match Effect(s, env.ents)
    case Fails =>
    case Closes =>
    case Adds(name, attrs) =>
      if r.st == AddNode(Start, Element(name, attrs, [])) {
        BackAdd(t, Start, Element(name, attrs, []));
      } else {
        BackPush(t, Start, name, attrs, env.cb);
      }
  }

  // ----- text -----

  /** At the end of the input no child is added. */
  lemma {:induction false} EndTells(o: Spot, l: Local, s: string, env: Env, t: Tree, x: Tree, e: Tree)
    requires GetC(s).Eof? && Aims(t, o, l.kids, x) && NextIs(l.kids, x, e)
    ensures !Reproduces(Run(At(o, l, env.cb), s, env), t)
  {
    hide Step;
    var st := At(o, l, env.cb);
    assert st.stack[|o.below|] == Frame(o.name, o.attrs, l.kids);
  }

  /** A delimiter makes a node of what is buffered. */
  lemma {:induction false} FlushTells(o: Spot, l: Local, c: char, s: string, env: Env, t: Tree, x: Tree, e: Tree)
    requires o.Type(env.cb) == TextType && l.buf != [] && (c == '<' || IsSpace(c)) && s != [] && GetC(s) == Got(c, s[1..])
    requires Aims(t, o, l.kids, x) && NextIs(l.kids, x, e)
    requires Reproduces(Run(At(o, l, env.cb), s, env), t)
    ensures e == Text(l.ws, l.buf)
  {
    hide Partial, Reproduces, Reach, Flush, Step;
    var node := Text(l.ws, l.buf);
    var l' := Local(l.kids + [node], c != '<', []);
    assert Flush(At(o, l, env.cb), c) == Flushed(At(o, l', env.cb)) by {
      FlushWord(o, l, c, env.cb);
    }
    FlushPartial(At(o, l, env.cb), c, s, env, t);
    PartialAt(t, o, l', env.cb);
    assert l'.kids[|l.kids|] == node;
  }

  lemma {:induction false} FlushWord(o: Spot, l: Local, c: char, cb: Callback)
    requires o.Type(cb) == TextType && l.buf != [] && (c == '<' || IsSpace(c))
    ensures Flush(At(o, l, cb), c) == Flushed(At(o, Local(l.kids + [Text(l.ws, l.buf)], c != '<', []), cb))
  {
    hide AddNode;
    AddNodeAt(o, l, Text(l.ws, l.buf), cb);
  }

  /** The state after the value part of a turn is on the way, too. */
  lemma {:induction false} FlushPartial(st: State, c: char, s: string, env: Env, t: Tree)
    requires s != [] && GetC(s) == Got(c, s[1..]) && (c == '<' || IsSpace(c)) && Reproduces(Run(st, s, env), t) && Flush(st, c).Flushed?
    ensures Partial(t, Flush(st, c).st)
  {
    hide Flush, Tag, Partial, Single, Finish;
    var st1 := Flush(st, c).st;
    var r := Step(st, c, s[1..], env);
    match r {
      case Failed =>
      case Stopped(st') => FinalPartial(st', t);
      case Running(st', rest) => RunPartial(st', rest, env, t);
    }
    if c == '<' {
      BackTag(t, st1.(buf := []), s[1..], env);
      BackSame(t, st1.(buf := []), st1);
    } else {
      BackSame(t, r.st, st1);
    }
  }

  /** Any other character goes to the buffer. */
  lemma {:induction false} BufferTells(o: Spot, l: Local, c: char, s: string, env: Env, t: Tree) returns (more: (string, string))
    requires o.Type(env.cb) == TextType && l.buf != [] && c != '<' && !IsSpace(c) && s != [] && GetC(s) == Got(c, s[1..])
    requires Reproduces(Run(At(o, l, env.cb), s, env), t)
    ensures l.buf <= more.0 && |more.1| < |s| && Reproduces(Run(At(o, l.(buf := more.0), env.cb), more.1, env), t)
  {
    hide Single, Finish, GetEntity, AddChar, AddNode;
    var e := GetEntity(s[1..], env.ents);
    if c == '&' {
      more := (l.buf + AddChar(e.code), e.rest);
    } else {
      more := (l.buf + AddChar(c as int), s[1..]);
    }
    assert Flush(At(o, l, env.cb), c) == Flushed(At(o, l, env.cb));
    assert At(o, l, env.cb).(buf := more.0) == At(o, l.(buf := more.0), env.cb);
  }

  /** What is buffered becomes the next child, if there is one. */
  lemma {:induction false} WordTells(o: Spot, l: Local, s: string, env: Env, t: Tree, x: Tree, e: Tree)
    requires o.Type(env.cb) == TextType && l.buf != []
    requires Aims(t, o, l.kids, x) && NextIs(l.kids, x, e)
    requires Reproduces(Run(At(o, l, env.cb), s, env), t)
    ensures e.Text? && e.s != [] && e.s[0] == l.buf[0]
    decreases |s|
  {
    hide Run, Partial, Reproduces, Aims, NextIs, Step;
    match GetC(s)
    case Eof(_) =>
      EndTells(o, l, s, env, t, x, e);
    case Got(c, rest) =>
      if c == '<' || IsSpace(c) {
        FlushTells(o, l, c, s, env, t, x, e);
      } else {
        var buf := BufferTells(o, l, c, s, env, t);
        WordTells(o, l.(buf := buf.0), buf.1, env, t, x, e);
      }
  }

  /** What may follow the children of an element: a tag, or only whitespace up to the end */
  predicate Tail(rest: string) {
    AllSpace(rest) || (rest != [] && rest[0] == '<')
  }

  /** Does a text node start with whitespace? */
  predicate StartsBlank(e: Tree) {
    e.Text? && e.s != [] && IsSpace(e.s[0])
  }

  /** Siblings in an element whose values are text */
  predicate TextOnly(ts: seq<Tree>) {
    forall i :: 0 <= i < |ts| ==> ts[i].Element? || ts[i].Text?
  }

  /** Where whitespace has been skipped, the next child does not start with whitespace. */
  lemma {:induction false} SpacesTell(o: Spot, before: seq<Tree>, s: string, ts: seq<Tree>, done: seq<Tree>, around: seq<Around>,
                                      wrap: int, col: int, rest: string, env: Env, t: Tree, x: Tree, e: Tree)
    requires StandardEntities(env.ents) && o.Type(env.cb) == TextType
    requires Good(s) && TextOnly(ts) && GoodTexts(ts) && Tail(rest)
    requires Aims(t, o, before, x) && NextIs(before, x, e)
    requires Reproduces(Run(At(o, Local(before, true, []), env.cb),
                            Escape(s) + (WriteNodes(ts, around, done, Silent, wrap, col).text + rest), env), t)
    ensures !StartsBlank(e)
    decreases |ts|, |s|
  {
    hide Run, Escape, WriteNode, Reproduces, Aims, NextIs, StandardEntities, Good, Tail, StartsBlank, TextOnly, GoodTexts;
    var l := Local(before, true, []);
    var more := WriteNodes(ts, around, done, Silent, wrap, col).text + rest;
    if s != [] {
      EscapeCons(s, more);
      GoodParts(s);
      if IsSpace(s[0]) {
        SpaceAgain(o, before, s[0], Escape(s[1..]) + more, env);
        SpacesTell(o, before, s[1..], ts, done, around, wrap, col, rest, env, t, x, e);
      } else {
        RunChar(At(o, l, env.cb), s[0], Escape(s[1..]) + more, env);
        assert At(o, l, env.cb).(buf := l.buf + [s[0]]) == At(o, Local(before, true, [s[0]]), env.cb);
        WordTells(o, Local(before, true, [s[0]]), Escape(s[1..]) + more, env, t, x, e);
        NotBlank(e);
      }
    } else {
      EscapeNil(more);
      if ts == [] {
        assert more == rest;
        RestTells(o, before, rest, env, t, x, e);
      } else {
        var w := WriteNode(ts[0], around, done, ts[1..], Silent, wrap, col);
        var after := WriteNodes(ts[1..], around, done + [ts[0]], Silent, wrap, w.col).text + rest;
        assert more == w.text + after;
        TextParts(ts);
        if ts[0].Element? {
          ElementStarts(ts[0], around, done, ts[1..], wrap, col);
          assert more[0] == '<' && more != [];
          TagStarts(more);
          RestTells(o, before, more, env, t, x, e);
        } else {
          var sep := TextStarts(ts[0], around, done, ts[1..], wrap, col, after);
          SpacesAgain(o, before, sep, Escape(ts[0].s) + after, env);
          SpacesTell(o, before, ts[0].s, ts[1..], done + [ts[0]], around, wrap, w.col, rest, env, t, x, e);
        }
      }
    }
  }

  predicate GoodTexts(ts: seq<Tree>) {
    forall i :: 0 <= i < |ts| ==> ts[i].Text? ==> Good(ts[i].s)
  }

  lemma {:induction false} TextParts(ts: seq<Tree>)
    requires TextOnly(ts) && GoodTexts(ts) && ts != []
    ensures TextOnly(ts[1..]) && GoodTexts(ts[1..]) && (ts[0].Element? || (ts[0].Text? && Good(ts[0].s)))
  {
  }

  lemma {:induction false} TagStarts(s: string)
    requires s != [] && s[0] == '<'
    ensures Tail(s)
  {
  }

  lemma {:induction false} NotBlank(e: Tree)
    requires e.Text? && e.s != [] && !IsSpace(e.s[0])
    ensures !StartsBlank(e)
  {
  }

  lemma {:induction false} SpaceAgain(o: Spot, before: seq<Tree>, c: char, rest: string, env: Env)
    requires o.Type(env.cb) == TextType && IsSpace(c)
    ensures EscapeChar(c) + rest == [c] + rest
    ensures Run(At(o, Local(before, true, []), env.cb), [c] + rest, env) == Run(At(o, Local(before, true, []), env.cb), rest, env)
  {
    hide Run;
    RunSpace(o, Local(before, true, []), c, rest, env);
    assert before + [] == before;
  }

  lemma {:induction false} SpacesAgain(o: Spot, before: seq<Tree>, s: string, rest: string, env: Env)
    requires o.Type(env.cb) == TextType && AllSpace(s)
    ensures Run(At(o, Local(before, true, []), env.cb), s + rest, env) == Run(At(o, Local(before, true, []), env.cb), rest, env)
  {
    hide Run;
    RunSpaces(o, Local(before, true, []), s, rest, env);
    assert before + [] == before;
  }

  /** A tag makes an empty text node of skipped whitespace; the end of the input makes nothing. */
  lemma {:induction false} RestTells(o: Spot, before: seq<Tree>, rest: string, env: Env, t: Tree, x: Tree, e: Tree)
    requires o.Type(env.cb) == TextType && Tail(rest)
    requires Aims(t, o, before, x) && NextIs(before, x, e)
    requires Reproduces(Run(At(o, Local(before, true, []), env.cb), rest, env), t)
    ensures !StartsBlank(e)
  {
    hide Run, Reproduces, Aims, NextIs, Partial, Tag;
    var l := Local(before, true, []);
    if rest != [] && rest[0] == '<' {
      assert rest == ['<'] + rest[1..];
      RunTagUnfold(o, l, rest[1..], env, t);
      var st := At(o, Local(before + [Text(true, [])], false, []), env.cb);
      assert Pending(l, TextType) == [Text(true, [])];
      BackTag(t, st, rest[1..], env);
      PartialAt(t, o, Local(before + [Text(true, [])], false, []), env.cb);
      NextOne(t, o, before, Text(true, []), x, e);
    } else {
      assert rest + [] == rest;
      SpacesAgain(o, before, rest, [], env);
      EndTells(o, l, [], env, t, x, e);
    }
  }

  lemma {:induction false} NextOne(t: Tree, o: Spot, before: seq<Tree>, node: Tree, x: Tree, e: Tree)
    requires Aims(t, o, before, x) && NextIs(before, x, e)
    requires Reach(t, o.below).Some? && Aims(t, o, before + [node], Reach(t, o.below).value)
    ensures e == node
  {
    hide Reach;
    assert (before + [node])[|before|] == node;
  }

  lemma {:induction false} ElementStarts(e: Tree, around: seq<Around>, before: seq<Tree>, after: seq<Tree>, wrap: int, col: int)
    requires e.Element?
    ensures var w := WriteNode(e, around, before, after, Silent, wrap, col).text; w != [] && w[0] == '<'
  {
    hide WriteNodes, WriteAttrs, WriteName, WriteEnd, WriteEmpty;
  }

  lemma {:induction false} TextStarts(e: Tree, around: seq<Around>, before: seq<Tree>, after: seq<Tree>, wrap: int, col: int, rest: string)
      returns (sep: string)
    requires e.Text?
    ensures AllSpace(sep)
    ensures WriteNode(e, around, before, after, Silent, wrap, col).text + rest == sep + (Escape(e.s) + rest)
    ensures sep == [] <==> !(e.ws && col > 0)
  {
    hide Escape;
    sep := (if e.ws && col > 0 then WriteSeparator(col > wrap, col) else Written([], col)).text;
  }

  // ----- a text node that is loaded back -----

  /** What is known about the parser before the child `e` is written */
  ghost predicate Before(o: Spot, l: Local, before: seq<Tree>, col: int, env: Env, t: Tree, x: Tree, e: Tree) {
    && StandardEntities(env.ents)
    && Tracks(l, before, col, o.Type(env.cb), true)
    && Aims(t, o, before, x) && NextIs(before, x, e)
    && RegularNode(e, before, o.Type(env.cb), env.cb)
  }

  /** The separator before a text node makes a node of what is buffered, and nothing else. */
  lemma {:induction false} SeparatorExact(o: Spot, l: Local, before: seq<Tree>, col: int, env: Env, t: Tree, x: Tree, e: Tree, sep: string, rest: string)
    requires Before(o, l, before, col, env, t, x, e) && e.Text? && AllSpace(sep) && (sep == [] <==> !(e.ws && col > 0))
    ensures o.Type(env.cb) == TextType && Good(e.s)
    ensures Run(At(o, l, env.cb), sep + rest, env) == Run(At(o, Local(before, sep != [], []), env.cb), rest, env)
  {
    hide Run, Norm, Good, Aims, Reach, StandardEntities;
    SeparatorRun(o, l, sep, rest, env);
    assert l.kids + [] == l.kids;
    if sep != [] {
      TracksSpaces(l, before, col, TextType, true, sep);
      SeparatorAfter(l, sep);
    } else {
      assert l.buf == [];
      assert !l.ws;
    }
  }

  /** The part of `s` before its first whitespace character */
  function Word(s: string): (w: string)
    ensures w <= s && NoSpace(w) && (|w| < |s| ==> IsSpace(s[|w|]))
    ensures NoSpace(s) <==> w == s
  {
    if s == [] || IsSpace(s[0]) then [] else [s[0]] + Word(s[1..])
  }

  lemma {:induction false} EscapeAppend(a: string, b: string, rest: string)
    ensures Escape(a + b) + rest == Escape(a) + (Escape(b) + rest)
  {
    hide EscapeChar;
    if a == [] {
      assert a + b == b;
      EscapeNil(Escape(b) + rest);
    } else {
      assert (a + b)[0] == a[0] && (a + b)[1..] == a[1..] + b;
      EscapeCons(a + b, rest);
      EscapeAppend(a[1..], b, rest);
      EscapeCons(a, Escape(b) + rest);
    }
  }

  lemma {:induction false} SyncText(o: Spot, l: Local, before: seq<Tree>, ts: seq<Tree>, around: seq<Around>,
                                    wrap: int, col: int, rest: string, env: Env, t: Tree, x: Tree, e: Tree)
    requires Before(o, l, before, col, env, t, x, e) && e.Text?
    requires o.Type(env.cb) == TextType ==> TextOnly(ts) && GoodTexts(ts)
    requires Tail(rest)
    requires var w := WriteNode(e, around, before, ts, Silent, wrap, col);
             Reproduces(Run(At(o, l, env.cb), w.text + (WriteNodes(ts, around, before + [e], Silent, wrap, w.col).text + rest), env), t)
    ensures NoSpace(e.s)
  {
    hide *;
    var w := WriteNode(e, around, before, ts, Silent, wrap, col);
    var more := WriteNodes(ts, around, before + [e], Silent, wrap, w.col).text + rest;
    var sep := TextStarts(e, around, before, ts, wrap, col, more);
    BeforeParts(o, l, before, col, env, t, x, e);
    SeparatorExact(o, l, before, col, env, t, x, e, sep, Escape(e.s) + more);
    var word := Word(e.s);
    if word != e.s {
      var c, behind := e.s[|word|], e.s[|word| + 1..];
      assert e.s == word + ([c] + behind);
      EscapeAppend(word, [c] + behind, more);
      GoodSplit(word, c, behind, e.s);
      EscapeSpace(c, behind, more);
      var ws := sep != [];
      RunData(At(o, Local(before, ws, []), env.cb), word, [c] + (Escape(behind) + more), env);
      AtBuffer(o, before, ws, word, env.cb);
      assert [] + word == word;
      if word != [] {
        SpaceGot(c, Escape(behind) + more);
        FlushTells(o, Local(before, ws, word), c, [c] + (Escape(behind) + more), env, t, x, e);
        assert false;
      } else {
        FirstSpace(o, before, ws, c, Escape(behind) + more, env);
        SpacesTell(o, before, behind, ts, before + [e], around, wrap, w.col, rest, env, t, x, e);
        BlankText(e, c);
        assert false;
      }
    }
  }

  lemma {:induction false} BeforeParts(o: Spot, l: Local, before: seq<Tree>, col: int, env: Env, t: Tree, x: Tree, e: Tree)
    requires Before(o, l, before, col, env, t, x, e)
    ensures StandardEntities(env.ents) && Tracks(l, before, col, o.Type(env.cb), true) && Sound(l, o.Type(env.cb))
    ensures Aims(t, o, before, x) && NextIs(before, x, e) && RegularNode(e, before, o.Type(env.cb), env.cb)
    ensures l.kids + Pending(l, o.Type(env.cb)) == before
  {
    hide Norm, Aims, NextIs, RegularNode, Sound, Pending, StandardEntities;
  }

  lemma {:induction false} AtBuffer(o: Spot, kids: seq<Tree>, ws: bool, buf: string, cb: Callback)
    ensures At(o, Local(kids, ws, []), cb).(buf := buf) == At(o, Local(kids, ws, buf), cb)
    ensures At(o, Local(kids, ws, []), cb).buf == []
  {
  }

  lemma {:induction false} GoodSplit(word: string, c: char, behind: string, s: string)
    requires s == word + ([c] + behind) && Good(s) && NoSpace(word)
    ensures Good(word) && Good(behind) && GoodChar(c)
  {
    assert s[|word|] == c;
    assert forall i :: 0 <= i < |word| ==> word[i] == s[i];
    assert forall i :: 0 <= i < |behind| ==> behind[i] == s[|word| + 1 + i];
  }

  lemma {:induction false} EscapeSpace(c: char, behind: string, more: string)
    requires IsSpace(c)
    ensures Escape([c] + behind) + more == [c] + (Escape(behind) + more)
  {
    assert ([c] + behind)[1..] == behind;
    EscapeCons([c] + behind, more);
  }

  lemma {:induction false} SpaceGot(c: char, rest: string)
    requires IsSpace(c)
    ensures var s := [c] + rest; s != [] && GetC(s) == Got(c, s[1..])
  {
    GetCOf(c, rest);
    assert ([c] + rest)[1..] == rest;
  }

  lemma {:induction false} FirstSpace(o: Spot, before: seq<Tree>, ws: bool, c: char, rest: string, env: Env)
    requires o.Type(env.cb) == TextType && IsSpace(c)
    ensures Run(At(o, Local(before, ws, []), env.cb), [c] + rest, env) == Run(At(o, Local(before, true, []), env.cb), rest, env)
  {
    hide Run;
    RunSpace(o, Local(before, ws, []), c, rest, env);
    assert before + [] == before;
  }

  lemma {:induction false} BlankText(e: Tree, c: char)
    requires e.Text? && e.s != [] && e.s[0] == c && IsSpace(c)
    ensures StartsBlank(e)
  {
  }

  // ----- elements -----

  ghost predicate AllPlain(ts: seq<Tree>) {
    forall i :: 0 <= i < |ts| ==> Plain(ts[i])
  }

  /** The text of an element that is saved without a whitespace callback */
  lemma {:induction false} SyncMarkup(o: Spot, l: Local, before: seq<Tree>, after: seq<Tree>, around: seq<Around>,
                                      wrap: int, col: int, rest: string, env: Env, t: Tree, x: Tree, e: Tree)
    requires Before(o, l, before, col, env, t, x, e) && e.Element? && IsMarkup(e.name)
    requires Reproduces(Run(At(o, l, env.cb), WriteNode(e, around, before, after, Silent, wrap, col).text + rest, env), t)
    ensures Plain(e)
  {
    hide *;
    BeforeParts(o, l, before, col, env, t, x, e);
    MarkupNode(e, before, o.Type(env.cb), env.cb);
    SilentMarkup(e, around, before, after, wrap, col, rest);
    TagTells(o, l, before, e.name + ">" + rest, env, t, x, e);
    MarkupExact(e.name, rest, env.ents);
    PlainMarkup(e);
  }

  lemma {:induction false} MarkupNode(e: Tree, before: seq<Tree>, ty: ValueType, cb: Callback)
    requires RegularNode(e, before, ty, cb) && e.Element? && IsMarkup(e.name)
    ensures Good(e.name) && e.attrs == [] && e.kids == []
  {
    hide Good;
  }

  lemma {:induction false} PlainMarkup(e: Tree)
    requires e.Element? && IsMarkup(e.name) && MarkupOk(e.name) && e.attrs == [] && AllPlain(e.kids)
    ensures Plain(e)
  {
    hide MarkupOk;
  }

  lemma {:induction false} NonePlain()
    ensures AllPlain([])
  {
  }

  lemma {:induction false} SilentMarkup(e: Tree, around: seq<Around>, before: seq<Tree>, after: seq<Tree>, wrap: int, col: int, rest: string)
    requires e.Element? && IsMarkup(e.name) && e.attrs == [] && e.kids == []
    ensures WriteNode(e, around, before, after, Silent, wrap, col).text + rest == ['<'] + (e.name + ">" + rest)
    ensures AllPlain(e.kids)
  {
    hide WriteNode, ColumnAfter;
    MarkupText(e, around, before, after, Silent, wrap, col, rest);
    assert [] + rest == rest;
    assert [] + (['<'] + (e.name + ">" + rest)) == ['<'] + (e.name + ">" + rest);
  }

  lemma {:induction false} OpenNode(e: Tree, before: seq<Tree>, ty: ValueType, cb: Callback)
    requires RegularNode(e, before, ty, cb) && e.Element? && !IsMarkup(e.name)
    ensures Good(e.name) && RegularAttrs(e.attrs) && RegularNodes(e.kids, cb.TypeOf(e.name, e.attrs), cb)
  {
    hide Good, RegularAttrs, RegularNodes;
  }

  lemma {:induction false} PlainElement(e: Tree)
    requires e.Element? && ElementNameOk(e.name) && AttrsOk(e.attrs) && AllPlain(e.kids)
    ensures Plain(e)
  {
    hide NoSpace, Lacks, PlainOrQuoted, Good;
    forall i | 0 <= i < |e.attrs|
      ensures PlainAttr(e.attrs[i])
    {
      assert AttrOk(e.attrs[i]);
    }
  }

  lemma {:induction false} NoColumnAt(col: int)
    ensures ColumnAfter([], col) == col
  {
  }

  lemma {:induction false} SilentEmpty(e: Tree, around: seq<Around>, before: seq<Tree>, after: seq<Tree>, wrap: int, col: int, rest: string)
    requires e.Element? && !IsMarkup(e.name) && e.kids == []
    ensures WriteNode(e, around, before, after, Silent, wrap, col).text + rest
         == ['<'] + (WriteName(e.name) + OpenTail(e.name, e.attrs, wrap, col, " />", rest))
  {
    hide WriteNode, ColumnAfter, WriteOpen, OpenTail, WriteName, IsMarkup;
    NoColumnAt(col);
    EmptyText(e, around, before, after, Silent, wrap, col, rest);
    OpenTextSplit(e.name, e.attrs, wrap, col, " />", rest);
    var open := WriteOpen(e.name, e.attrs, wrap, col).text;
    assert [] + rest == rest;
    assert [] + (open + (" />" + rest)) == open + (" />" + rest);
  }

  lemma {:induction false} SyncEmpty(o: Spot, l: Local, before: seq<Tree>, after: seq<Tree>, around: seq<Around>,
                                     wrap: int, col: int, rest: string, env: Env, t: Tree, x: Tree, e: Tree)
    requires Before(o, l, before, col, env, t, x, e) && e.Element? && !IsMarkup(e.name) && e.kids == []
    requires Reproduces(Run(At(o, l, env.cb), WriteNode(e, around, before, after, Silent, wrap, col).text + rest, env), t)
    ensures Plain(e)
  {
    hide *;
    BeforeParts(o, l, before, col, env, t, x, e);
    OpenNode(e, before, o.Type(env.cb), env.cb);
    SilentEmpty(e, around, before, after, wrap, col, rest);
    TagTells(o, l, before, WriteName(e.name) + OpenTail(e.name, e.attrs, wrap, col, " />", rest), env, t, x, e);
    BothEnds();
    OpenExact(e.name, e.attrs, wrap, col, " />", rest, env.ents);
    NonePlain();
    PlainElement(e);
  }

  lemma {:induction false} BothEnds()
    ensures IsEnd(" />") && IsEnd(">")
  {
  }

  /** The children of an element that has some, as they are written */
  function Inner(e: Tree, around: seq<Around>, before: seq<Tree>, after: seq<Tree>, wrap: int, col: int): Written
    requires e.Element?
  {
    WriteNodes(e.kids, around + [Around(e.name, e.attrs, before, after)], [], Silent, wrap, WriteOpen(e.name, e.attrs, wrap, col).col + 1)
  }

  lemma {:induction false} SilentFull(e: Tree, around: seq<Around>, before: seq<Tree>, after: seq<Tree>, wrap: int, col: int, rest: string)
    requires e.Element? && !IsMarkup(e.name) && e.kids != []
    ensures var more := Inner(e, around, before, after, wrap, col).text + ("</" + Escape(e.name) + ">" + rest);
            WriteNode(e, around, before, after, Silent, wrap, col).text + rest == WriteOpen(e.name, e.attrs, wrap, col).text + (">" + more) &&
            WriteOpen(e.name, e.attrs, wrap, col).text + (">" + more)
              == ['<'] + (WriteName(e.name) + OpenTail(e.name, e.attrs, wrap, col, ">", more))
  {
    hide WriteNode, WriteNodes, ColumnAfter, WriteOpen, OpenTail, WriteName, IsMarkup, Escape;
    NoColumnAt(col);
    var open := WriteOpen(e.name, e.attrs, wrap, col);
    NoColumnAt(open.col + 1);
    FullText(e, around, before, after, Silent, wrap, col, rest);
    var close := "</" + Escape(e.name) + ">" + rest;
    var more := Inner(e, around, before, after, wrap, col).text + close;
    assert [] + rest == rest && [] + close == close && [] + more == more;
    assert [] + (open.text + (">" + more)) == open.text + (">" + more);
    OpenTextSplit(e.name, e.attrs, wrap, col, ">", more);
  }

  lemma {:induction false} FreshTracks(ty: ValueType, col: int)
    requires col > 0
    ensures Tracks(Fresh, [], col, ty, true)
  {
    hide Norm, StrToL;
    assert Fresh.kids + Pending(Fresh, ty) == [];
  }

  lemma {:induction false} CloseIsTail(name: string, rest: string)
    ensures Tail("</" + Escape(name) + ">" + rest)
  {
    hide Escape;
  }

  lemma {:induction false} AimsInside(t: Tree, o: Spot, before: seq<Tree>, x: Tree, e: Tree)
    requires Aims(t, o, before, x) && NextIs(before, x, e) && e.Element?
    ensures Aims(t, Inside(o, before, e.name, e.attrs), [], e)
  {
    hide Reach;
    ReachNext(t, o, before, x, e);
  }

  lemma {:induction false} AimsNext(t: Tree, o: Spot, before: seq<Tree>, x: Tree, e: Tree)
    requires Aims(t, o, before, x) && NextIs(before, x, e)
    ensures Aims(t, o, before + [e], x)
  {
    hide Reach;
  }

  lemma {:induction false} SyncFull(o: Spot, l: Local, before: seq<Tree>, after: seq<Tree>, around: seq<Around>,
                                    wrap: int, col: int, rest: string, env: Env, t: Tree, x: Tree, e: Tree)
    requires Before(o, l, before, col, env, t, x, e) && e.Element? && !IsMarkup(e.name) && e.kids != []
    requires Reproduces(Run(At(o, l, env.cb), WriteNode(e, around, before, after, Silent, wrap, col).text + rest, env), t)
    ensures Plain(e)
    decreases e, 0
  {
    hide *;
    var open := WriteOpen(e.name, e.attrs, wrap, col);
    var close := "</" + Escape(e.name) + ">" + rest;
    var more := Inner(e, around, before, after, wrap, col).text + close;
    BeforeParts(o, l, before, col, env, t, x, e);
    OpenNode(e, before, o.Type(env.cb), env.cb);
    SilentFull(e, around, before, after, wrap, col, rest);
    TagTells(o, l, before, WriteName(e.name) + OpenTail(e.name, e.attrs, wrap, col, ">", more), env, t, x, e);
    BothEnds();
    OpenExact(e.name, e.attrs, wrap, col, ">", more, env.ents);
    RunOpen(o, l, e.name, e.attrs, wrap, col, ">", more, env);
    TracksColumn(l, before, col, o.Type(env.cb));
    OpenColumn(e.name, e.attrs, wrap, col);
    var o' := Inside(o, before, e.name, e.attrs);
    FreshTracks(o'.Type(env.cb), open.col + 1);
    InsideType(o, before, e.name, e.attrs, env.cb);
    AimsInside(t, o, before, x, e);
    CloseIsTail(e.name, rest);
    InnerIs(e, around, before, after, wrap, col);
    ChildrenAre(o', e, open.col + 1, env, t);
    SyncNodes(o', Fresh, e.kids, [], around + [Around(e.name, e.attrs, before, after)], wrap, open.col + 1, close, env, t, e);
    PlainElement(e);
  }

  lemma {:induction false} TracksColumn(l: Local, before: seq<Tree>, col: int, ty: ValueType)
    requires Tracks(l, before, col, ty, true)
    ensures col >= 0
  {
  }

  lemma {:induction false} InnerIs(e: Tree, around: seq<Around>, before: seq<Tree>, after: seq<Tree>, wrap: int, col: int)
    requires e.Element?
    ensures Inner(e, around, before, after, wrap, col)
         == WriteNodes(e.kids, around + [Around(e.name, e.attrs, before, after)], [], Silent, wrap, WriteOpen(e.name, e.attrs, wrap, col).col + 1)
  {
    hide WriteNodes, WriteOpen;
  }

  /** The written siblings `ts` that are all loaded back, behind `before` */
  ghost predicate Siblings(o: Spot, l: Local, ts: seq<Tree>, before: seq<Tree>, col: int, env: Env, t: Tree, x: Tree) {
    && StandardEntities(env.ents)
    && Tracks(l, before, col, o.Type(env.cb), true)
    && Aims(t, o, before, x) && x.kids == before + ts
    && RegularNodes(before + ts, o.Type(env.cb), env.cb)
  }

  lemma {:induction false} ChildrenAre(o: Spot, e: Tree, col: int, env: Env, t: Tree)
    requires StandardEntities(env.ents) && e.Element? && Tracks(Fresh, [], col, o.Type(env.cb), true)
    requires Aims(t, o, [], e) && RegularNodes(e.kids, o.Type(env.cb), env.cb)
    ensures Siblings(o, Fresh, e.kids, [], col, env, t, e)
  {
    hide Tracks, Aims, RegularNodes, StandardEntities;
    assert [] + e.kids == e.kids;
  }

  lemma {:induction false} FirstBefore(o: Spot, l: Local, ts: seq<Tree>, before: seq<Tree>, col: int, env: Env, t: Tree, x: Tree)
    requires Siblings(o, l, ts, before, col, env, t, x) && ts != []
    ensures Before(o, l, before, col, env, t, x, ts[0])
    ensures o.Type(env.cb) == TextType ==> TextOnly(ts[1..]) && GoodTexts(ts[1..])
  {
    hide Tracks, StandardEntities, Reach, RegularAttrs, Good, IsMarkup;
    var all, n := before + ts, |before|;
    assert all[n] == ts[0] && all[..n] == before;
    assert RegularNode(all[n], all[..n], o.Type(env.cb), env.cb);
    if o.Type(env.cb) == TextType {
      forall i | 0 <= i < |ts[1..]|
        ensures ts[1..][i].Element? || (ts[1..][i].Text? && Good(ts[1..][i].s))
      {
        assert ts[1..][i] == all[n + 1 + i];
        assert RegularNode(all[n + 1 + i], all[..n + 1 + i], TextType, env.cb);
      }
    }
  }

  lemma {:induction false} NextSiblings(o: Spot, l: Local, l1: Local, ts: seq<Tree>, before: seq<Tree>, col: int, col1: int, env: Env, t: Tree, x: Tree)
    requires Siblings(o, l, ts, before, col, env, t, x) && ts != []
    requires Tracks(l1, before + [ts[0]], col1, o.Type(env.cb), true)
    ensures Siblings(o, l1, ts[1..], before + [ts[0]], col1, env, t, x)
  {
    hide Tracks, StandardEntities, Reach, RegularNodes;
    assert before + [ts[0]] + ts[1..] == before + ts;
    AimsNext(t, o, before, x, ts[0]);
  }

  lemma {:induction false} SyncNode(o: Spot, l: Local, before: seq<Tree>, ts: seq<Tree>, around: seq<Around>,
                                    wrap: int, col: int, rest: string, env: Env, t: Tree, x: Tree, e: Tree)
    requires Before(o, l, before, col, env, t, x, e) && Tail(rest)
    requires o.Type(env.cb) == TextType ==> TextOnly(ts) && GoodTexts(ts)
    requires var w := WriteNode(e, around, before, ts, Silent, wrap, col);
             Reproduces(Run(At(o, l, env.cb), w.text + (WriteNodes(ts, around, before + [e], Silent, wrap, w.col).text + rest), env), t)
    ensures Plain(e)
    decreases e, 1
  {
    hide *;
    var more := WriteNodes(ts, around, before + [e], Silent, wrap, WriteNode(e, around, before, ts, Silent, wrap, col).col).text + rest;
    match e
    case Element(name, attrs, kids) =>
      if IsMarkup(name) {
        SyncMarkup(o, l, before, ts, around, wrap, col, more, env, t, x, e);
      } else if kids == [] {
        SyncEmpty(o, l, before, ts, around, wrap, col, more, env, t, x, e);
      } else {
        SyncFull(o, l, before, ts, around, wrap, col, more, env, t, x, e);
      }
    case Text(_, _) =>
      SyncText(o, l, before, ts, around, wrap, col, rest, env, t, x, e);
      PlainValue(e);
    case Opaque(_) => PlainValue(e);
    case Integer(_) => PlainValue(e);
  }

  lemma {:induction false} PlainValue(e: Tree)
    requires !e.Element? && (e.Text? ==> NoSpace(e.s))
    ensures Plain(e)
  {
    hide NoSpace;
  }

  /** The parser moves on behind a child that is canonical. */
  lemma {:induction false} RunNode(o: Spot, l: Local, before: seq<Tree>, ts: seq<Tree>, around: seq<Around>,
                                   wrap: int, col: int, more: string, env: Env, t: Tree, x: Tree, e: Tree) returns (l1: Local)
    requires Before(o, l, before, col, env, t, x, e) && Plain(e)
    ensures var w := WriteNode(e, around, before, ts, Silent, wrap, col);
            Run(At(o, l, env.cb), w.text + more, env) == Run(At(o, l1, env.cb), more, env) &&
            Tracks(l1, before + [e], w.col, o.Type(env.cb), true)
  {
    hide *;
    BeforeParts(o, l, before, col, env, t, x, e);
    PlainNode(e, before, o.Type(env.cb), env.cb);
    SilentCalm(e, env.cb);
    if e.Element? {
      l1 := RunElement(o, l, e, before, ts, around, Silent, wrap, col, more, env, true);
    } else {
      CanonicalValue(e, before, o.Type(env.cb), env.cb);
      l1 := RunValue(o, l, e, before, ts, around, Silent, wrap, col, more, env, true);
    }
  }

  lemma {:induction false} SilentCalm(e: Tree, cb: Callback)
    ensures Calm(Silent, true) && Allowed([e], cb, true)
  {
  }

  lemma {:induction false} CanonicalValue(e: Tree, before: seq<Tree>, ty: ValueType, cb: Callback)
    requires !e.Element? && CanonicalNode(e, before, ty, cb)
    ensures ValueOk(e, before, ty)
  {
    hide ValueOk;
  }

  /** All the siblings that are loaded back are plain. */
  lemma {:induction false} SyncNodes(o: Spot, l: Local, ts: seq<Tree>, before: seq<Tree>, around: seq<Around>,
                                     wrap: int, col: int, rest: string, env: Env, t: Tree, x: Tree)
    requires Siblings(o, l, ts, before, col, env, t, x) && Tail(rest)
    requires Reproduces(Run(At(o, l, env.cb), WriteNodes(ts, around, before, Silent, wrap, col).text + rest, env), t)
    ensures AllPlain(ts)
    decreases ts, 0
  {
    hide *;
    if ts == [] {
      NonePlain();
    } else {
      var e := ts[0];
      var w := WriteNode(e, around, before, ts[1..], Silent, wrap, col);
      var more := WriteNodes(ts[1..], around, before + [e], Silent, wrap, w.col).text + rest;
      NodesCons(ts, around, before, wrap, col, rest);
      FirstBefore(o, l, ts, before, col, env, t, x);
      SyncNode(o, l, before, ts[1..], around, wrap, col, rest, env, t, x, e);
      var l1 := RunNode(o, l, before, ts[1..], around, wrap, col, more, env, t, x, e);
      NextSiblings(o, l, l1, ts, before, col, w.col, env, t, x);
      SyncNodes(o, l1, ts[1..], before + [e], around, wrap, w.col, rest, env, t, x);
      PlainCons(ts);
    }
  }

  lemma {:induction false} PlainCons(ts: seq<Tree>)
    requires ts != [] && Plain(ts[0]) && AllPlain(ts[1..])
    ensures AllPlain(ts)
  {
    hide Plain;
    assert forall i :: 1 <= i < |ts| ==> ts[i] == ts[1..][i - 1];
  }

  lemma {:induction false} NodesCons(ts: seq<Tree>, around: seq<Around>, before: seq<Tree>, wrap: int, col: int, rest: string)
    requires ts != []
    ensures var w := WriteNode(ts[0], around, before, ts[1..], Silent, wrap, col);
            WriteNodes(ts, around, before, Silent, wrap, col).text + rest
              == w.text + (WriteNodes(ts[1..], around, before + [ts[0]], Silent, wrap, w.col).text + rest)
  {
    hide WriteNode;
  }

  // ----- the root -----

  lemma {:induction false} RootNode(t: Tree, cb: Callback)
    requires RegularRoot(t, cb) && t.Element?
    ensures Good(t.name) && RegularAttrs(t.attrs) && (IsMarkup(t.name) ==> t.attrs == [])
    ensures RegularNodes(t.kids, cb.TypeOf(t.name, t.attrs), cb)
  {
    hide Good, RegularAttrs, RegularNodes;
  }

  lemma {:induction false} RootAims(t: Tree)
    requires t.Element?
    ensures Aims(t, RootSpot(t.name, t.attrs), [], t)
  {
  }

  lemma {:induction false} RootChildren(t: Tree, col: int, env: Env)
    requires StandardEntities(env.ents) && RegularRoot(t, env.cb) && t.Element? && col > 0
    ensures Siblings(RootSpot(t.name, t.attrs), Fresh, t.kids, [], col, env, t, t)
  {
    hide *;
    RootNode(t, env.cb);
    RootAims(t);
    RootType(t, env.cb);
    FreshTracks(env.cb.TypeOf(t.name, t.attrs), col);
    ChildrenAre(RootSpot(t.name, t.attrs), t, col, env, t);
  }

  lemma {:induction false} EndIsTail(col: int)
    ensures AllSpace(EndOfFile(col)) && Tail(EndOfFile(col))
  {
  }

  lemma {:induction false} NotMarkupFits(t: Tree)
    requires t.Element? && (!IsMarkup(t.name) || t.kids == [])
    ensures RootFits(t)
  {
  }

  lemma {:induction false} EmptyRootExact(t: Tree, wrap: int, env: Env)
    requires StandardEntities(env.ents) && RegularRoot(t, env.cb) && t.Element? && t.kids == []
    requires Reproduces(Run(Start, Save(t, Silent, wrap), env), t)
    ensures Plain(t) && RootFits(t)
  {
    hide *;
    var end := EndOfFile(WriteNode(t, [], [], [], Silent, wrap, 0).col);
    SaveRest(t, Silent, wrap);
    RootNode(t, env.cb);
    NotMarkupFits(t);
    NonePlain();
    if IsMarkup(t.name) {
      SilentMarkup(t, [], [], [], wrap, 0, end);
      RootTells(t.name + ">" + end, env, t);
      MarkupExact(t.name, end, env.ents);
      PlainMarkup(t);
    } else {
      SilentEmpty(t, [], [], [], wrap, 0, end);
      RootTells(WriteName(t.name) + OpenTail(t.name, t.attrs, wrap, 0, " />", end), env, t);
      BothEnds();
      OpenExact(t.name, t.attrs, wrap, 0, " />", end, env.ents);
      PlainElement(t);
    }
  }

  lemma {:induction false} FullRootExact(t: Tree, wrap: int, env: Env)
    requires StandardEntities(env.ents) && RegularRoot(t, env.cb) && t.Element? && t.kids != [] && !IsMarkup(t.name)
    requires Reproduces(Run(Start, Save(t, Silent, wrap), env), t)
    ensures Plain(t) && RootFits(t)
  {
    hide *;
    var end := EndOfFile(WriteNode(t, [], [], [], Silent, wrap, 0).col);
    var open := WriteOpen(t.name, t.attrs, wrap, 0);
    var close := "</" + Escape(t.name) + ">" + end;
    var more := Inner(t, [], [], [], wrap, 0).text + close;
    SaveRest(t, Silent, wrap);
    RootNode(t, env.cb);
    SilentFull(t, [], [], [], wrap, 0, end);
    RootTells(WriteName(t.name) + OpenTail(t.name, t.attrs, wrap, 0, ">", more), env, t);
    BothEnds();
    OpenExact(t.name, t.attrs, wrap, 0, ">", more, env.ents);
    RunRootOpen(t.name, t.attrs, wrap, ">", more, env);
    OpenColumn(t.name, t.attrs, wrap, 0);
    RootChildren(t, open.col + 1, env);
    CloseIsTail(t.name, end);
    InnerIs(t, [], [], [], wrap, 0);
    SyncNodes(RootSpot(t.name, t.attrs), Fresh, t.kids, [], [] + [Around(t.name, t.attrs, [], [])], wrap, open.col + 1, close, env, t, t);
    PlainElement(t);
    NotMarkupFits(t);
  }

  /** The children of a processing instruction or declaration at the top, as they are written */
  function Held(t: Tree, wrap: int): Written
    requires t.Element?
  {
    WriteNodes(t.kids, [] + [Around(t.name, t.attrs, [], [])], [], Silent, wrap, |t.name| + 2)
  }

  lemma {:induction false} SilentHeld(t: Tree, wrap: int)
    requires t.Element? && IsMarkup(t.name) && t.attrs == [] && t.kids != []
    ensures Save(t, Silent, wrap) == ['<'] + (t.name + ">" + (Held(t, wrap).text + EndOfFile(Held(t, wrap).col)))
  {
    hide WriteNode, WriteNodes, ColumnAfter, IsMarkup, Save, EndOfFile;
    SaveRest(t, Silent, wrap);
    NoColumnAt(0);
    NoColumnAt(|t.name| + 2);
    var inner := Held(t, wrap);
    var end := EndOfFile(inner.col);
    StayingText(t, Silent, wrap, end);
    var text := t.name + ">" + (inner.text + end);
    assert [] + (inner.text + end) == inner.text + end;
    assert [] + (['<'] + text) == ['<'] + text;
  }

  /** Markup that gets children must be left open. */
  lemma {:induction false} HeldStays(t: Tree, rest: string, env: Env)
    requires t.Element? && t.attrs == [] && t.kids != [] && MarkupOk(t.name)
    requires Partial(t, Marked(Start, t.name, env.cb))
    ensures StaysOpen(t.name) && Marked(Start, t.name, env.cb) == At(RootSpot(t.name, []), Fresh, env.cb)
  {
    hide VerbatimOk, DeclarationOk, MarkupOk, Partial, AddNode;
    PushRoot(t.name, [], env.cb);
    if !MayOpen(t.name) {
      BackAdd(t, Start, Element(t.name, [], []));
    }
  }

  /** Whitespace up to the end of the input closes nothing. */
  lemma {:induction false} StaysToEnd(o: Spot, l: Local, s: string, env: Env)
    requires AllSpace(s) && Sound(l, o.Type(env.cb))
    ensures var r := Run(At(o, l, env.cb), s, env); r.Stopped? && r.st.stack != []
  {
    hide Run;
    if o.Type(env.cb) == OpaqueType {
      TrailingOpaque(o, l, s, env);
    } else {
      RunSpaces(o, l, s, [], env);
      assert s + [] == s;
      RunNothing(At(o, AfterSpaces(l, o.Type(env.cb), s), env.cb), env);
    }
  }

  lemma {:induction false} OpenAtEnd(o: Outcome, t: Tree)
    requires Reproduces(o, t) && o.st.stack != []
    ensures t.Element? && Top(o.st).kids == t.kids
  {
  }

  lemma {:induction false} HeldRootExact(t: Tree, wrap: int, env: Env)
    requires StandardEntities(env.ents) && RegularRoot(t, env.cb) && t.Element? && t.kids != [] && IsMarkup(t.name)
    requires Bytes(Save(t, Silent, wrap)) && Reproduces(Run(Start, Save(t, Silent, wrap), env), t)
    ensures Plain(t) && RootFits(t)
  {
    hide *;
    var inner := Held(t, wrap);
    var end := EndOfFile(inner.col);
    var tail := inner.text + end;
    RootNode(t, env.cb);
    SilentHeld(t, wrap);
    RootTells(t.name + ">" + tail, env, t);
    MarkupExact(t.name, tail, env.ents);
    MarkupTagOf(Start, t.name, tail, env);
    HeldStays(t, tail, env);
    RunRootTag(t.name + ">" + tail, At(RootSpot(t.name, []), Fresh, env.cb), tail, env);
    var o := RootSpot(t.name, []);
    RootChildren(t, |t.name| + 2, env);
    EndIsTail(inner.col);
    HeldIs(t, wrap);
    SyncNodes(o, Fresh, t.kids, [], [] + [Around(t.name, t.attrs, [], [])], wrap, |t.name| + 2, end, env, t, t);
    PlainMarkup(t);
    HeldToEnd(t, wrap, env);
    OpenNotLost(Save(t, Silent, wrap), env);
    OpenAtEnd(Run(Start, Save(t, Silent, wrap), env), t);
    HeldFits(t);
  }

  lemma {:induction false} HeldIs(t: Tree, wrap: int)
    requires t.Element?
    ensures Held(t, wrap) == WriteNodes(t.kids, [] + [Around(t.name, t.attrs, [], [])], [], Silent, wrap, |t.name| + 2)
  {
    hide WriteNodes;
  }

  lemma {:induction false} HeldFits(t: Tree)
    requires t.Element? && StaysOpen(t.name) && NotLost(t.kids)
    ensures RootFits(t)
  {
    hide StaysOpen, NotLost;
  }

  /** The run over a document that a processing instruction or declaration holds ends inside it. */
  lemma {:induction false} HeldToEnd(t: Tree, wrap: int, env: Env)
    requires StandardEntities(env.ents) && RegularRoot(t, env.cb) && t.Element? && t.kids != []
    requires StaysOpen(t.name) && t.attrs == [] && AllPlain(t.kids)
    ensures var r := Run(Start, Save(t, Silent, wrap), env); r.Stopped? && r.st.stack != []
  {
    hide *;
    var o := RootSpot(t.name, []);
    var inner := Held(t, wrap);
    var end := EndOfFile(inner.col);
    StaysIsMarkup(t.name);
    RootNode(t, env.cb);
    RootType(t, env.cb);
    SilentHeld(t, wrap);
    StayingTag(t.name, inner.text + end, env);
    PlainList(t.kids, o.Type(env.cb), env.cb);
    FreshTracks(o.Type(env.cb), |t.name| + 2);
    SilentAllowed(t.kids, env.cb);
    HeldIs(t, wrap);
    var l := RunNodes(o, Fresh, t.kids, [], [] + [Around(t.name, t.attrs, [], [])], Silent, wrap, |t.name| + 2, end, env, true);
    EndIsTail(inner.col);
    TracksSound(l, [] + t.kids, inner.col, o.Type(env.cb));
    StaysToEnd(o, l, end, env);
  }

  lemma {:induction false} TracksSound(l: Local, before: seq<Tree>, col: int, ty: ValueType)
    requires Tracks(l, before, col, ty, true)
    ensures Sound(l, ty)
  {
    hide Sound, Norm;
  }

  lemma {:induction false} SilentAllowed(ts: seq<Tree>, cb: Callback)
    ensures Calm(Silent, true) && Allowed(ts, cb, true)
  {
  }

  lemma {:induction false} PlainList(ts: seq<Tree>, ty: ValueType, cb: Callback)
    requires RegularNodes(ts, ty, cb) && AllPlain(ts)
    ensures CanonicalNodes(ts, [], ty, cb)
  {
    hide RegularNodes, CanonicalNodes, Plain;
    PlainNodes(ts, 0, ty, cb);
    assert ts[0..] == ts && ts[..0] == [];
  }

  // ----- main result -----

  lemma {:induction false} ReproducedLoads(s: string, t: Tree, env: Env)
    requires Reproduces(Run(Start, s, env), t)
    ensures Load(s, env) == Some(t)
  {
    hide Run;
  }

  lemma {:induction false} ExactConverse(t: Tree, wrap: int, env: Env)
    requires StandardEntities(env.ents) && Bytes(Save(t, Silent, wrap)) && t.Element?
    requires Reproduces(Run(Start, Save(t, Silent, wrap), env), t)
    ensures CanonicalRoot(t, env.cb)
  {
    hide *;
    var s := Save(t, Silent, wrap);
    ReproducedLoads(s, t, env);
    LoadRegular(s, env);
    if t.kids == [] {
      EmptyRootExact(t, wrap, env);
    } else if IsMarkup(t.name) {
      HeldRootExact(t, wrap, env);
    } else {
      FullRootExact(t, wrap, env);
    }
    PlainRoot(t, env.cb);
  }

  lemma {:induction false} CanonicalReproduced(t: Tree, wrap: int, env: Env)
    requires StandardEntities(env.ents) && CanonicalRoot(t, env.cb)
    ensures Reproduces(Run(Start, Save(t, Silent, wrap), env), t)
  {
    hide Run, CanonicalRoot, Save, NormTree, Single;
    SilentAllowed([t], env.cb);
    SaveReloads(t, Silent, wrap, env, true);
  }

  lemma {:induction false} CanonicalElement(t: Tree, cb: Callback)
    requires CanonicalRoot(t, cb)
    ensures t.Element?
  {
  }

  /** Exactly which trees survive: an element is reproduced by saving it and loading the text back,
      with nothing else left in memory, if and only if it is canonical. That holds for every tree,
      wrap margin and load callback. */
  lemma {:induction false} SaveLoadExact(t: Tree, wrap: int, env: Env)
    requires StandardEntities(env.ents) && Bytes(Save(t, Silent, wrap))
    ensures t.Element? && Reproduces(Run(Start, Save(t, Silent, wrap), env), t) <==> CanonicalRoot(t, env.cb)
  {
    hide *;
    if CanonicalRoot(t, env.cb) {
      CanonicalReproduced(t, wrap, env);
      CanonicalElement(t, env.cb);
    } else if t.Element? && Reproduces(Run(Start, Save(t, Silent, wrap), env), t) {
      ExactConverse(t, wrap, env);
    }
  }
}
