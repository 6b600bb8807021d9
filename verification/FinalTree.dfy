/** What the tree that a run of the main loop ends with says about the states on the way: nodes are
    only ever added behind others, so every open element is a part of that tree, and the children that
    it has so far are its first children there. */
module FinalTree {
  import opened Options
  import opened Chars
  import opened Numbers
  import opened Trees
  import opened Reader

  /** One node without a parent, finished or still open */
  predicate Single(st: State) {
    (|st.done| == 1 && st.stack == []) || (st.done == [] && |st.stack| == 1)
  }

  /** The main loop ends with `t`, and leaves no other node behind. */
  predicate Reproduces(o: Outcome, t: Tree) {
    o.Stopped? && Single(o.st) && Finish(o.st) == Some(t)
  }

  /** Is `x` what the open element `f` can still become? */
  predicate Becomes(f: Frame, x: Tree) {
    x.Element? && x.name == f.name && x.attrs == f.attrs && f.kids <= x.kids
  }

  /** The part of `t` that is reached through the open elements `stack`, from the outermost on: the
      next child of the innermost one */
  function Reach(t: Tree, stack: seq<Frame>): Option<Tree>
    decreases |stack|
  {
    if stack == [] then Some(t)
    else
      var n := |stack| - 1;
      match Reach(t, stack[..n])
      case None => None
      case Some(x) =>
        if Becomes(stack[n], x) && |stack[n].kids| < |x.kids| then Some(x.kids[|stack[n].kids|]) else None
  }

  /** The open elements are parts of `t`. */
  predicate Holds(t: Tree, stack: seq<Frame>)
    requires stack != []
  {
    var n := |stack| - 1;
    var x := Reach(t, stack[..n]);
    x.Some? && Becomes(stack[n], x.value)
  }

  predicate Partial(t: Tree, st: State) {
    if st.stack == [] then st.done == [] || st.done == [t] else st.done == [] && Holds(t, st.stack)
  }

  // ----- one change -----

  lemma {:induction false} BackAdd(t: Tree, st: State, node: Tree)
    requires Partial(t, AddNode(st, node))
    ensures Partial(t, st)
    ensures st.stack == [] ==> st.done == [] && node == t
    ensures st.stack != [] ==>
              var n := |st.stack| - 1;
              var x := Reach(t, st.stack[..n]).value;
              |st.stack[n].kids| < |x.kids| && x.kids[|st.stack[n].kids|] == node
  {
    if st.stack != [] {
      var n := |st.stack| - 1;
      var st' := AddNode(st, node);
      assert st'.stack[..n] == st.stack[..n];
      var x := Reach(t, st.stack[..n]).value;
      var kids := st.stack[n].kids;
      assert (kids + [node])[|kids|] == node && kids + [node] <= x.kids;
    } else {
      assert (st.done + [node])[0] == node && |st.done + [node]| == 1;
    }
  }

  lemma {:induction false} BackPush(t: Tree, st: State, name: string, attrs: seq<Attr>, cb: Callback)
    requires Partial(t, Push(st, name, attrs, cb))
    ensures Partial(t, st)
    ensures var x := Reach(t, st.stack); x.Some? && Becomes(Frame(name, attrs, []), x.value)
  {
    var st' := Push(st, name, attrs, cb);
    assert st'.stack[..|st.stack|] == st.stack;
  }

  lemma {:induction false} BackPop(t: Tree, st: State, cb: Callback)
    requires st.stack != [] && Partial(t, Pop(st, cb))
    ensures Partial(t, st)
    ensures var n := |st.stack| - 1; Reach(t, st.stack[..n]) == Some(st.stack[n].Close())
  {
    hide AddNode, Partial;
    var n := |st.stack| - 1;
    var below := State(st.done, st.stack[..n], st.ty, st.ws, st.buf);
    BackSame(t, Pop(st, cb), AddNode(below, st.stack[n].Close()));
    BackAdd(t, below, st.stack[n].Close());
    ClosedIsPartial(t, st, below);
  }

  lemma {:induction false} ClosedIsPartial(t: Tree, st: State, below: State)
    requires st.stack != [] && below.done == st.done && below.stack == st.stack[..|st.stack| - 1] && Partial(t, below)
    requires var top := st.stack[|st.stack| - 1];
             if below.stack == [] then st.done == [] && top.Close() == t
             else var n := |below.stack| - 1;
                  var x := Reach(t, below.stack[..n]);
                  |below.stack[n].kids| < |x.value.kids| && x.value.kids[|below.stack[n].kids|] == top.Close()
    ensures Partial(t, st) && Reach(t, st.stack[..|st.stack| - 1]) == Some(st.stack[|st.stack| - 1].Close())
  {
  }

  lemma {:induction false} BackSame(t: Tree, st: State, st': State)
    requires Partial(t, st) && st'.done == st.done && st'.stack == st.stack
    ensures Partial(t, st')
  {
  }

  // ----- one turn -----

  lemma {:induction false} BackValue(t: Tree, st: State)
    requires st.buf != [] && Partial(t, AddValue(st).st)
    ensures Partial(t, st)
  {
    hide Partial, AddNode;
    match st.ty
    case IgnoreType =>
    case TextType => BackAdd(t, st, Text(st.ws, st.buf));
    case OpaqueType => BackAdd(t, st, Opaque(st.buf));
    case IntegerType => BackAdd(t, st, AddedInteger(st));
  }

  function AddedInteger(st: State): Tree {
    Integer(ToInt32(StrToL(st.buf, 0).0))
  }

  lemma {:induction false} BackLone(t: Tree, st: State, c: char)
    requires Partial(t, LoneSpace(st, c))
    ensures Partial(t, st)
  {
    hide Partial, AddNode;
    if c == '<' && st.ws && st.ty == TextType {
      var st' := AddNode(st, Text(true, []));
      BackSame(t, LoneSpace(st, c), st');
      BackAdd(t, st, Text(true, []));
    }
  }

  lemma {:induction false} BackFlush(t: Tree, st: State, c: char)
    requires Partial(t, Flush(st, c).st)
    ensures Partial(t, st)
  {
    hide Partial, AddValue, LoneSpace;
    if (c == '<' || (IsSpace(c) && st.ty != OpaqueType)) && st.buf != [] {
      var r := AddValue(st);
      if r.Flushed? {
        var st1 := r.st.(buf := [], ws := IsSpace(c) && st.ty == TextType);
        BackLone(t, st1, c);
        BackSame(t, st1, r.st);
      }
      BackValue(t, st);
    } else if IsSpace(c) && st.ty == TextType {
      BackLone(t, st.(ws := true), c);
      BackSame(t, st.(ws := true), st);
    } else {
      BackLone(t, st, c);
    }
  }

  /** What a tag does to the open elements */
  datatype TagEffect = Fails | Closes | Adds(name: string, attrs: seq<Attr>)

  /** The element that markup makes */
  function MarkupEffect(r: Scanned): TagEffect {
    if r.Scanned? then Adds(r.text, []) else Fails
  }

  function OpenEffect(name: string, ch: Option<char>, s: string, ents: string -> int): TagEffect {
    if ch == None then Adds(name, [])
    else
      var r := TagEnd(ch.value, s, ents);
      if r.Parsed? then Adds(name, r.attrs) else Fails
  }

  function Effect(s: string, ents: string -> int): TagEffect {
    match ReadTagName(s, [], ents)
    case ScanError => Fails
    case Scanned(buf, ch, rest) =>
      if buf == "!--" then MarkupEffect(ReadMarkup(rest, buf, Comment))
      else if buf == "![CDATA[" then MarkupEffect(ReadMarkup(rest, buf, CData))
      else if buf != [] && buf[0] == '?' then MarkupEffect(ReadMarkup(rest, buf, Directive))
      else if buf != [] && buf[0] == '!' then MarkupEffect(ReadDeclaration(ch, rest, buf, ents))
      else if buf != [] && buf[0] == '/' then Closes
      else OpenEffect(buf, ch, rest, ents)
  }

  /** The state after the effect `e`; an element that is added may be left open. */
  ghost predicate Effected(o: Outcome, st: State, e: TagEffect, cb: Callback) {
    o == Failed ||
    (!o.Failed? &&
     match e
     case Fails => false
     case Closes => st.stack != [] && o.st == Pop(st, cb)
     case Adds(name, attrs) =>
       o.st == AddNode(st, Element(name, attrs, [])) || o.st == Push(st, name, attrs, cb))
  }

  lemma {:induction false} TagEffected(st: State, s: string, env: Env)
    ensures Effected(Tag(st, s, env), st, Effect(s, env.ents), env.cb)
  {
    hide ReadTagName, ReadMarkup, ReadDeclaration, TagEnd, SkipToClose, Push, Pop, AddNode;
  }

  lemma {:induction false} BackTag(t: Tree, st: State, s: string, env: Env)
    requires var o := Tag(st, s, env); !o.Failed? && Partial(t, o.st)
    ensures Partial(t, st)
  {
    hide Tag, Effect, Push, Pop, AddNode, Partial;
    TagEffected(st, s, env);
    var o := Tag(st, s, env);
    match Effect(s, env.ents)
    case Fails =>
    case Closes => BackPop(t, st, env.cb);
    case Adds(name, attrs) =>
      if o.st == AddNode(st, Element(name, attrs, [])) {
        BackAdd(t, st, Element(name, attrs, []));
      } else {
        BackPush(t, st, name, attrs, env.cb);
      }
  }

  lemma {:induction false} BackStep(t: Tree, st: State, c: char, s: string, env: Env)
    requires var o := Step(st, c, s, env); !o.Failed? && Partial(t, o.st)
    ensures Partial(t, st)
  {
    hide Flush, Tag, GetEntity, AddChar, Partial;
    var f := Flush(st, c);
    var o := Step(st, c, s, env);
    if f.Flushed? {
      if c == '<' {
        BackTag(t, f.st.(buf := []), s, env);
      }
      BackSame(t, if c == '<' then f.st.(buf := []) else o.st, f.st);
    }
    BackFlush(t, st, c);
  }

  lemma {:induction false} FinalPartial(st: State, t: Tree)
    requires Single(st) && Finish(st) == Some(t)
    ensures Partial(t, st)
  {
    if st.stack == [] {
      assert st.done == [st.done[0]];
    } else {
      assert st.stack[..0] == [];
    }
  }

  /** The state at the start of a run that ends with `t` and nothing else */
  lemma {:induction false} RunPartial(st: State, s: string, env: Env, t: Tree)
    requires Reproduces(Run(st, s, env), t)
    ensures Partial(t, st)
    decreases |s|
  {
    hide Step, Partial, Single, Finish;
    match GetC(s)
    case Eof(_) => FinalPartial(st, t);
    case Got(c, rest) =>
      match Step(st, c, rest, env)
      case Failed =>
      case Stopped(st') =>
        FinalPartial(st', t);
        BackStep(t, st, c, rest, env);
      case Running(st', rest') =>
        RunPartial(st', rest', env, t);
        BackStep(t, st, c, rest, env);
  }
}
