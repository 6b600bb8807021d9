/** A tree of nodes that is saved to a string and loaded again. */
module Copying {
  import opened Options
  import opened Chars
  import opened Numbers
  import opened Trees
  import opened Forests
  import opened ForestOps
  import opened Finding
  import opened TreeValues
  import opened Reader
  import opened Writer
  import opened Canonical
  import opened RootProofs
  import opened Printing
  import opened Saving
  import opened Loading

  // ----- canonical trees are written without NULs -----

  /** Every string of the tree holds only characters that the parser accepts. */
  ghost predicate GoodTree(t: Tree)
    decreases t, 0
  {
    match t
    case Element(name, attrs, kids) =>
      && Good(name)
      && (forall i :: 0 <= i < |attrs| ==> GoodAttr(attrs[i]))
      && GoodTrees(kids)
    case Integer(_) => true
    case Opaque(s) => Good(s)
    case Text(_, s) => Good(s)
  }

  ghost predicate GoodTrees(ts: seq<Tree>)
    decreases ts, 1
  {
    ts != [] ==> GoodTree(ts[0]) && GoodTrees(ts[1..])
  }

  predicate GoodAttr(a: Attr) {
    Good(a.name) && (a.value.Some? ==> Good(a.value.value))
  }

  lemma {:induction false} CanonicalIsGood(t: Tree, before: seq<Tree>, ty: ValueType, cb: Callback)
    requires CanonicalNode(t, before, ty, cb)
    ensures GoodTree(t)
    decreases t, 0
  {
    if t.Element? && !IsMarkup(t.name) {
      CanonicalAreGood(t.kids, [], cb.TypeOf(t.name, t.attrs), cb);
    }
  }

  lemma {:induction false} CanonicalAreGood(ts: seq<Tree>, before: seq<Tree>, ty: ValueType, cb: Callback)
    requires CanonicalNodes(ts, before, ty, cb)
    ensures GoodTrees(ts)
    decreases ts, 1
  {
    if ts != [] {
      CanonicalIsGood(ts[0], before, ty, cb);
      CanonicalAreGood(ts[1..], before + [ts[0]], ty, cb);
    }
  }

  lemma {:induction false} RootIsGood(t: Tree, cb: Callback)
    requires CanonicalRoot(t, cb)
    ensures GoodTree(t)
  {
    hide GoodTrees, CanonicalNodes;
    if CanonicalNode(t, [], TextType, cb) {
      CanonicalIsGood(t, [], TextType, cb);
    } else {
      CanonicalAreGood(t.kids, [], cb.TypeOf(t.name, []), cb);
    }
  }

  lemma {:induction false} GoodJoin(a: string, b: string)
    requires Good(a) && Good(b)
    ensures Good(a + b)
  {
  }

  lemma {:induction false} EscapeIsGood(s: string)
    requires Good(s)
    ensures Good(Escape(s))
  {
    if s != [] {
      EscapeIsGood(s[1..]);
      assert Good(EscapeChar(s[0]));
      GoodJoin(EscapeChar(s[0]), Escape(s[1..]));
    }
  }

  lemma {:induction false} UpToIsGood(s: string, quote: char)
    requires Good(s)
    ensures Good(UpTo(s, quote))
  {
    if s != [] {
      UpToIsGood(s[1..], quote);
    }
  }

  lemma {:induction false} NameIsGood(s: string)
    requires Good(s)
    ensures Good(WriteName(s))
  {
    hide Escape, UpTo;
    if s != [] && IsQuote(s[0]) {
      UpToIsGood(s[1..], s[0]);
      EscapeIsGood(UpTo(s[1..], s[0]));
    }
  }

  lemma {:induction false} AttrsAreGood(attrs: seq<Attr>, wrap: int, col: int)
    requires forall i :: 0 <= i < |attrs| ==> GoodAttr(attrs[i])
    ensures Good(WriteAttrs(attrs, wrap, col).text)
  {
    hide Escape, WriteName, Good, AttrWidth;
    if attrs == [] {
      assert Good("") by { NothingIsGood(); }
    } else {
      var a := attrs[0];
      var sep := WriteSeparator(col + AttrWidth(a) > wrap, col);
      AttrsAreGood(attrs[1..], wrap, sep.col + AttrWidth(a));
      AttrIsGood(a);
      SeparatorIsGood(col + AttrWidth(a) > wrap, col);
      GoodJoin(sep.text, AttrText(a));
      GoodJoin(sep.text + AttrText(a), WriteAttrs(attrs[1..], wrap, sep.col + AttrWidth(a)).text);
    }
  }

  lemma {:induction false} NothingIsGood()
    ensures Good("") && Good("<") && Good(">") && Good(" />") && Good("</") && Good("\n")
  {
  }

  lemma {:induction false} SeparatorIsGood(pastMargin: bool, col: int)
    ensures Good(WriteSeparator(pastMargin, col).text)
  {
  }

  lemma {:induction false} AttrIsGood(a: Attr)
    requires GoodAttr(a)
    ensures Good(AttrText(a))
  {
    hide Escape, WriteName;
    NameIsGood(a.name);
    if a.value.Some? {
      EscapeIsGood(a.value.value);
    }
  }

  lemma {:induction false} DecimalIsGood(n: int)
    ensures Good(Decimal(n))
  {
    hide Digits;
  }

  lemma {:induction false} SpacesAreGood(n: nat)
    ensures Good(Spaces(n))
  {
    if n > 0 {
      SpacesAreGood(n - 1);
    }
  }

  lemma {:induction false} SpacingIsGood(indent: bool, p: Place, where: Where)
    ensures Good(CallbackOf(indent)(p, where))
  {
    hide Spaces, HasElement;
    SpacesAreGood(if 0 <= |p.around| - 1 < 29 then |p.around| - 1 else 29);
  }

  lemma {:induction false} OpenIsGood(name: string, attrs: seq<Attr>, wrap: int, col: int)
    requires Good(name) && forall i :: 0 <= i < |attrs| ==> GoodAttr(attrs[i])
    ensures Good(WriteOpen(name, attrs, wrap, col).text)
  {
    hide WriteName, WriteAttrs;
    NameIsGood(name);
    AttrsAreGood(attrs, wrap, col + |name| + 1);
  }

  lemma {:induction false} EndIsGood(p: Place, name: string, kids: Written, indent: bool)
    requires Good(name) && Good(kids.text)
    ensures Good(WriteEnd(p, name, kids, CallbackOf(indent)).text)
  {
    hide *;
    EndParts(p, name, kids, indent);
    EndNameIsGood(name);
    SpacesGood(indent, p);
    GoodJoin(kids.text, Spacing(indent, p, BeforeClose));
    GoodJoin(kids.text + Spacing(indent, p, BeforeClose), EndName(name));
    GoodJoin(kids.text + Spacing(indent, p, BeforeClose) + EndName(name), Spacing(indent, p, AfterClose));
  }

  lemma {:induction false} SpacesGood(indent: bool, p: Place)
    ensures forall w :: Good(Spacing(indent, p, w))
  {
    forall w
      ensures Good(Spacing(indent, p, w))
    {
      SpacingIsGood(indent, p, w);
    }
  }

  lemma {:induction false} EndNameIsGood(name: string)
    requires Good(name)
    ensures Good(EndName(name))
  {
    hide Escape;
    EscapeIsGood(name);
  }

  lemma {:induction false} EmptyIsGood(p: Place, name: string, indent: bool, col: int)
    ensures Good(WriteEmpty(p, name, col, CallbackOf(indent)).text)
  {
    hide *;
    EmptyParts(p, name, indent, col);
    SpacesGood(indent, p);
    NothingIsGood();
    GoodJoin(if IsMarkup(name) then ">" else " />", Spacing(indent, p, AfterClose));
  }

  lemma {:induction false} ElementIsGood(t: Tree)
    requires GoodTree(t) && t.Element?
    ensures Good(t.name) && (forall i :: 0 <= i < |t.attrs| ==> GoodAttr(t.attrs[i])) && GoodTrees(t.kids)
  {
  }

  lemma {:induction false} NodeIsGood(t: Tree, around: seq<Around>, before: seq<Tree>, after: seq<Tree>, indent: bool, wrap: int, col: int)
    requires GoodTree(t)
    ensures Good(WriteNode(t, around, before, after, CallbackOf(indent), wrap, col).text)
    decreases t, 0
  {
    hide *;
    if !t.Element? {
      ValueIsGood(t, around, before, after, CallbackOf(indent), wrap, col);
      return;
    }
    ElementIsGood(t);
    var p, cb := Place(around, before, t, after), CallbackOf(indent);
    ElementParts(t, around, before, after, indent, wrap, col);
    SpacesGood(indent, p);
    var c := ColumnAfter(Spacing(indent, p, BeforeOpen), col);
    OpenIsGood(t.name, t.attrs, wrap, c);
    var open := WriteOpen(t.name, t.attrs, wrap, c);
    var rest;
    if t.kids == [] {
      EmptyIsGood(p, t.name, indent, open.col);
      rest := WriteEmpty(p, t.name, open.col, cb);
    } else {
      ContentParts(p, indent, wrap, open.col);
      var d := ColumnAfter(Spacing(indent, p, AfterOpen), open.col + 1);
      NodesAreGood(t.kids, InnerPath(p), [], indent, wrap, d);
      var inner := WriteNodes(t.kids, InnerPath(p), [], cb, wrap, d);
      EndIsGood(p, t.name, inner, indent);
      NothingIsGood();
      GoodJoin(">", Spacing(indent, p, AfterOpen));
      GoodJoin(">" + Spacing(indent, p, AfterOpen), WriteEnd(p, t.name, inner, cb).text);
      rest := WriteContent(p, cb, wrap, open.col);
    }
    GoodJoin(Spacing(indent, p, BeforeOpen), open.text);
    GoodJoin(Spacing(indent, p, BeforeOpen) + open.text, rest.text);
  }

  lemma {:induction false} ValueIsGood(t: Tree, around: seq<Around>, before: seq<Tree>, after: seq<Tree>, cb: WsCallback, wrap: int, col: int)
    requires GoodTree(t) && !t.Element?
    ensures Good(WriteNode(t, around, before, after, cb, wrap, col).text)
  {
    hide Escape, Decimal;
    match t {
      case Integer(n) =>
        DecimalIsGood(n);
        EscapeIsGood(Decimal(n));
      case Opaque(s) => EscapeIsGood(s);
      case Text(_, s) => EscapeIsGood(s);
    }
  }

  lemma {:induction false} NodesAreGood(ts: seq<Tree>, around: seq<Around>, before: seq<Tree>, indent: bool, wrap: int, col: int)
    requires GoodTrees(ts)
    ensures Good(WriteNodes(ts, around, before, CallbackOf(indent), wrap, col).text)
    decreases ts, 1
  {
    hide Good, WriteNode, CallbackOf, GoodTree;
    if ts == [] {
      NothingIsGood();
    } else {
      var cb := CallbackOf(indent);
      var first := WriteNode(ts[0], around, before, ts[1..], cb, wrap, col);
      NodeIsGood(ts[0], around, before, ts[1..], indent, wrap, col);
      NodesAreGood(ts[1..], around, before + [ts[0]], indent, wrap, first.col);
      GoodJoin(first.text, WriteNodes(ts[1..], around, before + [ts[0]], cb, wrap, first.col).text);
    }
  }

  lemma {:induction false} TextIsWhole(t: Tree, indent: bool, cb: Callback)
    requires CanonicalRoot(t, cb)
    ensures var text := Save(t, CallbackOf(indent), WRAP); text != [] && CString(text) == text
  {
    RootIsGood(t, cb);
    NodeIsGood(t, [], [], [], indent, WRAP, 0);
    hide GoodTree, CanonicalRoot, WriteNode, CallbackOf;
    var text := Save(t, CallbackOf(indent), WRAP);
    WholeString(text);
    SaveNotEmpty(t, CallbackOf(indent), WRAP);
  }

  lemma {:induction false} SaveNotEmpty(t: Tree, cb: WsCallback, wrap: int)
    requires t.Element?
    ensures Save(t, cb, wrap) != []
  {
    hide WriteAttrs, WriteNodes, WriteEnd, WriteEmpty, WriteName;
  }

  // ----- the copy -----

  /** Saving a canonical tree of nodes to a string and loading the string builds new nodes for the
      same tree; with the library's indentation, for the same tree up to whitespace. */
  method SaveAndLoad(node: Node, indent: bool, env: Env, ghost f: Forest, ghost vals: map<Node, NodeValue>)
    returns (copy: Node?, ghost g: Forest)
    requires Mirrors(f, vals) && node in f.kids && node !in f.up
    requires StandardEntities(env.ents) && CanonicalRoot(TreeOf(f, vals, node), env.cb)
    requires indent ==> NoOpaque(TreeOf(f, vals, node), env.cb)
    ensures Mirrors(f, vals) && WellFormed(g) && Linked(g) && fresh(g.kids.Keys)
    ensures copy != null && copy in g.kids && copy !in g.up
    ensures !indent ==> TreeOf(g, Values(g), copy) == TreeOf(f, vals, node)
    ensures indent ==> NormTree(TreeOf(g, Values(g), copy)) == NormTree(TreeOf(f, vals, node))
  {
    hide *;
    MirrorFacts(f, vals, node);
    ghost var t := TreeOf(f, vals, node);
    TextIsWhole(t, indent, env.cb);
    TextReloads(t, indent, env);
    TextOfRoot(f, vals, node, indent);
    var text := SaveAllocString(node, indent, f, vals);
    ghost var built, first;
    copy, g, built, first := LoadString(text.value, env);
  }

  lemma {:induction false} TextReloads(t: Tree, indent: bool, env: Env)
    requires StandardEntities(env.ents) && CanonicalRoot(t, env.cb) && (indent ==> NoOpaque(t, env.cb))
    ensures var r := Load(Save(t, CallbackOf(indent), WRAP), env);
            r.Some? && if indent then NormTree(r.value) == NormTree(t) else r.value == t
  {
    if indent {
      SaveIndentedThenLoad(t, WRAP, env);
    } else {
      SaveThenLoad(t, WRAP, env);
    }
  }
}
