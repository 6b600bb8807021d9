/** Which of the trees that the parser can build are canonical, so that saving and loading them again
    gives them back. */
module Loaded {
  import opened Options
  import opened Chars
  import opened Numbers
  import opened Trees
  import opened Reader
  import opened Writer
  import opened Canonical
  import opened RootProofs

  // ----- what the parser guarantees -----

  predicate GoodAttr(a: Attr) {
    && a.name != [] && Good(a.name) && StartsName(a.name[0])
    && a.value.Some? && Good(a.value.value)
  }

  /** Can this be the first character of an attribute's name? */
  predicate StartsName(c: char) {
    !IsSpace(c) && c !in "/?<>" && !IsQuote(c)
  }

  ghost predicate RegularAttrs(attrs: seq<Attr>) {
    UniqueNames(attrs) && forall i :: 0 <= i < |attrs| ==> GoodAttr(attrs[i])
  }

  /** A value node of a loaded tree, after `before`, in an element whose values have type `ty` */
  predicate RegularValue(t: Tree, before: seq<Tree>, ty: ValueType)
    requires !t.Element?
  {
    var last := |before| - 1;
    match t
    case Text(ws, s) =>
      ty == TextType && Good(s) && (s == [] ==> ws) && (before != [] && before[last].Text? ==> ws && before[last].s != [])
    case Opaque(s) =>
      ty == OpaqueType && s != [] && Good(s) && !(before != [] && before[last].Opaque?)
    case Integer(n) =>
      ty == IntegerType && -0x8000_0000 <= n < 0x8000_0000
  }

  /** A node of a loaded tree below the root */
  ghost predicate RegularNode(t: Tree, before: seq<Tree>, ty: ValueType, cb: Callback)
    decreases t, 1
  {
    if t.Element? then
      Good(t.name) &&
      if IsMarkup(t.name) then t.attrs == [] && t.kids == []
      else RegularAttrs(t.attrs) && RegularNodes(t.kids, cb.TypeOf(t.name, t.attrs), cb)
    else RegularValue(t, before, ty)
  }

  ghost predicate RegularNodes(ts: seq<Tree>, ty: ValueType, cb: Callback)
    decreases ts, 0
  {
    forall i :: 0 <= i < |ts| ==> RegularNode(ts[i], ts[..i], ty, cb)
  }

  /** An element at the top: there a processing instruction or declaration can have children. */
  ghost predicate RegularRoot(t: Tree, cb: Callback) {
    t.Element? ==>
      Good(t.name) && RegularAttrs(t.attrs) && (IsMarkup(t.name) ==> t.attrs == []) &&
      RegularNodes(t.kids, cb.TypeOf(t.name, t.attrs), cb)
  }

  lemma {:induction false} RegularAppend(ts: seq<Tree>, t: Tree, ty: ValueType, cb: Callback)
    requires RegularNodes(ts, ty, cb) && RegularNode(t, ts, ty, cb)
    ensures RegularNodes(ts + [t], ty, cb)
  {
    hide RegularNode;
    var all := ts + [t];
    forall i | 0 <= i < |all|
      ensures RegularNode(all[i], all[..i], ty, cb)
    {
      if i < |ts| {
        assert all[i] == ts[i] && all[..i] == ts[..i];
      } else {
        assert all[..i] == ts;
      }
    }
  }

  // ----- characters -----

  /** A C string holds bytes. */
  predicate Bytes(s: string) {
    forall i :: 0 <= i < |s| ==> s[i] as int < 256
  }

  lemma {:induction false} Join(a: string, code: int)
    requires Good(a) && (!BadChar(code) || code == -1)
    ensures Good(a + AddChar(code)) && |a| < |a + AddChar(code)| && a <= a + AddChar(code)
  {
    hide AddChar;
    AddCharGood(code);
  }

  lemma {:induction false} LowByteGood(n: int)
    requires 32 <= n % 256
    ensures GoodChar(LowByte(n))
  {
  }

  /** Bit 7 of a number is bit 7 of its low byte. */
  lemma {:induction false} HighBit(n: nat)
    requires (n / 0x80) % 2 == 1
    ensures n % 256 >= 128
  {
    var q := n / 256;
    assert n == 256 * q + n % 256;
    assert n / 0x80 == 2 * q + (n % 256) / 0x80;
  }

  lemma {:induction false} OneByteGood(code: int)
    requires (!BadChar(code) || code == -1) && (code < 0x80 || (code / 0x80) % 2 == 1)
    ensures GoodChar(LowByte(code))
  {
    if code >= 0x80 {
      HighBit(code);
      LowByteGood(code);
    }
  }

  /** The bytes of the longer forms all have bit 7 set. */
  lemma {:induction false} HighByteGood(n: int)
    requires 0x80 <= n < 0x100
    ensures GoodChar(LowByte(n))
  {
    LowByteGood(n);
  }

  lemma {:induction false} AddCharGood(code: int)
    requires !BadChar(code) || code == -1
    ensures Good(AddChar(code))
  {
    hide GoodChar, LowByte;
    if code < 0x80 || (code / 0x80) % 2 == 1 {
      OneByteGood(code);
    } else {
      LaterByte(code);
      LaterByte(code / 0x40);
      LaterByte(code / 0x1000);
      if code < 0x800 {
        HighByteGood(0xC0 + code / 0x40);
      } else if code < 0x10000 {
        HighByteGood(0xE0 + code / 0x1000);
      } else {
        HighByteGood(0xF0 + code / 0x40000 % 0x10);
      }
    }
  }

  lemma {:induction false} LaterByte(n: nat)
    ensures GoodChar(LowByte(0x80 + n % 0x40))
  {
    HighByteGood(0x80 + n % 0x40);
  }

  lemma {:induction false} GotGood(s: string)
    requires Bytes(s)
    ensures var g := GetC(s); Bytes(g.rest) && (g.Got? ==> GoodChar(g.c) && !BadChar(g.c as int))
  {
  }

  lemma {:induction false} NonSpaceGood(s: string)
    requires Bytes(s)
    ensures var g := NextNonSpace(s); Bytes(g.rest) && (g.Got? ==> GoodChar(g.c))
    decreases |s|
  {
    hide GetC, GoodChar, BadChar, Bytes;
    GotGood(s);
    if GetC(s).Got? {
      NonSpaceGood(GetC(s).rest);
    }
  }

  lemma {:induction false} EntityNameBytes(s: string, name: string)
    requires Bytes(s)
    ensures Bytes(ReadEntityName(s, name).rest)
    decreases |s|
  {
    hide GetC, GoodChar, BadChar, Bytes, IsAlnum;
    var g := GetC(s);
    GotGood(s);
    if g.Got? {
      EntityNameBytes(g.rest, name + [g.c]);
    }
  }

  lemma {:induction false} EntityGood(s: string, ents: string -> int)
    requires Bytes(s)
    ensures var e := GetEntity(s, ents); e.Entity? ==> Bytes(e.rest) && !BadChar(e.code)
  {
    hide ReadEntityName, EntityValue, BadChar, Bytes;
    EntityNameBytes(s, "");
  }

  // ----- names and values -----

  lemma {:induction false} TagNameGood(s: string, buf: string, ents: string -> int)
    requires Bytes(s) && Good(buf)
    ensures var r := ReadTagName(s, buf, ents);
            r.Scanned? ==> Good(r.text) && Bytes(r.rest) && (r.ch.Some? ==> !BadChar(r.ch.value as int))
    decreases |s|
  {
    hide Good, Bytes, GoodChar, GetC, AddChar, GetEntity, StopsTagName, BadChar;
    var g := GetC(s);
    GotGood(s);
    if g.Got? {
      Join(buf, g.c as int);
      TagNameGood(g.rest, buf + AddChar(g.c as int), ents);
      var e := GetEntity(g.rest, ents);
      EntityGood(g.rest, ents);
      if e.Entity? {
        Join(buf, e.code);
        TagNameGood(e.rest, buf + AddChar(e.code), ents);
      }
    }
  }

  lemma {:induction false} AttrNameGood(s: string, name: string, ents: string -> int)
    requires Bytes(s) && Good(name) && name != []
    ensures var r := ReadAttrName(s, name, ents); r.Scanned? ==> Good(r.text) && Bytes(r.rest) && name <= r.text
    decreases |s|
  {
    hide Good, Bytes, GoodChar, GetC, AddChar, GetEntity, BadChar;
    var g := GetC(s);
    GotGood(s);
    if g.Got? {
      Join(name, g.c as int);
      AttrNameGood(g.rest, name + AddChar(g.c as int), ents);
      var e := GetEntity(g.rest, ents);
      EntityGood(g.rest, ents);
      if e.Entity? {
        Join(name, e.code);
        AttrNameGood(e.rest, name + AddChar(e.code), ents);
      }
    }
  }

  lemma {:induction false} QuotedGood(s: string, quote: char, value: string, ents: string -> int)
    requires Bytes(s) && Good(value)
    ensures var r := ReadQuoted(s, quote, value, ents); r.Scanned? ==> Good(r.text) && Bytes(r.rest)
    decreases |s|
  {
    hide Good, Bytes, GoodChar, GetC, AddChar, GetEntity, BadChar;
    var g := GetC(s);
    GotGood(s);
    if g.Got? {
      Join(value, g.c as int);
      QuotedGood(g.rest, quote, value + AddChar(g.c as int), ents);
      var e := GetEntity(g.rest, ents);
      EntityGood(g.rest, ents);
      if e.Entity? {
        Join(value, e.code);
        QuotedGood(e.rest, quote, value + AddChar(e.code), ents);
      }
    }
  }

  lemma {:induction false} UnquotedGood(s: string, value: string, ents: string -> int)
    requires Bytes(s) && Good(value)
    ensures var r := ReadUnquoted(s, value, ents); r.Scanned? ==> Good(r.text) && Bytes(r.rest)
    decreases |s|
  {
    hide Good, Bytes, GoodChar, GetC, AddChar, GetEntity, BadChar;
    var g := GetC(s);
    GotGood(s);
    if g.Got? {
      Join(value, g.c as int);
      UnquotedGood(g.rest, value + AddChar(g.c as int), ents);
      var e := GetEntity(g.rest, ents);
      EntityGood(g.rest, ents);
      if e.Entity? {
        Join(value, e.code);
        UnquotedGood(e.rest, value + AddChar(e.code), ents);
      }
    }
  }

  lemma {:induction false} MarkupGood(s: string, buf: string, kind: MarkupKind)
    requires Bytes(s) && Good(buf)
    ensures var r := ReadMarkup(s, buf, kind); r.Scanned? ==> Good(r.text) && Bytes(r.rest) && buf <= r.text
    decreases |s|
  {
    hide Good, Bytes, GoodChar, GetC, AddChar, EndsMarkup, BadChar;
    var g := GetC(s);
    GotGood(s);
    if g.Got? {
      Join(buf, g.c as int);
      MarkupGood(g.rest, buf + AddChar(g.c as int), kind);
    }
  }

  lemma {:induction false} DeclarationGood(ch: Option<char>, s: string, buf: string, ents: string -> int)
    requires Bytes(s) && Good(buf) && (ch.Some? ==> !BadChar(ch.value as int))
    ensures var r := ReadDeclaration(ch, s, buf, ents); r.Scanned? ==> Good(r.text) && Bytes(r.rest) && buf <= r.text
    decreases |s|
  {
    hide Good, Bytes, GoodChar, GetC, AddChar, GetEntity, BadChar;
    if ch != Some('>') {
      EntityGood(s, ents);
      var e := if ch == Some('&') then GetEntity(s, ents) else Entity(if ch.Some? then ch.value as int else -1, s);
      if e.Entity? {
        Join(buf, e.code);
        GotGood(e.rest);
        var g := GetC(e.rest);
        if g.Got? {
          DeclarationGood(Some(g.c), g.rest, buf + AddChar(e.code), ents);
        }
      }
    }
  }

  lemma {:induction false} SkipBytes(ch: Option<char>, s: string)
    requires Bytes(s)
    ensures Bytes(SkipToClose(ch, s))
    decreases |s|, if ch.Some? then 1 else 0
  {
    hide Bytes, GoodChar, GetC, BadChar;
    if ch != Some('>') && ch != None {
      GotGood(s);
      match GetC(s)
      case Eof(rest) => SkipBytes(None, rest);
      case Got(c, rest) => SkipBytes(Some(c), rest);
    }
  }

  // ----- attributes -----

  lemma {:induction false} SetRegular(attrs: seq<Attr>, name: string, value: string)
    requires RegularAttrs(attrs) && GoodAttr(Attr(name, Some(value)))
    ensures RegularAttrs(SetAttr(attrs, name, Some(value)))
  {
    hide GoodAttr;
    var i := FindAttr(attrs, name);
    if i < |attrs| {
      assert Attr(attrs[i].name, Some(value)) == Attr(name, Some(value));
    }
  }

  lemma {:induction false} AfterNameBytes(ch: Option<char>, s: string)
    requires Bytes(s)
    ensures Bytes(AfterName(ch, s).rest)
  {
    hide Bytes, NextNonSpace;
    NonSpaceGood(s);
  }

  lemma {:induction false} ValueGood(name: string, s: string, ents: string -> int)
    requires Bytes(s)
    ensures var r := ReadValue(name, s, ents); r.AttrDone? ==> r.name == name && Good(r.value) && Bytes(r.rest)
  {
    hide NextNonSpace, ReadQuoted, ReadUnquoted, Bytes, GoodChar;
    var g := NextNonSpace(s);
    NonSpaceGood(s);
    if g.Got? {
      QuotedGood(g.rest, g.c, [], ents);
      UnquotedGood(g.rest, [g.c], ents);
    }
  }

  lemma {:induction false} AttrGood(c: char, s: string, attrs: seq<Attr>, ents: string -> int)
    requires Bytes(s) && GoodChar(c) && !IsSpace(c) && c !in "/?<>"
    ensures var r := ReadAttr(c, s, attrs, ents); r.AttrDone? ==> GoodAttr(Attr(r.name, Some(r.value))) && Bytes(r.rest)
  {
    hide ReadAttrName, ReadQuotedName, AfterName, ReadValue, GetAttr, Bytes, GoodChar;
    if IsQuote(c) {
      QuotedNameFails(c, s, attrs, ents);
    } else {
      AttrNameGood(s, [c], ents);
      var n := ReadAttrName(s, [c], ents);
      if n.Scanned? {
        assert n.text[0] == [c][0];
        AfterNameBytes(n.ch, n.rest);
        ValueGood(n.text, AfterName(n.ch, n.rest).rest, ents);
      }
    }
  }

  lemma {:induction false} GreaterBytes(ch: char, s: string, attrs: seq<Attr>)
    requires Bytes(s)
    ensures var r := ExpectGreater(ch, s, attrs); r.Parsed? ==> r.attrs == attrs && Bytes(r.rest)
  {
    hide GetC, Bytes;
    GotGood(s);
  }

  lemma {:induction false} ParseGood(s: string, attrs: seq<Attr>, ents: string -> int)
    requires Bytes(s) && RegularAttrs(attrs)
    ensures var r := ParseElement(s, attrs, ents); r.Parsed? ==> RegularAttrs(r.attrs) && Bytes(r.rest)
    decreases |s|
  {
    hide GetC, Bytes, GoodChar, BadChar, ReadAttr, SetAttr, RegularAttrs, GoodAttr, ExpectGreater;
    var g := GetC(s);
    GotGood(s);
    if g.Got? {
      ParseGood(g.rest, attrs, ents);
      GreaterBytes(g.c, g.rest, attrs);
      var a := ReadAttr(g.c, g.rest, attrs, ents);
      if !IsSpace(g.c) && g.c !in "/?<>" && a.AttrDone? {
        AttrGood(g.c, g.rest, attrs, ents);
        var attrs' := SetAttr(attrs, a.name, Some(a.value));
        SetRegular(attrs, a.name, a.value);
        ParseGood(a.rest, attrs', ents);
        if a.ch.Some? {
          GreaterBytes(a.ch.value, a.rest, attrs');
        }
      }
    }
  }

  lemma {:induction false} TagEndGood(stop: char, s: string, ents: string -> int)
    requires Bytes(s)
    ensures var r := TagEnd(stop, s, ents); r.Parsed? ==> RegularAttrs(r.attrs) && Bytes(r.rest)
  {
    hide ParseElement, ExpectGreater, Bytes;
    ParseGood(s, [], ents);
    GreaterBytes(stop, s, []);
  }

  // ----- the state of the main loop -----

  /** Open element number `i` */
  ghost predicate RegularFrame(f: Frame, i: nat, cb: Callback) {
    RegularRoot(f.Close(), cb) && (i > 0 ==> !IsMarkup(f.name))
  }

  ghost predicate RegularStack(stack: seq<Frame>, cb: Callback) {
    forall i :: 0 <= i < |stack| ==> RegularFrame(stack[i], i, cb)
  }

  ghost predicate RegularDone(done: seq<Tree>, cb: Callback) {
    forall i :: 0 <= i < |done| ==> RegularRoot(done[i], cb)
  }

  function Top(st: State): Frame
    requires st.stack != []
  {
    st.stack[|st.stack| - 1]
  }

  predicate TypeFits(st: State, cb: Callback) {
    if st.stack == [] then cb.NoCallback? ==> st.ty == TextType
    else st.ty == cb.TypeOf(Top(st).name, Top(st).attrs)
  }

  /** What every state of the main loop keeps */
  ghost predicate Regular(st: State, cb: Callback) {
    RegularStack(st.stack, cb) && RegularDone(st.done, cb) && TypeFits(st, cb)
  }

  /** Between two turns, the values at the end of the innermost element are cut off from what comes
      next: the next text node will have its whitespace flag set. */
  predicate Settled(kids: seq<Tree>, ws: bool) {
    kids != [] ==>
      var last := kids[|kids| - 1];
      !last.Opaque? && (last.Text? ==> ws && last.s != [])
  }

  predicate SettledState(st: State) {
    st.stack != [] ==> Settled(Top(st).kids, st.ws)
  }

  lemma {:induction false} StackAppend(stack: seq<Frame>, f: Frame, cb: Callback)
    requires RegularStack(stack, cb) && RegularFrame(f, |stack|, cb)
    ensures RegularStack(stack + [f], cb)
  {
    hide RegularFrame;
  }

  lemma {:induction false} StackTop(stack: seq<Frame>, cb: Callback)
    requires RegularStack(stack, cb) && stack != []
    ensures var n := |stack| - 1; RegularFrame(stack[n], n, cb) && RegularStack(stack[..n], cb)
  {
    hide RegularFrame;
  }

  lemma {:induction false} FrameGrows(f: Frame, i: nat, t: Tree, cb: Callback)
    requires RegularFrame(f, i, cb) && RegularNode(t, f.kids, cb.TypeOf(f.name, f.attrs), cb)
    ensures RegularFrame(f.(kids := f.kids + [t]), i, cb)
  {
    hide RegularNode, RegularNodes, RegularAttrs;
    RegularAppend(f.kids, t, cb.TypeOf(f.name, f.attrs), cb);
  }

  lemma {:induction false} RootIsNode(t: Tree, before: seq<Tree>, ty: ValueType, cb: Callback)
    requires t.Element? && RegularRoot(t, cb) && (IsMarkup(t.name) ==> t.kids == [])
    ensures RegularNode(t, before, ty, cb)
  {
  }

  /** The node that is added may be of any kind outside all elements. */
  lemma {:induction false} AddRegular(st: State, t: Tree, cb: Callback)
    requires Regular(st, cb)
    requires if st.stack == [] then RegularRoot(t, cb) else RegularNode(t, Top(st).kids, st.ty, cb)
    ensures Regular(AddNode(st, t), cb)
    ensures t.Element? ==> SettledState(AddNode(st, t))
  {
    hide RegularRoot, RegularNode, RegularFrame, RegularStack;
    if st.stack != [] {
      var n := |st.stack| - 1;
      StackTop(st.stack, cb);
      FrameGrows(st.stack[n], n, t, cb);
      StackAppend(st.stack[..n], st.stack[n].(kids := st.stack[n].kids + [t]), cb);
    }
  }

  lemma {:induction false} NewFrame(name: string, attrs: seq<Attr>, i: nat, cb: Callback)
    requires Good(name) && RegularAttrs(attrs) && (IsMarkup(name) ==> attrs == [] && i == 0)
    ensures RegularFrame(Frame(name, attrs, []), i, cb)
  {
  }

  lemma {:induction false} NewElement(name: string, attrs: seq<Attr>, before: seq<Tree>, ty: ValueType, cb: Callback)
    requires Good(name) && RegularAttrs(attrs) && (IsMarkup(name) ==> attrs == [])
    ensures RegularNode(Element(name, attrs, []), before, ty, cb)
    ensures RegularRoot(Element(name, attrs, []), cb)
  {
  }

  lemma {:induction false} PushRegular(st: State, name: string, attrs: seq<Attr>, cb: Callback)
    requires Regular(st, cb) && Good(name) && RegularAttrs(attrs)
    requires IsMarkup(name) ==> attrs == [] && st.stack == []
    requires cb.NoCallback? ==> st.ty == TextType
    ensures Regular(Push(st, name, attrs, cb), cb) && SettledState(Push(st, name, attrs, cb))
  {
    hide RegularFrame, RegularStack, RegularRoot, RegularAttrs, IsMarkup, Good;
    NewFrame(name, attrs, |st.stack|, cb);
    StackAppend(st.stack, Frame(name, attrs, []), cb);
  }

  /** Without a load callback every value is text. */
  lemma {:induction false} TextWithout(st: State, cb: Callback)
    requires TypeFits(st, cb)
    ensures cb.NoCallback? ==> st.ty == TextType
  {
  }

  lemma {:induction false} PopRegular(st: State, cb: Callback)
    requires Regular(st, cb) && st.stack != []
    ensures Regular(Pop(st, cb), cb) && SettledState(Pop(st, cb))
  {
    hide RegularFrame, RegularStack, RegularRoot, RegularNode;
    var n := |st.stack| - 1;
    var top := st.stack[n];
    StackTop(st.stack, cb);
    TextWithout(st, cb);
    FrameCloses(top, n, cb);
    var ty := if n == 0 then st.ty else cb.TypeOf(st.stack[n - 1].name, st.stack[n - 1].attrs);
    var below := State(st.done, st.stack[..n], ty, st.ws, st.buf);
    AddRegular(below, top.Close(), cb);
    assert Pop(st, cb) == AddNode(below, top.Close());
  }

  lemma {:induction false} FrameCloses(f: Frame, i: nat, cb: Callback)
    requires RegularFrame(f, i, cb)
    ensures RegularRoot(f.Close(), cb)
    ensures i > 0 ==> forall before, ty :: RegularNode(f.Close(), before, ty, cb)
  {
    hide RegularRoot, RegularNode;
    if i > 0 {
      forall before, ty
        ensures RegularNode(f.Close(), before, ty, cb)
      {
        RootIsNode(f.Close(), before, ty, cb);
      }
    }
  }

  // ----- value nodes -----

  lemma {:induction false} ValueNode(t: Tree, before: seq<Tree>, ty: ValueType, cb: Callback)
    requires !t.Element? && RegularValue(t, before, ty)
    ensures RegularNode(t, before, ty, cb) && RegularRoot(t, cb)
  {
  }

  /** The last child of the innermost element has the type of that element's values. */
  lemma {:induction false} LastFits(st: State, cb: Callback)
    requires Regular(st, cb) && st.stack != [] && Top(st).kids != []
    ensures var kids := Top(st).kids; var last := kids[|kids| - 1];
            (last.Text? ==> st.ty == TextType) && (last.Opaque? ==> st.ty == OpaqueType)
  {
    hide RegularAttrs, Good;
    StackTop(st.stack, cb);
    var kids := Top(st).kids;
    assert RegularNode(kids[|kids| - 1], kids[..|kids| - 1], st.ty, cb);
  }

  /** The value node for the characters `buf` */
  function ValueOf(ty: ValueType, ws: bool, buf: string): Tree {
    match ty
    case OpaqueType => Opaque(buf)
    case IntegerType => Integer(ToInt32(StrToL(buf, 0).0))
    case _ => Text(ws, buf)
  }

  lemma {:induction false} AddValueOf(st: State)
    requires st.buf != []
    ensures AddValue(st).st == if st.ty == IgnoreType then st else AddNode(st, ValueOf(st.ty, st.ws, st.buf))
  {
    hide StrToL, ToInt32;
  }

  lemma {:induction false} ValueFits(kids: seq<Tree>, ty: ValueType, ws: bool, buf: string)
    requires Settled(kids, ws) && Good(buf) && buf != [] && ty != IgnoreType
    ensures var t := ValueOf(ty, ws, buf); !t.Element? && RegularValue(t, kids, ty)
    ensures ty != OpaqueType ==> Settled(kids + [ValueOf(ty, ws, buf)], true)
    ensures ty == IntegerType ==> Settled(kids + [ValueOf(ty, ws, buf)], false)
  {
    hide StrToL, ToInt32;
    var t := ValueOf(ty, ws, buf);
    assert (kids + [t])[|kids + [t]| - 1] == t;
  }

  lemma {:induction false} AddNodeTop(st: State, t: Tree)
    ensures var st' := AddNode(st, t); (st'.stack == [] <==> st.stack == []) && st'.ty == st.ty && st'.ws == st.ws && st'.buf == st.buf
    ensures st.stack != [] ==> Top(AddNode(st, t)).kids == Top(st).kids + [t]
  {
  }

  /** The flag and the buffer are no part of the tree. */
  lemma {:induction false} OnlyNodes(st: State, st': State, cb: Callback)
    requires Regular(st, cb) && st'.stack == st.stack && st'.done == st.done && st'.ty == st.ty
    ensures Regular(st', cb)
  {
  }

  lemma {:induction false} NothingSettled(ws: bool)
    ensures Settled([], ws)
  {
  }

  /** Where values are ignored, the innermost element has no text and no opaque strings. */
  lemma {:induction false} IgnoredSettles(st: State, cb: Callback)
    requires Regular(st, cb) && st.ty != TextType && st.ty != OpaqueType
    ensures st.stack != [] ==> Settled(Top(st).kids, false)
  {
    hide Regular;
    if st.stack != [] && Top(st).kids != [] {
      LastFits(st, cb);
    }
  }

  lemma {:induction false} AddValueRegular(st: State, cb: Callback)
    requires Regular(st, cb) && SettledState(st) && Good(st.buf) && st.buf != []
    ensures Regular(AddValue(st).st, cb) && AddValue(st).st.ty == st.ty
    ensures st.ty != OpaqueType ==> SettledState(AddValue(st).st.(buf := [], ws := st.ty == TextType))
  {
    hide Regular, Good, AddNode, AddValue, ValueOf, RegularNode, RegularRoot, RegularValue, Settled;
    AddValueOf(st);
    var t := ValueOf(st.ty, st.ws, st.buf);
    AddNodeTop(st, t);
    if st.ty == IgnoreType {
      IgnoredSettles(st, cb);
    } else {
      NothingSettled(st.ws);
      ValueFits([], st.ty, st.ws, st.buf);
      ValueNode(t, [], st.ty, cb);
      if st.stack != [] {
        ValueFits(Top(st).kids, st.ty, st.ws, st.buf);
        ValueNode(t, Top(st).kids, st.ty, cb);
      }
      AddRegular(st, t, cb);
    }
  }

  lemma {:induction false} LoneSpaceRegular(st: State, c: char, cb: Callback)
    requires Regular(st, cb) && (SettledState(st) || !st.ws)
    ensures var st' := LoneSpace(st, c); Regular(st', cb) && st'.buf == st.buf && (c != '<' ==> st' == st)
  {
    hide Regular, AddNode, RegularNode, RegularRoot;
    if c == '<' && st.ws && st.ty == TextType {
      var t := Text(true, []);
      ValueNode(t, [], st.ty, cb);
      if st.stack != [] {
        ValueNode(t, Top(st).kids, st.ty, cb);
      }
      AddRegular(st, t, cb);
      OnlyNodes(AddNode(st, t), AddNode(st, t).(ws := false), cb);
      AddNodeTop(st, t);
    }
  }

  lemma {:induction false} BadIsInteger(st: State)
    requires st.buf != []
    ensures AddValue(st).BadNumber? ==> st.ty == IntegerType
  {
    hide StrToL, ToInt32, AddNode;
  }

  /** Before a tag the elements may be unsettled: what the tag adds settles them. */
  lemma {:induction false} FlushRegular(st: State, c: char, cb: Callback)
    requires Regular(st, cb) && SettledState(st) && Good(st.buf)
    ensures var r := Flush(st, c);
            Regular(r.st, cb) && if r.Flushed? then Good(r.st.buf) && (c != '<' ==> SettledState(r.st)) else SettledState(r.st.(buf := [], ws := false))
  {
    hide Regular, Good, AddNode, AddValue, LoneSpace, Settled;
    if (c == '<' || (IsSpace(c) && st.ty != OpaqueType)) && st.buf != [] {
      AddValueRegular(st, cb);
      BadIsInteger(st);
      var st1 := AddValue(st).st;
      var st2 := st1.(buf := [], ws := IsSpace(c) && st.ty == TextType);
      OnlyNodes(st1, st2, cb);
      assert Good([]) by { NothingGood(); }
      LoneSpaceRegular(st2, c, cb);
    } else {
      var st1 := st.(ws := true);
      OnlyNodes(st, st1, cb);
      SettledMore(st);
      LoneSpaceRegular(st1, c, cb);
      LoneSpaceRegular(st, c, cb);
    }
  }

  lemma {:induction false} NothingGood()
    ensures Good([])
  {
  }

  lemma {:induction false} SettledMore(st: State)
    requires SettledState(st)
    ensures SettledState(st.(ws := true))
  {
  }

  // ----- tags -----

  /** What a turn leaves behind when it starts from a regular state */
  ghost predicate KeepsRegular(o: Outcome, cb: Callback) {
    match o
    case Failed => true
    case Stopped(st) => Regular(st, cb) && (st.stack != [] ==> NotLost(Top(st).kids))
    case Running(st, rest) => Regular(st, cb) && SettledState(st) && Good(st.buf) && Bytes(rest)
  }

  lemma {:induction false} Kept(st: State, rest: string, cb: Callback)
    requires Regular(st, cb) && SettledState(st) && st.buf == [] && Bytes(rest)
    ensures KeepsRegular(Running(st, rest), cb)
  {
  }

  lemma {:induction false} NoAttrs()
    ensures RegularAttrs([])
  {
  }

  lemma {:induction false} AddElement(st: State, name: string, attrs: seq<Attr>, rest: string, cb: Callback)
    requires Regular(st, cb) && Good(name) && RegularAttrs(attrs) && (IsMarkup(name) ==> attrs == []) && st.buf == [] && Bytes(rest)
    ensures var st' := AddNode(st, Element(name, attrs, []));
            Regular(st', cb) && SettledState(st') && KeepsRegular(Running(st', rest), cb)
  {
    hide Regular, Good, AddNode, RegularNode, RegularRoot, RegularAttrs, SettledState, IsMarkup, KeepsRegular, Bytes;
    NewElement(name, attrs, if st.stack == [] then [] else Top(st).kids, st.ty, cb);
    AddRegular(st, Element(name, attrs, []), cb);
    AddNodeTop(st, Element(name, attrs, []));
    Kept(AddNode(st, Element(name, attrs, [])), rest, cb);
  }

  lemma {:induction false} PushElement(st: State, name: string, attrs: seq<Attr>, rest: string, cb: Callback)
    requires Regular(st, cb) && Good(name) && RegularAttrs(attrs) && st.buf == [] && Bytes(rest)
    requires IsMarkup(name) ==> attrs == [] && st.stack == []
    ensures KeepsRegular(Running(Push(st, name, attrs, cb), rest), cb)
  {
    hide Good, RegularStack, RegularDone, RegularAttrs, SettledState, IsMarkup, KeepsRegular, Bytes;
    TextWithout(st, cb);
    PushRegular(st, name, attrs, cb);
    Kept(Push(st, name, attrs, cb), rest, cb);
  }

  lemma {:induction false} MarkupRegular(st: State, r: Scanned, mayOpen: bool, cb: Callback)
    requires Regular(st, cb) && st.buf == [] && (r.Scanned? ==> Good(r.text) && Bytes(r.rest))
    ensures KeepsRegular(AddMarkup(st, r, mayOpen, cb), cb)
  {
    hide Regular, Good, AddNode, Push, RegularAttrs, IsMarkup, Bytes;
    if r.Scanned? {
      NoAttrs();
      AddElement(st, r.text, [], r.rest, cb);
      if st.stack == [] {
        PushElement(st, r.text, [], r.rest, cb);
      }
    }
  }

  lemma {:induction false} CloseRegular(st: State, buf: string, ch: Option<char>, s: string, cb: Callback)
    requires Regular(st, cb) && st.buf == [] && buf != [] && Bytes(s)
    ensures KeepsRegular(CloseTag(st, buf, ch, s, cb), cb)
  {
    hide Regular, Good, AddNode, SettledState, Bytes, SkipToClose, KeepsRegular;
    if st.stack != [] {
      PopRegular(st, cb);
      SkipBytes(ch, s);
      AddNodeTop(st.(stack := st.stack[..|st.stack| - 1]), Top(st).Close());
      Kept(Pop(st, cb), SkipToClose(ch, s), cb);
    }
    assert KeepsRegular(Failed, cb) by { FailedKeeps(cb); }
  }

  lemma {:induction false} FailedKeeps(cb: Callback)
    ensures KeepsRegular(Failed, cb)
  {
  }

  lemma {:induction false} StoppedKeeps(st: State, cb: Callback)
    requires Regular(st, cb) && SettledState(st)
    ensures KeepsRegular(Stopped(st), cb)
  {
  }

  lemma {:induction false} StoppedNumber(st: State, cb: Callback)
    requires Regular(st, cb) && SettledState(st.(buf := [], ws := false))
    ensures KeepsRegular(Stopped(st), cb)
  {
  }

  lemma {:induction false} OpenRegular(st: State, name: string, ch: Option<char>, s: string, env: Env)
    requires Regular(st, env.cb) && st.buf == [] && Good(name) && !IsMarkup(name) && Bytes(s)
    ensures KeepsRegular(OpenTag(st, name, ch, s, env), env.cb)
  {
    hide Regular, Good, AddNode, Push, RegularAttrs, IsMarkup, Bytes, TagEnd, KeepsRegular;
    NoAttrs();
    FailedKeeps(env.cb);
    AddElement(st, name, [], s, env.cb);
    if ch == None {
      StoppedKeeps(AddNode(st, Element(name, [], [])), env.cb);
    } else {
      TagEndGood(ch.value, s, env.ents);
      var e := TagEnd(ch.value, s, env.ents);
      if e.Parsed? {
        AddElement(st, name, e.attrs, e.rest, env.cb);
        PushElement(st, name, e.attrs, e.rest, env.cb);
      }
    }
  }

  lemma {:induction false} TagRegular(st: State, s: string, env: Env)
    requires Regular(st, env.cb) && st.buf == [] && Bytes(s)
    ensures KeepsRegular(Tag(st, s, env), env.cb)
  {
    hide ReadTagName, ReadMarkup, ReadDeclaration, AddMarkup, CloseTag, OpenTag, Regular, KeepsRegular, Good, Bytes, BadChar;
    assert Good([]) by { NothingGood(); }
    TagNameGood(s, [], env.ents);
    FailedKeeps(env.cb);
    var r := ReadTagName(s, [], env.ents);
    if r.Scanned? {
      MarkupGood(r.rest, r.text, Comment);
      MarkupGood(r.rest, r.text, CData);
      MarkupGood(r.rest, r.text, Directive);
      DeclarationGood(r.ch, r.rest, r.text, env.ents);
      MarkupRegular(st, ReadMarkup(r.rest, r.text, Comment), false, env.cb);
      MarkupRegular(st, ReadMarkup(r.rest, r.text, CData), false, env.cb);
      MarkupRegular(st, ReadMarkup(r.rest, r.text, Directive), true, env.cb);
      MarkupRegular(st, ReadDeclaration(r.ch, r.rest, r.text, env.ents), true, env.cb);
      if r.text != [] {
        CloseRegular(st, r.text, r.ch, r.rest, env.cb);
      }
      if !IsMarkup(r.text) {
        OpenRegular(st, r.text, r.ch, r.rest, env);
      }
    }
  }

  // ----- the whole run -----

  lemma {:induction false} BufferRegular(st: State, code: int, rest: string, cb: Callback)
    requires Regular(st, cb) && SettledState(st) && Good(st.buf) && Bytes(rest) && !BadChar(code)
    ensures KeepsRegular(Running(st.(buf := st.buf + AddChar(code)), rest), cb)
    ensures KeepsRegular(Running(st, rest), cb)
  {
    hide Regular, Good, Bytes, BadChar, AddChar;
    Join(st.buf, code);
    OnlyNodes(st, st.(buf := st.buf + AddChar(code)), cb);
  }

  lemma {:induction false} StepRegular(st: State, c: char, s: string, env: Env)
    requires Regular(st, env.cb) && SettledState(st) && Good(st.buf) && Bytes(s) && !BadChar(c as int)
    ensures KeepsRegular(Step(st, c, s, env), env.cb)
  {
    hide Flush, Tag, GetEntity, AddChar, Regular, SettledState, KeepsRegular, Good, Bytes, BadChar;
    FlushRegular(st, c, env.cb);
    FailedKeeps(env.cb);
    var f := Flush(st, c);
    if f.BadNumber? {
      StoppedNumber(f.st, env.cb);
    } else {
      if c == '<' {
        OnlyNodes(f.st, f.st.(buf := []), env.cb);
        TagRegular(f.st.(buf := []), s, env);
      } else {
        EntityGood(s, env.ents);
        var e := GetEntity(s, env.ents);
        if e.Entity? {
          BufferRegular(f.st, e.code, e.rest, env.cb);
        }
        BufferRegular(f.st, c as int, s, env.cb);
      }
    }
  }

  lemma {:induction false} RunRegular(st: State, s: string, env: Env)
    requires KeepsRegular(Running(st, s), env.cb)
    ensures KeepsRegular(Run(st, s, env), env.cb)
    decreases |s|
  {
    hide Step, GoodChar, BadChar, Good, Bytes, Regular, SettledState, NotLost;
    GotGood(s);
    StoppedKeeps(st, env.cb);
    var g := GetC(s);
    if g.Got? {
      StepRegular(st, g.c, g.rest, env);
      var o := Step(st, g.c, g.rest, env);
      if o.Running? {
        RunRegular(o.st, o.rest, env);
      }
    }
  }

  /** A tree that is still open at the end of the input does not end in a value that only a tag
      completes. */
  lemma {:induction false} OpenNotLost(s: string, env: Env)
    requires Bytes(s)
    ensures var o := Run(Start, s, env); o.Stopped? && o.st.stack != [] ==> NotLost(Top(o.st).kids)
  {
    hide Run, Regular, NotLost;
    StartRegular(s, env.cb);
    RunRegular(Start, s, env);
  }

  lemma {:induction false} StartRegular(s: string, cb: Callback)
    requires Bytes(s)
    ensures KeepsRegular(Running(Start, s), cb)
  {
    NothingGood();
  }

  /** What every loaded tree satisfies */
  lemma {:induction false} LoadRegular(s: string, env: Env)
    requires Bytes(s)
    ensures var r := Load(s, env); r.Some? ==> RegularRoot(r.value, env.cb)
  {
    hide Run, RegularRoot;
    StartRegular(s, env.cb);
    RunRegular(Start, s, env);
    var o := Run(Start, s, env);
    if o.Stopped? && o.st.stack != [] {
      StackTop(o.st.stack, env.cb);
    }
  }

  // ----- which loaded trees are canonical -----

  /** The name of an element can be written so that it is read back as far as its end. */
  predicate PlainName(name: string) {
    NoSpace(name) && '/' !in name && PlainOrQuoted(name)
  }

  predicate PlainAttr(a: Attr) {
    a.name != [] && NoSpace(a.name[1..]) && Lacks(a.name[1..], "=/>?&")
  }

  /** Conditions on the single names and text strings of a tree */
  ghost predicate Plain(t: Tree) {
    match t
    case Element(name, attrs, kids) =>
      && (if IsMarkup(name) then MarkupOk(name) else PlainName(name))
      && (forall i :: 0 <= i < |attrs| ==> PlainAttr(attrs[i]))
      && (forall i :: 0 <= i < |kids| ==> Plain(kids[i]))
    case Text(_, s) => NoSpace(s)
    case _ => true
  }

  /** A root without a close tag of its own has to be one that the parser leaves open, and must not
      end in a value that only a tag completes. */
  predicate RootFits(t: Tree) {
    t.Element? && (IsMarkup(t.name) && t.kids != [] ==> StaysOpen(t.name) && NotLost(t.kids))
  }

  lemma {:induction false} PlainAttrs(attrs: seq<Attr>)
    requires RegularAttrs(attrs)
    ensures AttrsOk(attrs) <==> forall i :: 0 <= i < |attrs| ==> PlainAttr(attrs[i])
  {
    hide NoSpace, Lacks, Good;
    forall i | 0 <= i < |attrs|
      ensures AttrOk(attrs[i]) <==> PlainAttr(attrs[i])
    {
      assert GoodAttr(attrs[i]);
    }
  }

  lemma {:induction false} PlainNode(t: Tree, before: seq<Tree>, ty: ValueType, cb: Callback)
    requires RegularNode(t, before, ty, cb)
    ensures CanonicalNode(t, before, ty, cb) <==> Plain(t)
    decreases t, 1, 0
  {
    hide NoSpace, Lacks, Good, MarkupOk, RegularAttrs, AttrsOk, PlainAttr, RegularNodes, CanonicalNodes;
    if t.Element? && !IsMarkup(t.name) {
      PlainAttrs(t.attrs);
      PlainNodes(t.kids, 0, cb.TypeOf(t.name, t.attrs), cb);
      assert t.kids[0..] == t.kids && t.kids[..0] == [];
    }
  }

  lemma {:induction false} PlainNodes(ts: seq<Tree>, k: nat, ty: ValueType, cb: Callback)
    requires RegularNodes(ts, ty, cb) && k <= |ts|
    ensures CanonicalNodes(ts[k..], ts[..k], ty, cb) <==> forall i :: k <= i < |ts| ==> Plain(ts[i])
    decreases ts, 0, |ts| - k
  {
    hide Plain, RegularNode, CanonicalNode;
    if k < |ts| {
      assert ts[k..][0] == ts[k] && ts[k..][1..] == ts[k + 1..] && ts[..k] + [ts[k]] == ts[..k + 1];
      PlainNode(ts[k], ts[..k], ty, cb);
      PlainNodes(ts, k + 1, ty, cb);
    }
  }

  lemma {:induction false} PlainRoot(t: Tree, cb: Callback)
    requires RegularRoot(t, cb)
    ensures CanonicalRoot(t, cb) <==> Plain(t) && RootFits(t)
  {
    hide NoSpace, Lacks, Good, MarkupOk, RegularAttrs, AttrsOk, PlainAttr, RegularNode, RegularNodes, CanonicalNodes, StaysOpen, NotLost;
    if t.Element? {
      PlainNodes(t.kids, 0, cb.TypeOf(t.name, t.attrs), cb);
      assert t.kids[0..] == t.kids && t.kids[..0] == [];
      StaysIsMarkup(t.name);
      PlainAttrs(t.attrs);
    }
  }

  /** Exactly which loaded trees are canonical, for every byte string and every load callback:
      whether a tree is depends on its names and text strings one by one. */
  lemma {:induction false} LoadedCanonical(s: string, env: Env)
    requires Bytes(s)
    ensures var r := Load(s, env); r.Some? ==> (CanonicalRoot(r.value, env.cb) <==> Plain(r.value) && RootFits(r.value))
  {
    hide Load, RegularRoot, CanonicalRoot, Plain, RootFits;
    LoadRegular(s, env);
    if Load(s, env).Some? {
      PlainRoot(Load(s, env).value, env.cb);
    }
  }

  /** Loading, saving and loading again gives the first tree again. */
  lemma {:induction false} LoadSaveLoad(s: string, wrap: int, env: Env)
    requires Bytes(s) && StandardEntities(env.ents)
    ensures var r := Load(s, env);
            r.Some? && Plain(r.value) && RootFits(r.value) ==> Load(Save(r.value, Silent, wrap), env) == r
  {
    hide Load, Save, RegularRoot, CanonicalRoot, Plain, RootFits;
    LoadedCanonical(s, env);
    if Load(s, env).Some? && Plain(Load(s, env).value) && RootFits(Load(s, env).value) {
      SaveThenLoad(Load(s, env).value, wrap, env);
    }
  }
}
