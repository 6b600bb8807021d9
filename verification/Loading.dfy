/** `mxml_load_data` of mxml-file.c, in place: the loop over the characters builds real nodes, and
    what it builds is the tree that the functions of module Reader describe. */
module Loading {
  import opened Options
  import opened Chars
  import opened Numbers
  import opened Trees
  import opened Forests
  import opened ForestOrder
  import opened ForestOps
  import opened Nodes
  import opened Deletion
  import opened Finding
  import opened TreeValues
  import opened Building
  import opened Buffers
  import opened Scanning
  import opened Reader

  /** The local variables of `mxml_load_data`, for `top` null. The ghost fields describe the nodes
      that were built: the forest they form, the chain of open elements down to `parent`, and the
      finished nodes without parent. */
  class Loader {
    const source: Source
    const buffer: Buffer<char>
    const env: Env
    var first: Node?
    var parent: Node?
    var ty: ValueType
    var whitespace: bool
    ghost var f: Forest
    ghost var open: seq<Node>
    ghost var roots: seq<Node>

    constructor (text: string, env: Env)
      ensures fresh(source) && fresh(buffer) && fresh(buffer.data) && fresh(f.kids.Keys)
      ensures this.env == env && source.Valid() && source.Rest() == text && At(Start)
    {
      source := new Source(text);
      buffer := new Buffer<char>();
      this.env := env;
      first, parent := null, null;
      ty, whitespace := TextType, false;
      f, open, roots := Nothing, [], [];
      new;
      ShapeOfNothing();
      assert Values(f) == map[];
    }

    /** The nodes and variables stand for the state `st`. */
    ghost predicate At(st: State)
      reads this, f.kids.Keys, source, buffer, buffer.data
    {
      && source.Valid() && buffer.Valid()
      && Built(st)
      && st.ty == ty && st.ws == whitespace && st.buf == buffer.Content()
    }

    ghost predicate Built(st: State)
      reads this`first, this`parent, this`ty, this`f, this`open, this`roots, f.kids.Keys
    {
      && WellFormed(f) && Linked(f) && Shape(f, Values(f), open, roots, st)
      && parent == Last(open)
      && first == (if roots != [] then roots[0] else if open != [] then open[0] else null)
      && (st.stack == [] && st.done == [] ==> st.ty == TextType)
    }

    /** `node` was made below `parent` when the nodes were `g` with the values `vals`; its own value
        may still change. */
    ghost predicate Pending(st: State, g: Forest, vals: map<Node, NodeValue>, node: Node)
      reads this`first, this`parent, this`f, this`open, this`roots
      reads f.kids.Keys`parent, f.kids.Keys`prev, f.kids.Keys`next, f.kids.Keys`child, f.kids.Keys`lastChild
      reads (f.kids.Keys - {node})`value
    {
      && Shape(g, vals, open, roots, st) && g.kids.Keys == vals.Keys && node !in g.kids
      && parent == Last(open) && (parent != null ==> parent in g.kids) && f == Grown(g, parent, node)
      && WellFormed(f) && Linked(f) && f.kids.Keys == g.kids.Keys + {node}
      && (forall x :: x in f.kids && x != node ==> x in vals && x.value == vals[x])
      && first == (if roots != [] then roots[0] else if open != [] then open[0] else null)
    }

    /** `mxmlNew..(parent, ..)` */
    method MakeNode(v: NodeValue, ghost st: State) returns (node: Node, ghost g: Forest, ghost vals: map<Node, NodeValue>)
      requires Built(st)
      modifies this`f, f.kids.Keys`parent, f.kids.Keys`prev, f.kids.Keys`next, f.kids.Keys`child, f.kids.Keys`lastChild
      ensures fresh(node) && node.value == v && g == old(f) && node in f.kids && Pending(st, g, vals, node)
      ensures fresh(f.kids.Keys - old(f.kids.Keys))
    {
      hide WellFormed, Linked, Grown, Shape;
      g, vals := f, Values(f);
      ShapeFacts(f, vals, open, roots, st);
      node, f := New(parent, v, f);
    }

    lemma {:induction false} PendingValues(st: State, g: Forest, vals: map<Node, NodeValue>, node: Node)
      requires Pending(st, g, vals, node)
      ensures Values(f) == vals[node := node.value]
    {
      hide WellFormed, Linked, Grown, Shape;
    }

    lemma {:induction false} FinishedShape(st: State, g: Forest, vals: map<Node, NodeValue>, node: Node)
      requires Pending(st, g, vals, node)
      ensures first == (if roots != [] then roots[0] else if open != [] then open[0] else null) && parent == Last(open)
      ensures var st' := AddNode(st, LeafOf(node.value));
              WellFormed(f) && Linked(f) && Shape(f, Values(f), open, if open == [] then roots + [node] else roots, st') &&
              st'.ty == st.ty && (st'.stack != [] || st'.done != [])
    {
      hide WellFormed, Linked, Grown, Shape;
      AddShape(g, vals, open, roots, st, node, node.value);
      PendingValues(st, g, vals, node);
    }

    /** `node` is finished. */
    method Finish(node: Node, ghost g: Forest, ghost vals: map<Node, NodeValue>, ghost st: State)
      requires Pending(st, g, vals, node) && st.ty == ty
      modifies this`first, this`roots
      ensures Built(AddNode(st, LeafOf(node.value)))
    {
      hide WellFormed, Linked, Pending, Shape, AddNode;
      FinishedShape(st, g, vals, node);
      if open == [] {
        roots := roots + [node];
      }
      if first == null {
        first := node;
      }
    }

    lemma {:induction false} OpenedShape(st: State, g: Forest, vals: map<Node, NodeValue>, node: Node)
      requires Pending(st, g, vals, node) && node.value.ElementValue?
      ensures first == (if roots != [] then roots[0] else if open != [] then open[0] else null)
      ensures var st' := Push(st, node.value.name, node.value.attrs, env.cb);
              WellFormed(f) && Linked(f) && Shape(f, Values(f), open + [node], roots, st') && st'.stack != [] &&
              st'.ty == if env.cb.Callback? then env.cb.TypeOf(node.value.name, node.value.attrs) else st.ty
    {
      hide WellFormed, Linked, Grown, Shape;
      PushShape(g, vals, open, roots, st, node, node.value.name, node.value.attrs, env.cb);
      PendingValues(st, g, vals, node);
    }

    /** `node` becomes the innermost open element. */
    method Open(node: Node, ghost g: Forest, ghost vals: map<Node, NodeValue>, ghost st: State)
      requires Pending(st, g, vals, node) && st.ty == ty && node.value.ElementValue?
      modifies this`first, this`open, this`parent, this`ty
      ensures var st' := Push(st, node.value.name, node.value.attrs, env.cb); Built(st') && ty == st'.ty
    {
      hide WellFormed, Linked, Pending, Shape, Push;
      OpenedShape(st, g, vals, node);
      if first == null {
        first := node;
      }
      parent := node;
      open := open + [node];
      if env.cb.Callback? {
        ty := env.cb.TypeOf(node.value.name, node.value.attrs);
      }
    }

    /** A finished node becomes the last child of `parent`. */
    method AddLeaf(v: NodeValue, ghost st: State)
      requires Built(st) && st.ty == ty
      modifies this`first, this`f, this`roots, f.kids.Keys
      ensures Built(AddNode(st, LeafOf(v)))
      ensures fresh(f.kids.Keys - old(f.kids.Keys))
    {
      hide Built, Pending;
      var node, g, vals := MakeNode(v, st);
      Finish(node, g, vals, st);
    }

    /** Adds the node for the buffered value. An integer that does not end where the buffer ends
        stops the load; the node has been added all the same. */
    method AddValueNode(ghost st: State) returns (bad: bool)
      requires At(st) && st.buf != []
      modifies this`first, this`f, this`roots, f.kids.Keys, buffer.data
      ensures match AddValue(st)
              case Flushed(st') => !bad && At(st')
              case BadNumber(st') => bad && Built(st')
      ensures fresh(f.kids.Keys - old(f.kids.Keys)) && buffer.Valid()
    {
      hide Built, StrToL, Decimal;
      buffer.Terminate('\0');
      var text := buffer.data[..buffer.used];
      bad := false;
      match ty {
        case IntegerType =>
          var (v, end) := StrToL(text, 0);
          AddLeaf(IntegerValue(ToInt32(v)), st);
          bad := end < |text|;
        case OpaqueType =>
          AddLeaf(OpaqueValue(text), st);
        case TextType =>
          AddLeaf(TextValue(whitespace, text), st);
        case IgnoreType =>
      }
    }

    /** The value-node part of the main loop, for the character `c` */
    method FlushValue(c: char, ghost st: State) returns (bad: bool)
      requires At(st)
      modifies this`first, this`f, this`roots, this`whitespace, f.kids.Keys, buffer`used, buffer.data
      ensures match Flush(st, c)
              case Flushed(st') => !bad && At(st')
              case BadNumber(st') => bad && Built(st')
      ensures fresh(f.kids.Keys - old(f.kids.Keys)) && buffer.Valid()
    {
      hide *;
      AtParts(st);
      FlushIs(st, c);
      bad := false;
      ghost var s1 := st;
      if (c == '<' || (IsSpace(c) && ty != OpaqueType)) && buffer.used > 0 {
        bad := AddValueNode(st);
        if bad {
          return;
        }
        AtParts(AddValue(st).st);
        s1 := AddValue(st).st.(buf := [], ws := IsSpace(c) && ty == TextType);
        BuiltCongruence(AddValue(st).st, s1);
        buffer.Reset();
        whitespace := IsSpace(c) && ty == TextType;
      } else if IsSpace(c) && ty == TextType {
        s1 := st.(ws := true);
        BuiltCongruence(st, s1);
        whitespace := true;
      }
      LoneSpaceIs(s1, c);
      if c == '<' && whitespace && ty == TextType {
        AddLeaf(TextValue(whitespace, ""), s1);
        BuiltCongruence(AddNode(s1, Text(true, [])), LoneSpace(s1, c));
        whitespace := false;
      }
      MakeAt(LoneSpace(s1, c));
    }

    lemma {:induction false} AtParts(st: State)
      requires At(st)
      ensures source.Valid() && buffer.Valid() && Built(st)
      ensures st.ty == ty && st.ws == whitespace && st.buf == buffer.Content() && (buffer.used > 0 <==> st.buf != [])
    {
    }

    lemma {:induction false} MakeAt(st: State)
      requires source.Valid() && buffer.Valid() && Built(st)
      requires st.ty == ty && st.ws == whitespace && st.buf == buffer.Content()
      ensures At(st)
    {
      hide Built;
    }

    /** What every error leaves behind: nodes that can be deleted from `first` on */
    ghost predicate Sound()
      reads this`first, this`f
      reads f.kids.Keys`parent, f.kids.Keys`prev, f.kids.Keys`next, f.kids.Keys`child, f.kids.Keys`lastChild
    {
      WellFormed(f) && Linked(f) && (first != null ==> first in f.kids)
    }

    /** Adds the element for a comment, CDATA section, processing instruction or declaration. */
    method AddMarkupNode(mayOpen: bool, ghost st: State, ghost r: Scanned)
      requires Built(st) && st.ty == ty && buffer.Valid() && r.Scanned? && r.text == buffer.Content()
      modifies this`first, this`open, this`parent, this`ty, this`f, this`roots
      modifies f.kids.Keys`parent, f.kids.Keys`prev, f.kids.Keys`next, f.kids.Keys`child, f.kids.Keys`lastChild
      ensures fresh(f.kids.Keys - old(f.kids.Keys))
      ensures var o := AddMarkup(st, r, mayOpen, env.cb); o.Running? && Built(o.st) && ty == o.st.ty
    {
      hide Built, Pending;
      ParentIs(st);
      var node, g, vals := MakeNode(ElementValue(buffer.data[..buffer.used], []), st);
      if mayOpen && parent == null {
        Open(node, g, vals, st);
      } else {
        Finish(node, g, vals, st);
      }
    }

    lemma {:induction false} ParentIs(st: State)
      requires Built(st)
      ensures Sound() && (parent == null <==> st.stack == [])
      ensures parent != null ==> parent in f.kids && parent.value == HeaderOf(st.stack[|st.stack| - 1])
    {
      ShapeFacts(f, Values(f), open, roots, st);
      if open != [] {
        InnermostIs(f, Values(f), open, roots, st);
      }
    }

    /** `parent` is finished and the element around it becomes `parent`. */
    method Ascend(ghost st: State)
      requires Built(st) && st.ty == ty && parent != null
      modifies this`open, this`parent, this`ty, this`roots
      ensures st.stack != [] && Built(Pop(st, env.cb)) && ty == Pop(st, env.cb).ty
    {
      hide *;
      ghost var vals := Values(f);
      BuiltParts(st);
      ShapeFacts(f, vals, open, roots, st);
      InnermostIs(f, vals, open, roots, st);
      PopShape(f, vals, open, roots, st, env.cb);
      PopFacts(st, env.cb);
      PointsUp(f, parent);
      ValueOf(f, open[|open| - 1]);
      parent := parent.parent;
      if |open| == 1 {
        roots := roots + [open[0]];
      }
      open := open[..|open| - 1];
      LastIs(open);
      if env.cb.Callback? && parent != null {
        InnermostIs(f, vals, open, roots, Pop(st, env.cb));
        ValueOf(f, parent);
        ty := env.cb.TypeOf(parent.value.name, parent.value.attrs);
      }
      MakeBuilt(Pop(st, env.cb));
    }

    lemma {:induction false} BuiltParts(st: State)
      requires Built(st)
      ensures WellFormed(f) && Linked(f) && Shape(f, Values(f), open, roots, st)
      ensures parent == Last(open) && (parent == null <==> open == []) && (parent != null ==> parent == open[|open| - 1])
      ensures first == (if roots != [] then roots[0] else if open != [] then open[0] else null)
    {
      hide WellFormed, Linked, Shape;
    }

    lemma {:induction false} MakeBuilt(st: State)
      requires WellFormed(f) && Linked(f) && Shape(f, Values(f), open, roots, st)
      requires parent == Last(open)
      requires first == (if roots != [] then roots[0] else if open != [] then open[0] else null)
      requires st.stack != [] || st.done != [] || st.ty == TextType
      ensures Built(st)
    {
      hide WellFormed, Linked, Shape;
    }

    /** A close tag */
    method CloseElement(ch: Option<char>, ghost st: State) returns (turn: Turn)
      requires Built(st) && st.ty == ty && source.Valid() && buffer.Valid() && buffer.Content() != []
      modifies this`open, this`parent, this`ty, this`roots, source`pos
      ensures f == old(f) && source.Valid()
      ensures Matches(CloseTag(st, old(buffer.Content()), ch, old(source.Rest()), env.cb), turn)
    {
      hide Built, Sound, Pop;
      ParentIs(st);
      if parent == null || buffer.data[..buffer.used][1..] != parent.value.name {
        return Fail;
      }
      SkipCloseTag(source, ch);
      Ascend(st);
      return GoOn;
    }

    /** What a turn of the main loop leaves behind, apart from the buffer */
    ghost predicate Matches(o: Outcome, turn: Turn)
      requires source.Valid()
      reads this, f.kids.Keys, source`pos
    {
      match o
      case Failed => turn == Fail && Sound()
      case Stopped(st) => turn == Stop && Built(st)
      case Running(st, rest) => turn == GoOn && Built(st) && ty == st.ty && source.Rest() == rest
    }

    /** An open tag, or an element without content; `stop` is the character that ended its name. */
    method OpenElement(stop: Option<char>, ghost st: State) returns (turn: Turn)
      requires Built(st) && st.ty == ty && source.Valid() && buffer.Valid()
      modifies this, source`pos, f.kids.Keys
      ensures whitespace == old(whitespace) && source.Valid()
      ensures fresh(f.kids.Keys - old(f.kids.Keys))
      ensures Matches(OpenTag(st, buffer.Content(), stop, old(source.Rest()), env), turn)
      ensures turn == Fail && stop == Some('/') ==> f.kids.Keys == old(f.kids.Keys)
    {
      hide Built, Pending, Sound, TagEnd, Grown;
      var node, g, vals := MakeNode(ElementValue(buffer.data[..buffer.used], []), st);
      if stop == None {
        Finish(node, g, vals, st);
        return Stop;
      }
      var ch := ReadTagEnd(stop.value, node, g, vals, st);
      if ch == None {
        return Fail;
      }
      if ch == Some('/') {
        Finish(node, g, vals, st);
      } else {
        Open(node, g, vals, st);
      }
      return GoOn;
    }

    /** Reads the rest of an open tag into `node`. Where a `/` is not followed by `>`, the node is
        deleted again. */
    method ReadTagEnd(stop: char, node: Node, ghost g: Forest, ghost vals: map<Node, NodeValue>, ghost st: State)
      returns (ch: Option<char>)
      requires Pending(st, g, vals, node) && node in f.kids
      requires node.value.ElementValue? && node.value.attrs == [] && source.Valid()
      modifies this`f, source`pos, f.kids.Keys
      ensures source.Valid() && f.kids.Keys <= old(f.kids.Keys)
      ensures match TagEnd(stop, old(source.Rest()), env.ents)
              case ParseError =>
                ch == None && Sound() && (stop == '/' ==> f.kids.Keys == g.kids.Keys)
              case Parsed(attrs, c, rest) =>
                ch == Some(c) && source.Rest() == rest && f == old(f) && Pending(st, g, vals, node) &&
                node.value == old(node.value).(attrs := attrs)
    {
      hide Pending, Sound, ParseElement;
      PendingIsSound(st, g, vals, node);
      if IsSpace(stop) {
        ch := ScanElement(source, node, env.ents);
      } else if stop == '/' {
        var next := source.GetChar();
        if next != Some('>') {
          DeletePending(node, g, vals, st);
          return None;
        }
        return Some('/');
      } else {
        return Some(stop);
      }
    }

    /** `mxmlDelete` on the node that was just made leaves exactly the nodes that were there before. */
    method DeletePending(node: Node, ghost g: Forest, ghost vals: map<Node, NodeValue>, ghost st: State)
      requires Pending(st, g, vals, node)
      modifies this`f, f.kids.Keys
      ensures Sound() && f.kids.Keys == g.kids.Keys && f.kids.Keys <= old(f.kids.Keys)
    {
      hide *;
      PendingLeaf(st, g, vals, node);
      LeafDeleted(f, node);
      ghost var freed;
      freed, f := Delete(node, f);
      IsSound();
    }

    lemma {:induction false} PendingLeaf(st: State, g: Forest, vals: map<Node, NodeValue>, node: Node)
      requires Pending(st, g, vals, node)
      ensures WellFormed(f) && Linked(f) && node in f.kids && f.kids[node] == [] && f.kids.Keys == g.kids.Keys + {node}
      ensures node !in g.kids && (first != null ==> first in g.kids)
    {
      ShapeFacts(g, vals, open, roots, st);
      GrownIs(g, parent, node);
    }

    lemma {:induction false} IsSound()
      requires WellFormed(f) && Linked(f) && (first != null ==> first in f.kids)
      ensures Sound()
    {
    }

    lemma {:induction false} PendingIsSound(st: State, g: Forest, vals: map<Node, NodeValue>, node: Node)
      requires Pending(st, g, vals, node)
      ensures Sound()
    {
      ShapeFacts(g, vals, open, roots, st);
    }

    /** A comment, CDATA section or processing instruction, whose start is in the buffer */
    method ReadMarkupNode(kind: MarkupKind, mayOpen: bool, ghost st: State) returns (turn: Turn)
      requires Built(st) && st.ty == ty && source.Valid() && buffer.Valid()
      modifies this, source`pos, buffer, buffer.data, f.kids.Keys
      ensures fresh(f.kids.Keys - old(f.kids.Keys)) && (buffer.data == old(buffer.data) || fresh(buffer.data))
      ensures source.Valid() && buffer.Valid() && whitespace == old(whitespace)
      ensures Matches(AddMarkup(st, ReadMarkup(old(source.Rest()), old(buffer.Content()), kind), mayOpen, env.cb), turn)
    {
      hide Built, Sound, ReadMarkup;
      ParentIs(st);
      ghost var r := ReadMarkup(source.Rest(), buffer.Content(), kind);
      var ok := ScanMarkup(source, buffer, kind);
      if !ok {
        return Fail;
      }
      buffer.Terminate('\0');
      AddMarkupNode(mayOpen, st, r);
      return GoOn;
    }

    /** A declaration, whose name is in the buffer */
    method ReadDeclarationNode(ch: Option<char>, ghost st: State) returns (turn: Turn)
      requires Built(st) && st.ty == ty && source.Valid() && buffer.Valid()
      modifies this, source`pos, buffer, buffer.data, f.kids.Keys
      ensures fresh(f.kids.Keys - old(f.kids.Keys)) && (buffer.data == old(buffer.data) || fresh(buffer.data))
      ensures source.Valid() && buffer.Valid() && whitespace == old(whitespace)
      ensures Matches(AddMarkup(st, ReadDeclaration(ch, old(source.Rest()), old(buffer.Content()), env.ents), true, env.cb), turn)
    {
      hide Built, Sound, ReadDeclaration;
      ParentIs(st);
      ghost var r := ReadDeclaration(ch, source.Rest(), buffer.Content(), env.ents);
      var ok := ScanDeclaration(source, buffer, ch, env.ents);
      if !ok {
        return Fail;
      }
      buffer.Terminate('\0');
      AddMarkupNode(true, st, r);
      return GoOn;
    }

    /** The tag part of the main loop, after the '<' */
    method ReadTag(ghost st: State) returns (turn: Turn)
      requires Built(st) && st.ty == ty && source.Valid() && buffer.Valid() && buffer.Content() == []
      modifies this, source`pos, buffer, buffer.data, f.kids.Keys
      ensures fresh(f.kids.Keys - old(f.kids.Keys)) && (buffer.data == old(buffer.data) || fresh(buffer.data))
      ensures source.Valid() && buffer.Valid() && whitespace == old(whitespace)
      ensures Matches(Tag(st, old(source.Rest()), env), turn)
    {
      hide Built, Sound, Matches, ReadTagName, ReadMarkup, ReadDeclaration, OpenTag, CloseTag, AddMarkup;
      var ok, ch := ScanTagName(source, buffer, env.ents);
      if !ok {
        FailedMatches(st);
        return Fail;
      }
      buffer.Terminate('\0');
      var text := buffer.data[..buffer.used];
      if text == "!--" {
        turn := ReadMarkupNode(Comment, false, st);
      } else if text == "![CDATA[" {
        turn := ReadMarkupNode(CData, false, st);
      } else if text != [] && text[0] == '?' {
        turn := ReadMarkupNode(Directive, true, st);
      } else if text != [] && text[0] == '!' {
        turn := ReadDeclarationNode(ch, st);
      } else if text != [] && text[0] == '/' {
        turn := CloseElement(ch, st);
      } else {
        turn := OpenElement(ch, st);
      }
    }

    lemma {:induction false} FailedMatches(st: State)
      requires Built(st) && source.Valid()
      ensures Matches(Failed, Fail)
    {
      ParentIs(st);
    }

    /** The tag part, with the buffer emptied before and after it */
    method StartTag(ghost st: State) returns (turn: Turn)
      requires At(st)
      modifies this, source`pos, buffer, buffer.data, f.kids.Keys
      ensures fresh(f.kids.Keys - old(f.kids.Keys)) && (buffer.data == old(buffer.data) || fresh(buffer.data))
      ensures source.Valid() && buffer.Valid()
      ensures match Tag(st.(buf := []), old(source.Rest()), env)
              case Failed => turn == Fail && Sound()
              case Stopped(st') => turn == Stop && Built(st')
              case Running(st', rest) => turn == GoOn && At(st') && source.Rest() == rest
    {
      hide *;
      AtParts(st);
      ghost var st1 := st.(buf := []);
      buffer.Reset();
      BuiltCongruence(st, st1);
      TagKeepsBuffer(st1, source.Rest(), env);
      ghost var o := Tag(st1, source.Rest(), env);
      turn := ReadTag(st1);
      MatchesParts(o, turn);
      buffer.Reset();
      if o.Running? {
        MakeAt(o.st);
      }
    }

    /** One turn of the main loop, for the character `c` */
    method Turn(c: char, ghost st: State) returns (turn: Turn)
      requires At(st)
      modifies this, source`pos, buffer, buffer.data, f.kids.Keys
      ensures fresh(f.kids.Keys - old(f.kids.Keys)) && (buffer.data == old(buffer.data) || fresh(buffer.data))
      ensures source.Valid() && buffer.Valid()
      ensures match Step(st, c, old(source.Rest()), env)
              case Failed => turn == Fail && Sound()
              case Stopped(st') => turn == Stop && Built(st')
              case Running(st', rest) => turn == GoOn && At(st') && source.Rest() == rest
    {
      hide *;
      AtParts(st);
      StepIs(st, c, source.Rest(), env);
      var bad := FlushValue(c, st);
      if bad {
        return Stop;
      }
      ghost var st1 := Flush(st, c).st;
      AtParts(st1);
      if c == '<' {
        turn := StartTag(st1);
      } else if c == '&' {
        turn := ReadEntity(st1);
      } else {
        if ty == OpaqueType || !IsSpace(c) {
          Store(c as int, st1);
        }
        return GoOn;
      }
    }

    /** A character of a value goes to the buffer. */
    method Store(code: int, ghost st: State)
      requires At(st)
      modifies buffer, buffer.data
      ensures At(st.(buf := st.buf + AddChar(code))) && buffer.Valid()
      ensures buffer.data == old(buffer.data) || fresh(buffer.data)
    {
      hide *;
      AtParts(st);
      AddByteOrCharacter(buffer, code);
      assert unchanged(f.kids.Keys);
      BuiltCongruence(st, st.(buf := buffer.Content()));
      MakeAt(st.(buf := buffer.Content()));
    }

    /** An entity in a value */
    method ReadEntity(ghost st: State) returns (turn: Turn)
      requires At(st)
      modifies source`pos, buffer, buffer.data
      ensures source.Valid() && buffer.Valid() && (buffer.data == old(buffer.data) || fresh(buffer.data))
      ensures match GetEntity(old(source.Rest()), env.ents)
              case NoEntity => turn == Fail && Sound()
              case Entity(code, rest) => turn == GoOn && At(st.(buf := st.buf + AddChar(code))) && source.Rest() == rest
    {
      hide *;
      AtParts(st);
      ParentIs(st);
      var code := GetEntityFrom(source, env.ents);
      assert unchanged(f.kids.Keys);
      if code == None {
        return Fail;
      }
      MakeAt(st);
      Store(code.value, st);
      return GoOn;
    }

    lemma {:induction false} MatchesParts(o: Outcome, turn: Turn)
      requires source.Valid() && Matches(o, turn)
      ensures match o
              case Failed => turn == Fail && Sound()
              case Stopped(st) => turn == Stop && Built(st)
              case Running(st, rest) => turn == GoOn && Built(st) && ty == st.ty && source.Rest() == rest
    {
      hide Sound, Built;
    }

    /** The end of the load: an element that is not the only open one is an error. */
    method End(ghost st: State) returns (r: Node?, ghost g: Forest)
      requires Built(st)
      modifies f.kids.Keys`parent, f.kids.Keys`prev, f.kids.Keys`next, f.kids.Keys`child, f.kids.Keys`lastChild
      ensures WellFormed(g) && Linked(g) && g.kids.Keys <= f.kids.Keys
      ensures g == if r == null && first != null then Deleted(f, first) else f
      ensures first != null ==> first in f.kids
      ensures r == null <==> Reader.Finish(st) == None
      ensures r != null ==> r in g.kids && r !in g.up && Reader.Finish(st) == Some(TreeOf(g, Values(g), r))
    {
      hide WellFormed, Linked, LinksOf, Shape, TreeOf;
      ghost var vals := Values(f);
      ShapeFacts(f, vals, open, roots, st);
      FinishShape(f, vals, open, roots, st);
      g := f;
      if parent == null {
        return first, g;
      }
      var node := parent;
      var top := parent;
      ghost var i := |open| - 1;
      while top.parent != null
        invariant 0 <= i < |open| && top == open[i]
        decreases i
        modifies {}
      {
        ParentAt(f, vals, open, roots, st, i);
        top := top.parent;
        i := i - 1;
      }
      ParentAt(f, vals, open, roots, st, i);
      if node != top {
        ParentIs(st);
        ghost var freed;
        freed, g := Delete(first, f);
        return null, g;
      }
      r := top;
    }

    /** Only the trees and the type matter for what is built. */
    lemma {:induction false} BuiltCongruence(st: State, st': State)
      requires Built(st) && st'.stack == st.stack && st'.done == st.done && st'.ty == st.ty
      ensures Built(st')
    {
    }
  }

  /** How a turn of the main loop ends: it goes on, the loop is left, or the load fails. */
  datatype Turn = GoOn | Stop | Fail

  function HeaderOf(frame: Frame): NodeValue {
    ElementValue(frame.name, frame.attrs)
  }

  lemma {:induction false} LastIs(open: seq<Node>)
    ensures open == [] ==> Last(open) == null
    ensures open != [] ==> Last(open) == open[|open| - 1]
  {
  }

  lemma {:induction false} FlushIs(st: State, c: char)
    ensures Flush(st, c) ==
              if (c == '<' || (IsSpace(c) && st.ty != OpaqueType)) && st.buf != [] then
                match AddValue(st)
                case BadNumber(st') => BadNumber(st')
                case Flushed(st') => Flushed(LoneSpace(st'.(buf := [], ws := IsSpace(c) && st.ty == TextType), c))
              else if IsSpace(c) && st.ty == TextType then Flushed(LoneSpace(st.(ws := true), c))
              else Flushed(LoneSpace(st, c))
    ensures st.buf != [] ==> AddValue(st).st.ty == st.ty
  {
    hide StrToL, LoneSpace;
  }

  lemma {:induction false} LoneSpaceIs(st: State, c: char)
    ensures LoneSpace(st, c) == if c == '<' && st.ws && st.ty == TextType then AddNode(st, Text(true, [])).(ws := false) else st
    ensures LeafOf(TextValue(true, "")) == Text(true, [])
    ensures var st' := LoneSpace(st, c); st'.ty == st.ty && st'.buf == st.buf
    ensures var st' := AddNode(st, Text(true, [])); st'.ty == st.ty && st'.buf == st.buf
  {
  }

  lemma {:induction false} StepIs(st: State, c: char, s: string, env: Env)
    ensures Step(st, c, s, env) ==
              match Flush(st, c)
              case BadNumber(st') => Stopped(st')
              case Flushed(st') =>
                if c == '<' then Tag(st'.(buf := []), s, env)
                else if c == '&' then
                  match GetEntity(s, env.ents)
                  case NoEntity => Failed
                  case Entity(code, rest) => Running(st'.(buf := st'.buf + AddChar(code)), rest)
                else if st'.ty == OpaqueType || !IsSpace(c) then Running(st'.(buf := st'.buf + AddChar(c as int)), s)
                else Running(st', s)
  {
    hide Flush, Tag, GetEntity, AddChar;
  }

  /** Reading a tag changes neither the buffered value nor the whitespace flag. */
  lemma {:induction false} TagKeepsBuffer(st: State, s: string, env: Env)
    ensures var o := Tag(st, s, env); o.Running? ==> o.st.buf == st.buf && o.st.ws == st.ws
  {
    hide ReadTagName, ReadMarkup, ReadDeclaration, ParseElement, SkipToClose;
  }

  /** Climbing one level along the open elements */
  lemma {:induction false} ParentAt(f: Forest, vals: map<Node, NodeValue>, open: seq<Node>, roots: seq<Node>, st: State, i: nat)
    requires Shape(f, vals, open, roots, st) && Linked(f) && i < |open|
    ensures open[i].parent == (if i == 0 then null else open[i - 1])
    ensures i < |open| - 1 ==> open[i] != open[|open| - 1]
  {
    hide LinksOf;
    PointsUp(f, open[i]);
    if i < |open| - 1 {
      ChainFalls(f, open, i, |open| - 1);
    }
  }

  /** What the final state returns, as a node */
  lemma {:induction false} FinishShape(f: Forest, vals: map<Node, NodeValue>, open: seq<Node>, roots: seq<Node>, st: State)
    requires Shape(f, vals, open, roots, st)
    ensures Reader.Finish(st) == None <==> |open| > 1 || (open == [] && roots == [])
    ensures |open| == 1 ==> open[0] in f.kids && open[0] !in f.up && Reader.Finish(st) == Some(TreeOf(f, vals, open[0]))
    ensures open == [] && roots != [] ==> roots[0] in f.kids && roots[0] !in f.up && Reader.Finish(st) == Some(TreeOf(f, vals, roots[0]))
  {
    hide WellFormed, FrameShape, TreeOf;
    if |open| == 1 {
      assert FrameShape(f, vals, open, 0, st.stack[0]);
      CloseTree(f, vals, open, st.stack[0]);
    } else if open == [] && roots != [] {
      assert TreeShape(f, vals, open, roots[0], st.done[0]);
    }
  }

  lemma {:induction false} PointsUp(f: Forest, n: Node)
    requires WellFormed(f) && Linked(f) && n in f.kids
    ensures n.parent == ParentOf(f, n)
  {
    LinkedAt(f, n);
  }

  lemma {:induction false} PopFacts(st: State, cb: Callback)
    requires st.stack != []
    ensures var st' := Pop(st, cb);
            |st'.stack| == |st.stack| - 1 && (st'.stack == [] ==> st'.done != []) &&
            st'.ty == if cb.Callback? && st'.stack != []
                      then cb.TypeOf(st'.stack[|st'.stack| - 1].name, st'.stack[|st'.stack| - 1].attrs) else st.ty
  {
  }

  lemma {:induction false} InnermostIs(f: Forest, vals: map<Node, NodeValue>, open: seq<Node>, roots: seq<Node>, st: State)
    requires Shape(f, vals, open, roots, st) && open != []
    ensures |open| == |st.stack| && open[|open| - 1] in vals
    ensures vals[open[|open| - 1]] == HeaderOf(st.stack[|open| - 1])
    ensures HeaderOf(st.stack[|open| - 1]) == ElementValue(st.stack[|open| - 1].name, st.stack[|open| - 1].attrs)
    ensures open[|open| - 1] in f.kids && ParentOf(f, open[|open| - 1]) == Last(open[..|open| - 1])
  {
    assert FrameShape(f, vals, open, |open| - 1, st.stack[|open| - 1]);
  }

  lemma {:induction false} ShapeFacts(f: Forest, vals: map<Node, NodeValue>, open: seq<Node>, roots: seq<Node>, st: State)
    requires Shape(f, vals, open, roots, st)
    ensures |open| == |st.stack| && |roots| == |st.done|
    ensures forall i :: 0 <= i < |open| ==> open[i] in f.kids
    ensures forall i :: 0 <= i < |roots| ==> roots[i] in f.kids
  {
    assert forall i :: 0 <= i < |roots| ==> TreeShape(f, vals, open, roots[i], st.done[i]);
  }

  lemma {:induction false} SoundFacts(loader: Loader)
    requires loader.Sound()
    ensures WellFormed(loader.f) && Linked(loader.f) && (loader.first != null ==> loader.first in loader.f.kids)
  {
  }

  lemma {:induction false} BuiltFacts(loader: Loader, st: State)
    requires loader.Built(st)
    ensures WellFormed(loader.f)
  {
  }

  /** `mxmlLoadString(NULL, text, cb)`: the result is null exactly when there is no tree; otherwise it
      is a node without parent, and the tree below it is the one that was written. `built` and `first`
      are what the loader had built in the end and its first node: without a result exactly the tree
      of `first` is freed. */
  method LoadString(text: string, env: Env) returns (r: Node?, ghost f: Forest, ghost built: Forest, ghost first: Node?)
    ensures WellFormed(built) && (first != null ==> first in built.kids)
    ensures f == if r == null && first != null then Deleted(built, first) else built
    ensures WellFormed(f) && Linked(f) && fresh(f.kids.Keys)
    ensures r == null <==> Load(text, env) == None
    ensures r != null ==> r in f.kids && r !in f.up && Load(text, env) == Some(TreeOf(f, Values(f), r))
  {
    hide *;
    var loader := new Loader(text, env);
    ghost var st := Start;
    loader.AtParts(st);
    var turn := GoOn;
    while turn == GoOn
      invariant fresh(loader) && fresh(loader.source) && fresh(loader.buffer) && fresh(loader.buffer.data)
      invariant fresh(loader.f.kids.Keys) && loader.env == env && loader.source.Valid()
      invariant turn == GoOn ==> loader.At(st) && Run(Start, text, env) == Run(st, loader.source.Rest(), env)
      invariant turn == Stop ==> loader.Built(st) && Run(Start, text, env) == Stopped(st)
      invariant turn == Fail ==> loader.Sound() && Run(Start, text, env) == Failed
      decreases turn == GoOn, |loader.source.Rest()|
    {
      loader.AtParts(st);
      RunIs(st, loader.source.Rest(), env);
      var ch := loader.source.GetChar();
      loader.MakeAt(st);
      if ch == None {
        turn := Stop;
      } else {
        ghost var o := Step(st, ch.value, loader.source.Rest(), env);
        turn := loader.Turn(ch.value, st);
        if o.Running? || o.Stopped? {
          st := o.st;
        }
      }
    }
    built, first := loader.f, loader.first;
    LoadIs(text, env);
    if turn == Fail {
      SoundFacts(loader);
      ghost var freed;
      freed, f := Delete(loader.first, loader.f);
      return null, f, built, first;
    }
    BuiltFacts(loader, st);
    r, f := loader.End(st);
  }

  lemma {:induction false} RunIs(st: State, s: string, env: Env)
    ensures var g := GetC(s);
            Run(st, s, env) == if g.Eof? then Stopped(st)
                               else match Step(st, g.c, g.rest, env)
                                    case Failed => Failed
                                    case Stopped(st') => Stopped(st')
                                    case Running(st', rest) => Run(st', rest, env)
    ensures CharOf(GetC(s)) == if GetC(s).Eof? then None else Some(GetC(s).c)
  {
    hide Step;
  }

  lemma {:induction false} LoadIs(s: string, env: Env)
    ensures Load(s, env) == match Run(Start, s, env) case Stopped(st) => Reader.Finish(st) case _ => None
  {
    hide Run;
  }
}
