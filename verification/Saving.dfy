/** mxml-file.c's printer over the nodes themselves: `_write_ws_cb`, `mxml_write_node` and the savers
    to strings. What they write is what module Writer says about the tree below the node. */
module Saving {
  import opened Options
  import opened Numbers
  import opened Trees
  import opened Forests
  import opened ForestOps
  import Nodes
  import opened Finding
  import opened TreeValues
  import opened Writer
  import opened Printing

  /** The pointers and the values of the nodes are those of `f` and `vals`. */
  ghost predicate Mirrors(f: Forest, vals: map<Node, NodeValue>)
    reads f.kids.Keys
  {
    WellFormed(f) && Linked(f) && vals == Values(f)
  }

  // ----- where a node is -----

  ghost function Higher(f: Forest, x: Node): set<Node>
    requires x in f.height
  {
    set y | y in f.height && f.height[y] > f.height[x]
  }

  lemma {:induction false} ParentIsHigher(f: Forest, x: Node)
    requires WellFormed(f) && x in f.up
    ensures x in f.kids && f.up[x] in f.kids && Higher(f, f.up[x]) < Higher(f, x)
  {
    var p := f.up[x];
    assert x in f.kids[p];
    var i :| 0 <= i < |f.kids[p]| && f.kids[p][i] == x;
    assert KidOk(f, p, f.kids[p][i]);
    assert p in Higher(f, x) && p !in Higher(f, p);
  }

  /** The trees of the siblings before `x` */
  ghost function Before(f: Forest, vals: map<Node, NodeValue>, x: Node): seq<Tree>
    requires WellFormed(f) && x in f.kids && f.kids.Keys <= vals.Keys
  {
    if x !in f.up then [] else TreesFrom(f, vals, f.up[x], 0)[..Index(f.kids[f.up[x]], x)]
  }

  /** The trees of the siblings behind `x` */
  ghost function After(f: Forest, vals: map<Node, NodeValue>, x: Node): seq<Tree>
    requires WellFormed(f) && x in f.kids && f.kids.Keys <= vals.Keys
  {
    if x !in f.up then [] else TreesFrom(f, vals, f.up[x], 0)[Index(f.kids[f.up[x]], x) + 1..]
  }

  /** The element `x`, as a node below it sees it */
  ghost function AroundOf(f: Forest, vals: map<Node, NodeValue>, x: Node): Around
    requires WellFormed(f) && x in f.kids && f.kids.Keys <= vals.Keys
  {
    var v := vals[x];
    Around(if v.ElementValue? then v.name else [], if v.ElementValue? then v.attrs else [], Before(f, vals, x), After(f, vals, x))
  }

  /** The elements around `x`, from the outermost on */
  ghost function PathTo(f: Forest, vals: map<Node, NodeValue>, x: Node): seq<Around>
    requires WellFormed(f) && x in f.kids && f.kids.Keys <= vals.Keys
    decreases Higher(f, x)
  {
    if x !in f.up then []
    else
      ParentIsHigher(f, x);
      PathTo(f, vals, f.up[x]) + [AroundOf(f, vals, f.up[x])]
  }

  /** What a whitespace callback sees of `x` */
  ghost function PlaceAt(f: Forest, vals: map<Node, NodeValue>, x: Node): Place
    requires WellFormed(f) && x in f.kids && f.kids.Keys <= vals.Keys
  {
    Place(PathTo(f, vals, x), Before(f, vals, x), TreeOf(f, vals, x), After(f, vals, x))
  }

  // ----- _write_ws_cb -----

  lemma {:induction false} SpacesBack(n: nat)
    ensures Spaces(n) + "  " == Spaces(n + 1)
  {
    if n > 0 {
      SpacesBack(n - 1);
      assert "  " + Spaces(n - 1) + "  " == "  " + (Spaces(n - 1) + "  ");
    }
  }

  /** One step towards the root */
  lemma {:induction false} StepUp(f: Forest, vals: map<Node, NodeValue>, x: Node)
    requires Mirrors(f, vals) && x in f.kids
    ensures WellFormed(f) && f.kids.Keys <= vals.Keys
    ensures x.parent == null ==> PathTo(f, vals, x) == []
    ensures x.parent != null ==> x.parent in f.kids && |PathTo(f, vals, x)| == |PathTo(f, vals, x.parent)| + 1
  {
    hide WellFormed, AroundOf, Higher;
    Nodes.LinkedAt(f, x);
    if x.parent != null {
      ParentIsHigher(f, x);
    }
  }

  /** The indentation for `n` ancestors, of which `level` have been counted */
  lemma {:induction false} LevelsCounted(level: nat, n: nat)
    ensures n == 0 ==> Indentation(n) == Spaces(0)
    ensures n > 0 && 1 <= level <= 30 && (level == n || (level == 30 && n >= 30)) ==> Indentation(n) == Spaces(level - 1)
    ensures Spaces(0) == ""
  {
  }

  /** The loop over the ancestors, which adds two spaces for each but the outermost */
  method Levels(tree: Node, ghost f: Forest, ghost vals: map<Node, NodeValue>) returns (fill: string)
    requires Mirrors(f, vals) && tree in f.kids
    ensures fill == Indentation(|PathTo(f, vals, tree)|)
  {
    hide *;
    fill := "";
    var level := 1;
    var node := tree.parent;
    StepUp(f, vals, tree);
    LevelsCounted(1, 0);
    while node != null && node.parent != null && level < 30
      invariant 1 <= level <= 30 && fill == Spaces(level - 1)
      invariant node == null ==> PathTo(f, vals, tree) == [] && level == 1
      invariant node != null ==> node in f.kids && |PathTo(f, vals, node)| + level == |PathTo(f, vals, tree)|
      decreases 30 - level
    {
      StepUp(f, vals, node);
      SpacesBack(level - 1);
      fill := fill + "  ";
      node := node.parent;
      level := level + 1;
    }
    if node != null {
      StepUp(f, vals, node);
    }
    LevelsCounted(level, |PathTo(f, vals, tree)|);
  }

  lemma {:induction false} IsElement(f: Forest, vals: map<Node, NodeValue>, x: Node)
    requires WellFormed(f) && x in f.kids && f.kids.Keys <= vals.Keys
    ensures TreeOf(f, vals, x).Element? <==> vals[x].ElementValue?
  {
  }

  /** Is there an element among the children of `p`, of which `first` is the first one? */
  method ElementFrom(first: Node?, ghost p: Node, ghost f: Forest, ghost vals: map<Node, NodeValue>) returns (found: bool)
    requires Mirrors(f, vals) && p in f.kids && first == FirstOf(f, p)
    ensures found <==> HasElement(TreesFrom(f, vals, p, 0))
  {
    hide WellFormed, TreeOf, LinksOf;
    var node := first;
    ghost var i := 0;
    ghost var ts := TreesFrom(f, vals, p, 0);
    while node != null && !node.value.ElementValue?
      invariant i <= |f.kids[p]| && node == if i < |f.kids[p]| then f.kids[p][i] else null
      invariant forall k :: 0 <= k < i ==> !ts[k].Element?
      decreases |f.kids[p]| - i
    {
      TreesAt(f, vals, p, 0, i);
      IsElement(f, vals, node);
      NextAt(f, p, i);
      node := node.next;
      i := i + 1;
    }
    if node != null {
      TreesAt(f, vals, p, 0, i);
      IsElement(f, vals, node);
      assert ts[i].Element?;
    }
    return node != null;
  }

  lemma {:induction false} NextAt(f: Forest, p: Node, i: nat)
    requires WellFormed(f) && Linked(f) && p in f.kids && i < |f.kids[p]|
    ensures f.kids[p][i].next == (if i + 1 < |f.kids[p]| then f.kids[p][i + 1] else null)
    ensures f.kids[p][i].prev == (if i > 0 then f.kids[p][i - 1] else null)
    ensures f.kids[p][i] in f.kids && f.kids[p][i] in f.up && f.up[f.kids[p][i]] == p && Index(f.kids[p], f.kids[p][i]) == i
  {
    KidInForest(f, p, i);
    Nodes.LinkedAt(f, f.kids[p][i]);
    Nodes.NeighboursAt(f, f.kids[p][i], i);
    IndexUnique(f.kids[p], i);
  }

  /** Is there an element among the siblings before `tree`? */
  method ElementBefore(tree: Node, ghost f: Forest, ghost vals: map<Node, NodeValue>) returns (found: bool)
    requires Mirrors(f, vals) && tree in f.kids
    ensures found <==> HasElement(Before(f, vals, tree))
  {
    hide WellFormed, TreeOf, LinksOf;
    var node := tree.prev;
    ghost var p := tree.parent;
    ghost var ts := Before(f, vals, tree);
    ghost var k := -1;
    if p == null {
      RootAlone(f, vals, tree);
    } else {
      ghost var i := PlaceIn(f, tree);
      NextAt(f, p, i);
      k := i as int - 1;
    }
    while node != null && !node.value.ElementValue?
      invariant p == null ==> k == -1
      invariant -1 <= k < |ts| && node == if k >= 0 then f.kids[p][k] else null
      invariant forall j :: k < j < |ts| ==> !ts[j].Element?
      decreases k
    {
      TreesAt(f, vals, p, 0, k);
      IsElement(f, vals, node);
      NextAt(f, p, k);
      node := node.prev;
      k := k - 1;
    }
    if node != null {
      TreesAt(f, vals, p, 0, k);
      IsElement(f, vals, node);
      assert ts[k].Element?;
    }
    return node != null;
  }

  lemma {:induction false} RootAlone(f: Forest, vals: map<Node, NodeValue>, x: Node)
    requires Mirrors(f, vals) && x in f.kids && x.parent == null
    ensures x !in f.up && x.prev == null && x.next == null
    ensures Before(f, vals, x) == After(f, vals, x) == [] && PathTo(f, vals, x) == []
  {
    Nodes.LinkedAt(f, x);
  }

  lemma {:induction false} PlaceIn(f: Forest, x: Node) returns (i: nat)
    requires WellFormed(f) && Linked(f) && x in f.kids && x.parent != null
    ensures x in f.up && x.parent == f.up[x] && f.up[x] in f.kids && i < |f.kids[f.up[x]]| && f.kids[f.up[x]][i] == x
  {
    Nodes.LinkedAt(f, x);
    i := Nodes.IndexIn(f, x);
  }

  /** `_write_ws_cb`, asked about an element */
  method IndentFor(tree: Node, where: Where, ghost f: Forest, ghost vals: map<Node, NodeValue>) returns (fill: string)
    requires Mirrors(f, vals) && tree in f.kids && tree.value.ElementValue?
    ensures fill == Indent(PlaceAt(f, vals, tree), where)
  {
    hide WellFormed, LinksOf, Linked, Before, PathTo, HasElement;
    fill := "";
    match where {
      case AfterClose =>
        fill := "\n";
      case BeforeClose =>
        assert tree.child == FirstOf(f, tree) by { FirstIs(f, tree); }
        var any := ElementFrom(tree.child, tree, f, vals);
        if any {
          fill := Levels(tree, f, vals);
        }
      case BeforeOpen =>
        var any := ElementBefore(tree, f, vals);
        var rest := Levels(tree, f, vals);
        assert (tree.parent == null) == (PathTo(f, vals, tree) == []) by { NoPath(f, vals, tree); }
        fill := (if !any && tree.parent != null then "\n" else "") + rest;
      case AfterOpen =>
    }
  }

  lemma {:induction false} FirstIs(f: Forest, x: Node)
    requires WellFormed(f) && Linked(f) && x in f.kids
    ensures x.child == FirstOf(f, x)
  {
    Nodes.LinkedAt(f, x);
  }

  lemma {:induction false} NoPath(f: Forest, vals: map<Node, NodeValue>, x: Node)
    requires WellFormed(f) && Linked(f) && x in f.kids && f.kids.Keys <= vals.Keys
    ensures (x.parent == null) == (PathTo(f, vals, x) == [])
  {
    Nodes.LinkedAt(f, x);
  }

  // ----- mxml_write_node -----

  /** The two callbacks: none, and `_write_ws_cb` */
  function CallbackOf(indent: bool): WsCallback {
    if indent then Indent else Silent
  }

  /** What they return */
  function Spacing(indent: bool, p: Place, where: Where): string {
    CallbackOf(indent)(p, where)
  }

  lemma {:induction false} MirrorFacts(f: Forest, vals: map<Node, NodeValue>, x: Node)
    requires Mirrors(f, vals) && x in f.kids
    ensures WellFormed(f) && f.kids.Keys <= vals.Keys && f.kids.Keys == f.height.Keys && vals[x] == x.value
    ensures PlaceAt(f, vals, x) == Place(PathTo(f, vals, x), Before(f, vals, x), TreeOf(f, vals, x), After(f, vals, x))
  {
  }

  /** `mxml_write_ws` */
  method WriteWs(sink: StringSink, tree: Node, where: Where, indent: bool, col: int, ghost f: Forest, ghost vals: map<Node, NodeValue>)
    returns (after: int)
    requires sink.Valid() && Mirrors(f, vals) && tree in f.kids && tree in vals && vals[tree].ElementValue?
    modifies sink, sink.buffer
    ensures sink.Valid() && Mirrors(f, vals)
    ensures var s := Spacing(indent, PlaceAt(f, vals, tree), where);
            sink.written == old(sink.written) + s && after == ColumnAfter(s, col)
  {
    hide *;
    MirrorFacts(f, vals, tree);
    SpacingIs(indent, PlaceAt(f, vals, tree), where, col);
    after := col;
    if indent {
      var s := IndentFor(tree, where, f, vals);
      after := sink.WriteSpaces(s, col);
    } else {
      assert sink.written + [] == sink.written;
    }
  }

  lemma {:induction false} SpacingIs(indent: bool, p: Place, where: Where, col: int)
    ensures indent ==> Spacing(indent, p, where) == Indent(p, where)
    ensures !indent ==> Spacing(indent, p, where) == [] && ColumnAfter(Spacing(indent, p, where), col) == col
  {
    hide Indent;
  }

  /** The open tag, up to what closes it */
  method WriteOpenTag(sink: StringSink, name: string, attrs: seq<Attr>, wrap: int, col: int) returns (after: int)
    requires sink.Valid()
    modifies sink, sink.buffer
    ensures sink.Valid()
    ensures var w := WriteOpen(name, attrs, wrap, col); sink.written == old(sink.written) + w.text && after == w.col
  {
    hide Escape, WriteName, WriteAttrs;
    ghost var base := sink.written;
    sink.Put('<');
    if IsVerbatim(name) {
      sink.PutAll(name);
    } else {
      sink.WriteNameString(name);
    }
    after := sink.WriteAttributes(attrs, wrap, col + |name| + 1);
  }

  /** What ends an element that has children; `kids` is what those wrote, from `base` on. */
  method WriteCloseTag(sink: StringSink, tree: Node, indent: bool, col: int, ghost base: string, ghost kids: Written,
                       ghost f: Forest, ghost vals: map<Node, NodeValue>)
    returns (after: int)
    requires sink.Valid() && Mirrors(f, vals) && tree in f.kids && tree in vals && vals[tree].ElementValue?
    requires sink.written == base + kids.text && col == kids.col
    modifies sink, sink.buffer
    ensures sink.Valid() && Mirrors(f, vals)
    ensures var w := WriteEnd(PlaceAt(f, vals, tree), vals[tree].name, kids, CallbackOf(indent));
            sink.written == base + w.text && after == w.col
  {
    hide *;
    MirrorFacts(f, vals, tree);
    ghost var p := PlaceAt(f, vals, tree);
    var name := tree.value.name;
    EndParts(p, name, kids, indent);
    after := col;
    if !IsMarkup(name) {
      after := WriteWs(sink, tree, BeforeClose, indent, after, f, vals);
      sink.WriteEndName(name);
      after := WriteWs(sink, tree, AfterClose, indent, after + |name| + 3, f, vals);
      Join4(base, kids.text, Spacing(indent, p, BeforeClose), EndName(name), Spacing(indent, p, AfterClose));
    }
  }

  lemma {:induction false} EndParts(p: Place, name: string, kids: Written, indent: bool)
    ensures var w := WriteEnd(p, name, kids, CallbackOf(indent));
            var before, after := Spacing(indent, p, BeforeClose), Spacing(indent, p, AfterClose);
            w == if IsMarkup(name) then kids
                 else Written(kids.text + before + EndName(name) + after, ColumnAfter(after, ColumnAfter(before, kids.col) + |name| + 3))
  {
    hide Escape, ColumnAfter;
    if !IsMarkup(name) {
      var cb := CallbackOf(indent);
      JoinEnd(kids.text + cb(p, BeforeClose), "</", Escape(name), ">", cb(p, AfterClose));
    }
  }

  lemma {:induction false} JoinEnd(a: string, b: string, c: string, d: string, e: string)
    ensures a + b + c + d + e == a + (b + c + d) + e
  {
  }

  lemma {:induction false} Join4(base: string, a: string, b: string, c: string, d: string)
    ensures base + a + b + c + d == base + (a + b + c + d)
  {
  }

  /** What ends an element without children */
  method WriteEmptyTag(sink: StringSink, tree: Node, indent: bool, col: int, ghost f: Forest, ghost vals: map<Node, NodeValue>)
    returns (after: int)
    requires sink.Valid() && Mirrors(f, vals) && tree in f.kids && tree in vals && vals[tree].ElementValue?
    modifies sink, sink.buffer
    ensures sink.Valid() && Mirrors(f, vals)
    ensures var w := WriteEmpty(PlaceAt(f, vals, tree), vals[tree].name, col, CallbackOf(indent));
            sink.written == old(sink.written) + w.text && after == w.col
  {
    hide *;
    MirrorFacts(f, vals, tree);
    ghost var p := PlaceAt(f, vals, tree);
    var name := tree.value.name;
    EmptyParts(p, name, indent, col);
    if IsMarkup(name) {
      sink.Put('>');
      after := col + 1;
    } else {
      sink.PutAll(" />");
      after := col + 3;
    }
    after := WriteWs(sink, tree, AfterClose, indent, after, f, vals);
    Join2(old(sink.written), if IsMarkup(name) then ">" else " />", Spacing(indent, p, AfterClose));
  }

  lemma {:induction false} EmptyParts(p: Place, name: string, indent: bool, col: int)
    ensures var w := WriteEmpty(p, name, col, CallbackOf(indent));
            var close, after := if IsMarkup(name) then ">" else " />", Spacing(indent, p, AfterClose);
            w == Written(close + after, ColumnAfter(after, col + |close|))
  {
  }

  lemma {:induction false} Join2(base: string, a: string, b: string)
    ensures base + a + b == base + (a + b)
  {
  }

  /** A value node: the separator before it, and its text */
  method WriteValue(sink: StringSink, node: Node, wrap: int, col: int, ghost f: Forest, ghost vals: map<Node, NodeValue>,
                    ghost cb: WsCallback)
    returns (after: int)
    requires sink.Valid() && Mirrors(f, vals) && node in f.kids && !node.value.ElementValue?
    modifies sink, sink.buffer
    ensures sink.Valid() && Mirrors(f, vals)
    ensures var w := WriteNode(TreeOf(f, vals, node), PathTo(f, vals, node), Before(f, vals, node), After(f, vals, node), cb, wrap, col);
            sink.written == old(sink.written) + w.text && after == w.col
  {
    hide WellFormed, Linked, Escape, Decimal, Before, After, PathTo, WriteSeparator;
    after := col;
    match node.value {
      case IntegerValue(n) =>
        assert (node.prev != null) == (Before(f, vals, node) != []) by { PrevIsBefore(f, vals, node); }
        if node.prev != null {
          after := sink.Separate(after > wrap, after);
        }
        sink.WriteString(Decimal(n));
        after := after + |Decimal(n)|;
      case OpaqueValue(s) =>
        sink.WriteString(s);
        after := after + |s|;
      case TextValue(ws, s) =>
        if ws && after > 0 {
          after := sink.Separate(after > wrap, after);
        }
        sink.WriteString(s);
        after := after + |s|;
    }
  }

  lemma {:induction false} PrevIsBefore(f: Forest, vals: map<Node, NodeValue>, x: Node)
    requires Mirrors(f, vals) && x in f.kids
    ensures (x.prev != null) == (Before(f, vals, x) != [])
  {
    if x.parent == null {
      RootAlone(f, vals, x);
    } else {
      var i := PlaceIn(f, x);
      NextAt(f, f.up[x], i);
    }
  }

  /** `sib` is a whole list of siblings: the children of a node, or one node without parent. */
  ghost predicate Siblings(f: Forest, sib: seq<Node>)
    requires WellFormed(f)
  {
    && (forall k :: 0 <= k < |sib| ==> sib[k] in f.kids)
    && (sib != [] && sib[0] in f.up ==> f.up[sib[0]] in f.kids && sib == f.kids[f.up[sib[0]]])
    && (sib != [] && sib[0] !in f.up ==> |sib| == 1)
  }

  /** Their trees */
  ghost function TreesOf(f: Forest, vals: map<Node, NodeValue>, sib: seq<Node>): (ts: seq<Tree>)
    requires WellFormed(f) && f.kids.Keys <= vals.Keys && Siblings(f, sib)
    ensures |ts| == |sib|
  {
    seq(|sib|, k requires 0 <= k < |sib| => TreeOf(f, vals, sib[k]))
  }

  lemma {:induction false} KidsAreSiblings(f: Forest, vals: map<Node, NodeValue>, n: Node)
    requires WellFormed(f) && n in f.kids && f.kids.Keys <= vals.Keys
    ensures Siblings(f, f.kids[n]) && TreesOf(f, vals, f.kids[n]) == TreesFrom(f, vals, n, 0)
    ensures forall k :: 0 <= k < |f.kids[n]| ==> f.height[f.kids[n][k]] < f.height[n]
    ensures forall k :: 0 <= k < |f.kids[n]| ==> PathTo(f, vals, f.kids[n][k]) == PathTo(f, vals, n) + [AroundOf(f, vals, n)]
  {
    forall k | 0 <= k < |f.kids[n]| {
      KidFacts(f, vals, n, k);
    }
  }

  lemma {:induction false} KidFacts(f: Forest, vals: map<Node, NodeValue>, n: Node, k: nat)
    requires WellFormed(f) && n in f.kids && f.kids.Keys <= vals.Keys && k < |f.kids[n]|
    ensures var c := f.kids[n][k];
            c in f.kids && c in f.up && f.up[c] == n && f.height[c] < f.height[n] &&
            PathTo(f, vals, c) == PathTo(f, vals, n) + [AroundOf(f, vals, n)] &&
            TreesFrom(f, vals, n, 0)[k] == TreeOf(f, vals, c)
  {
    hide WellFormed, TreeOf, AroundOf;
    KidInForest(f, n, k);
    ParentIsHigher(f, f.kids[n][k]);
    TreesAt(f, vals, n, 0, k);
  }

  lemma {:induction false} SiblingAt(f: Forest, vals: map<Node, NodeValue>, sib: seq<Node>, k: nat)
    requires Mirrors(f, vals) && Siblings(f, sib) && k < |sib|
    ensures sib[k].next == (if k + 1 < |sib| then sib[k + 1] else null)
    ensures Before(f, vals, sib[k]) == TreesOf(f, vals, sib)[..k]
    ensures After(f, vals, sib[k]) == TreesOf(f, vals, sib)[k + 1..]
  {
    hide WellFormed, TreeOf, PathTo;
    if sib[0] in f.up {
      var p := f.up[sib[0]];
      NextAt(f, p, k);
      KidsAreSiblings(f, vals, p);
    } else {
      Nodes.LinkedAt(f, sib[0]);
      RootAlone(f, vals, sib[0]);
    }
  }

  /** `mxml_write_node`'s loop body for one node */
  method WriteOne(sink: StringSink, node: Node, indent: bool, wrap: int, col: int, ghost f: Forest, ghost vals: map<Node, NodeValue>)
    returns (after: int)
    requires sink.Valid() && Mirrors(f, vals) && node in f.kids
    modifies sink, sink.buffer
    ensures sink.Valid() && Mirrors(f, vals)
    ensures var w := WriteNode(TreeOf(f, vals, node), PathTo(f, vals, node), Before(f, vals, node), After(f, vals, node), CallbackOf(indent), wrap, col);
            sink.written == old(sink.written) + w.text && after == w.col
    decreases f.height[node], 2
  {
    hide *;
    MirrorFacts(f, vals, node);
    ghost var base := sink.written;
    ghost var p, t, cb := PlaceAt(f, vals, node), TreeOf(f, vals, node), CallbackOf(indent);
    if !node.value.ElementValue? {
      after := WriteValue(sink, node, wrap, col, f, vals, cb);
      return;
    }
    ElementIs(f, vals, node);
    ElementParts(t, p.around, p.before, p.after, indent, wrap, col);
    var name, attrs, child := node.value.name, node.value.attrs, node.child;
    after := WriteWs(sink, node, BeforeOpen, indent, col, f, vals);
    ghost var s1 := Spacing(indent, p, BeforeOpen);
    ghost var s2 := WriteOpen(t.name, t.attrs, wrap, after).text;
    after := WriteOpenTag(sink, name, attrs, wrap, after);
    ghost var rest := if t.kids == [] then WriteEmpty(p, t.name, after, cb) else WriteContent(p, cb, wrap, after);
    if child == null {
      after := WriteEmptyTag(sink, node, indent, after, f, vals);
    } else {
      after := WriteInside(sink, node, indent, wrap, after, f, vals);
    }
    Join3(base, s1, s2, rest.text);
  }

  lemma {:induction false} Join3(base: string, a: string, b: string, c: string)
    ensures base + a + b + c == base + (a + b + c)
  {
  }

  /** An element node and its tree */
  lemma {:induction false} ElementIs(f: Forest, vals: map<Node, NodeValue>, x: Node)
    requires Mirrors(f, vals) && x in f.kids && vals[x].ElementValue?
    ensures var t, p := TreeOf(f, vals, x), PlaceAt(f, vals, x);
            t.Element? && t.name == x.value.name && t.attrs == x.value.attrs && (x.child == null <==> t.kids == []) &&
            x.child == (if f.kids[x] == [] then null else f.kids[x][0]) &&
            p == Place(PathTo(f, vals, x), Before(f, vals, x), t, After(f, vals, x)) &&
            Siblings(f, f.kids[x]) && t.kids == TreesOf(f, vals, f.kids[x])
    ensures forall k :: 0 <= k < |f.kids[x]| ==> f.height[f.kids[x][k]] < f.height[x]
    ensures forall k :: 0 <= k < |f.kids[x]| ==> PathTo(f, vals, f.kids[x][k]) == InnerPath(PlaceAt(f, vals, x))
  {
    KidsAreSiblings(f, vals, x);
    FirstIs(f, x);
  }

  /** The elements around the children of an element */
  ghost function InnerPath(p: Place): seq<Around>
    requires p.node.Element?
  {
    p.around + [Around(p.node.name, p.node.attrs, p.before, p.after)]
  }

  /** What follows the attributes of an element with children */
  ghost function WriteContent(p: Place, cb: WsCallback, wrap: int, col: int): Written
    requires p.node.Element?
  {
    var after := WriteSpace(cb(p, AfterOpen), col + 1);
    var end := WriteEnd(p, p.node.name, WriteNodes(p.node.kids, InnerPath(p), [], cb, wrap, after.col), cb);
    Written(">" + after.text + end.text, end.col)
  }

  lemma {:induction false} ElementParts(t: Tree, around: seq<Around>, before: seq<Tree>, after: seq<Tree>, indent: bool, wrap: int, col: int)
    requires t.Element?
    ensures var p := Place(around, before, t, after);
            var start, cb := Spacing(indent, p, BeforeOpen), CallbackOf(indent);
            var open := WriteOpen(t.name, t.attrs, wrap, ColumnAfter(start, col));
            var rest := if t.kids == [] then WriteEmpty(p, t.name, open.col, cb) else WriteContent(p, cb, wrap, open.col);
            WriteNode(t, around, before, after, cb, wrap, col) == Written(start + open.text + rest.text, rest.col)
  {
    hide WriteOpen, WriteEmpty, WriteEnd, WriteNodes, ColumnAfter;
  }

  /** The children of an element, and the tags around them from the '>' of the open tag on */
  method WriteInside(sink: StringSink, node: Node, indent: bool, wrap: int, col: int, ghost f: Forest, ghost vals: map<Node, NodeValue>)
    returns (after: int)
    requires sink.Valid() && Mirrors(f, vals) && node in f.kids
    requires node in vals && vals[node].ElementValue? && f.kids[node] != []
    modifies sink, sink.buffer
    ensures sink.Valid() && Mirrors(f, vals)
    ensures var w := WriteContent(PlaceAt(f, vals, node), CallbackOf(indent), wrap, col);
            sink.written == old(sink.written) + w.text && after == w.col
    decreases f.height[node], 1
  {
    hide *;
    MirrorFacts(f, vals, node);
    ghost var base := sink.written;
    ghost var p, t, cb := PlaceAt(f, vals, node), TreeOf(f, vals, node), CallbackOf(indent);
    ElementIs(f, vals, node);
    ContentParts(p, indent, wrap, col);
    ghost var h := f.height[node];
    var child := node.child;
    sink.Put('>');
    after := WriteWs(sink, node, AfterOpen, indent, col + 1, f, vals);
    ghost var middle := sink.written;
    ghost var inner := WriteNodes(t.kids, InnerPath(p), [], cb, wrap, after);
    ghost var end := WriteEnd(p, t.name, inner, cb);
    after := WriteList(sink, child, indent, wrap, after, f, vals, f.kids[node], 0, h, InnerPath(p));
    after := WriteCloseTag(sink, node, indent, after, middle, inner, f, vals);
    Join3(base, ">", Spacing(indent, p, AfterOpen), end.text);
  }

  lemma {:induction false} ContentParts(p: Place, indent: bool, wrap: int, col: int)
    requires p.node.Element?
    ensures var after, cb := Spacing(indent, p, AfterOpen), CallbackOf(indent);
            var inner := WriteNodes(p.node.kids, InnerPath(p), [], cb, wrap, ColumnAfter(after, col + 1));
            var end := WriteEnd(p, p.node.name, inner, cb);
            WriteContent(p, cb, wrap, col) == Written(">" + after + end.text, end.col)
  {
    hide WriteEnd, WriteNodes, ColumnAfter;
  }

  /** `mxml_write_node`: a node and the siblings after it, `from` being its place among all of them */
  method WriteList(sink: StringSink, first: Node?, indent: bool, wrap: int, col: int, ghost f: Forest, ghost vals: map<Node, NodeValue>,
                   ghost sib: seq<Node>, ghost from: nat, ghost h: nat, ghost path: seq<Around>)
    returns (after: int)
    requires sink.Valid() && Mirrors(f, vals) && Siblings(f, sib) && from <= |sib|
    requires first == if from < |sib| then sib[from] else null
    requires forall k :: 0 <= k < |sib| ==> f.height[sib[k]] < h && PathTo(f, vals, sib[k]) == path
    modifies sink, sink.buffer
    ensures sink.Valid() && Mirrors(f, vals)
    ensures var ts := TreesOf(f, vals, sib); var w := WriteNodes(ts[from..], path, ts[..from], CallbackOf(indent), wrap, col);
            sink.written == old(sink.written) + w.text && after == w.col
    decreases h, 0
  {
    hide *;
    ListFacts(f, vals, sib);
    ghost var ts, cb := TreesOf(f, vals, sib), CallbackOf(indent);
    after := col;
    var node := first;
    ghost var i := from;
    while node != null
      invariant sink.Valid() && Mirrors(f, vals)
      invariant i <= |sib| && node == if i < |sib| then sib[i] else null
      invariant var w, v := WriteNodes(ts[from..], path, ts[..from], cb, wrap, col), WriteNodes(ts[i..], path, ts[..i], cb, wrap, after);
                sink.written + v.text == old(sink.written) + w.text && v.col == w.col
      decreases |sib| - i
    {
      ghost var before := sink.written;
      ghost var one := WriteNode(ts[i], path, ts[..i], ts[i + 1..], cb, wrap, after);
      ghost var rest := WriteNodes(ts[i + 1..], path, ts[..i + 1], cb, wrap, one.col);
      ListAt(f, vals, sib, i);
      ListStep(ts, i, path, cb, wrap, after);
      after := WriteOne(sink, node, indent, wrap, after, f, vals);
      Join2(before, one.text, rest.text);
      node := node.next;
      i := i + 1;
    }
    ListEnd(ts, path, cb, wrap, after);
    assert sink.written + [] == sink.written;
  }

  lemma {:induction false} ListFacts(f: Forest, vals: map<Node, NodeValue>, sib: seq<Node>)
    requires Mirrors(f, vals) && Siblings(f, sib)
    ensures WellFormed(f) && f.kids.Keys <= vals.Keys && |TreesOf(f, vals, sib)| == |sib|
  {
    hide WellFormed;
  }

  lemma {:induction false} ListAt(f: Forest, vals: map<Node, NodeValue>, sib: seq<Node>, i: nat)
    requires Mirrors(f, vals) && Siblings(f, sib) && i < |sib|
    ensures sib[i] in f.kids && sib[i].next == (if i + 1 < |sib| then sib[i + 1] else null)
    ensures TreeOf(f, vals, sib[i]) == TreesOf(f, vals, sib)[i]
    ensures Before(f, vals, sib[i]) == TreesOf(f, vals, sib)[..i]
    ensures After(f, vals, sib[i]) == TreesOf(f, vals, sib)[i + 1..]
  {
    hide WellFormed, TreeOf, Before, After, Linked;
    SiblingAt(f, vals, sib, i);
  }

  lemma {:induction false} ListEnd(ts: seq<Tree>, path: seq<Around>, cb: WsCallback, wrap: int, col: int)
    ensures WriteNodes(ts[|ts|..], path, ts[..|ts|], cb, wrap, col) == Written([], col)
  {
  }

  lemma {:induction false} ListStep(ts: seq<Tree>, i: nat, path: seq<Around>, cb: WsCallback, wrap: int, col: int)
    requires i < |ts|
    ensures var first := WriteNode(ts[i], path, ts[..i], ts[i + 1..], cb, wrap, col);
            var rest := WriteNodes(ts[i + 1..], path, ts[..i + 1], cb, wrap, first.col);
            WriteNodes(ts[i..], path, ts[..i], cb, wrap, col) == Written(first.text + rest.text, rest.col)
  {
    hide WriteNode;
    assert ts[i..][1..] == ts[i + 1..] && ts[..i] + [ts[i]] == ts[..i + 1];
  }

  // ----- the savers to strings -----

  /** The wrap margin of the savers to strings */
  const WRAP: int := 0x7F000000

  /** What is saved for `node`: the node and the siblings behind it, from column 0 on, and a newline
      if the text does not end a line */
  ghost function TextOf(f: Forest, vals: map<Node, NodeValue>, node: Node, indent: bool): string
    requires WellFormed(f) && node in f.kids && f.kids.Keys <= vals.Keys
  {
    var w := WriteNodes([TreeOf(f, vals, node)] + After(f, vals, node), PathTo(f, vals, node), Before(f, vals, node),
                        CallbackOf(indent), WRAP, 0);
    w.text + (if w.col > 0 then "\n" else [])
  }

  /** For a node without parent that is its tree, saved. */
  lemma {:induction false} TextOfRoot(f: Forest, vals: map<Node, NodeValue>, x: Node, indent: bool)
    requires WellFormed(f) && x in f.kids && x !in f.up && f.kids.Keys <= vals.Keys
    ensures TextOf(f, vals, x, indent) == Save(TreeOf(f, vals, x), if indent then Indent else Silent, 0x7F00_0000)
    ensures CallbackOf(indent) == (if indent then Indent else Silent) && WRAP == 0x7F00_0000
  {
    hide Save, WriteNodes, WellFormed, TreeOf;
    assert [TreeOf(f, vals, x)] + [] == [TreeOf(f, vals, x)];
    SaveIs(TreeOf(f, vals, x), CallbackOf(indent), WRAP);
  }

  /** For a child it goes on with the trees of all later children, which are written as siblings of those
      before them. */
  lemma {:induction false} TextOfKid(f: Forest, vals: map<Node, NodeValue>, p: Node, i: nat, indent: bool)
    requires WellFormed(f) && p in f.kids && f.kids.Keys <= vals.Keys && i < |f.kids[p]| && f.kids[p][i] in f.kids
    requires forall k :: 0 <= k < |f.kids[p]| ==> f.kids[p][k] in f.kids
    ensures var ts := seq(|f.kids[p]|, k requires 0 <= k < |f.kids[p]| => TreeOf(f, vals, f.kids[p][k]));
            var w := WriteNodes(ts[i..], PathTo(f, vals, f.kids[p][i]), ts[..i], if indent then Indent else Silent, 0x7F00_0000, 0);
            TextOf(f, vals, f.kids[p][i], indent) == w.text + (if w.col > 0 then "\n" else [])
  {
    hide WriteNodes, WellFormed, TreeOf, PathTo, Distinct;
    KidsInOrder(f, vals, p, i);
    var ts := seq(|f.kids[p]|, k requires 0 <= k < |f.kids[p]| => TreeOf(f, vals, f.kids[p][k]));
    assert [ts[i]] + ts[i + 1..] == ts[i..];
  }

  lemma {:induction false} KidsInOrder(f: Forest, vals: map<Node, NodeValue>, p: Node, i: nat)
    requires WellFormed(f) && p in f.kids && f.kids.Keys <= vals.Keys && i < |f.kids[p]| && f.kids[p][i] in f.kids
    requires forall k :: 0 <= k < |f.kids[p]| ==> f.kids[p][k] in f.kids
    ensures var ts := seq(|f.kids[p]|, k requires 0 <= k < |f.kids[p]| => TreeOf(f, vals, f.kids[p][k]));
            Before(f, vals, f.kids[p][i]) == ts[..i] && After(f, vals, f.kids[p][i]) == ts[i + 1..]
  {
    hide TreeOf;
    forall k | 0 <= k < |f.kids[p]|
      ensures TreesFrom(f, vals, p, 0)[k] == TreeOf(f, vals, f.kids[p][k])
    {
      TreesAt(f, vals, p, 0, k);
    }
    assert KidOk(f, p, f.kids[p][i]);
    IndexUnique(f.kids[p], i);
  }

  /** The start of `text` that a buffer of `size` characters holds, and the NUL behind it */
  ghost predicate Holds(buffer: seq<char>, text: string) {
    buffer != [] &&
    var n := if |text| < |buffer| then |text| else |buffer| - 1;
    buffer[..n] == text[..n] && buffer[n] == '\0'
  }

  /** `mxmlSaveString`: the length of the whole text, however much of it fits into the buffer */
  method SaveString(node: Node, buffer: array<char>, indent: bool, ghost f: Forest, ghost vals: map<Node, NodeValue>) returns (bytes: int)
    requires Mirrors(f, vals) && node in f.kids && buffer.Length >= 1
    modifies buffer
    ensures bytes == |TextOf(f, vals, node, indent)| && Holds(buffer[..], TextOf(f, vals, node, indent))
  {
    hide *;
    MirrorFacts(f, vals, node);
    var sink := new StringSink(buffer);
    ghost var sib, from, h := ListOf(f, vals, node);
    TextIs(f, vals, node, indent, sib, from);
    var col := WriteList(sink, node, indent, WRAP, 0, f, vals, sib, from, h, PathTo(f, vals, node));
    if col > 0 {
      sink.Put('\n');
    }
    Filled(sink);
    if sink.count >= buffer.Length {
      buffer[buffer.Length - 1] := '\0';
    } else {
      buffer[sink.count] := '\0';
    }
    assert sink.written == TextOf(f, vals, node, indent);
    HoldsIt(buffer[..], sink.written);
    return sink.count;
  }

  /** The list of siblings that `x` is in, its place there, and a bound on their heights */
  lemma {:induction false} ListOf(f: Forest, vals: map<Node, NodeValue>, x: Node) returns (sib: seq<Node>, from: nat, h: nat)
    requires Mirrors(f, vals) && x in f.kids
    ensures Siblings(f, sib) && from < |sib| && sib[from] == x && WellFormed(f) && f.kids.Keys <= vals.Keys
    ensures Before(f, vals, x) == TreesOf(f, vals, sib)[..from] && After(f, vals, x) == TreesOf(f, vals, sib)[from + 1..]
    ensures forall k :: 0 <= k < |sib| ==> sib[k] in f.height && f.height[sib[k]] < h && PathTo(f, vals, sib[k]) == PathTo(f, vals, x)
  {
    hide *;
    MirrorFacts(f, vals, x);
    if x in f.up {
      from := Nodes.IndexIn(f, x);
      var p := f.up[x];
      sib, h := f.kids[p], f.height[p];
      KidsAreSiblings(f, vals, p);
      assert PathTo(f, vals, sib[from]) == PathTo(f, vals, p) + [AroundOf(f, vals, p)];
    } else {
      sib, from, h := [x], 0, f.height[x] + 1;
      RootIsSiblings(f, x);
    }
    SiblingAt(f, vals, sib, from);
    AllInForest(f, sib);
  }

  lemma {:induction false} RootIsSiblings(f: Forest, x: Node)
    requires WellFormed(f) && x in f.kids && x !in f.up
    ensures Siblings(f, [x])
  {
  }

  lemma {:induction false} AllInForest(f: Forest, sib: seq<Node>)
    requires WellFormed(f) && Siblings(f, sib)
    ensures forall k :: 0 <= k < |sib| ==> sib[k] in f.kids && sib[k] in f.height
  {
  }

  lemma {:induction false} TextIs(f: Forest, vals: map<Node, NodeValue>, x: Node, indent: bool, sib: seq<Node>, from: nat)
    requires WellFormed(f) && x in f.kids && f.kids.Keys <= vals.Keys && Siblings(f, sib) && from < |sib| && sib[from] == x
    requires Before(f, vals, x) == TreesOf(f, vals, sib)[..from] && After(f, vals, x) == TreesOf(f, vals, sib)[from + 1..]
    ensures var ts := TreesOf(f, vals, sib); var w := WriteNodes(ts[from..], PathTo(f, vals, x), ts[..from], CallbackOf(indent), WRAP, 0);
            TextOf(f, vals, x, indent) == w.text + (if w.col > 0 then "\n" else [])
  {
    hide WriteNodes, WellFormed, TreeOf, PathTo, Before, After;
    var ts := TreesOf(f, vals, sib);
    assert [ts[from]] + ts[from + 1..] == ts[from..];
  }

  lemma {:induction false} SaveIs(t: Tree, cb: WsCallback, wrap: int)
    ensures var w := WriteNodes([t], [], [], cb, wrap, 0); Save(t, cb, wrap) == w.text + (if w.col > 0 then "\n" else [])
  {
    hide WriteNode;
    assert [t][1..] == [];
    var w := WriteNode(t, [], [], [], cb, wrap, 0);
    assert WriteNodes([], [], [t], cb, wrap, w.col) == Written([], w.col);
    assert w.text + [] == w.text;
  }

  lemma {:induction false} Filled(sink: StringSink)
    requires sink.Valid()
    ensures sink.count == |sink.written|
    ensures forall i :: 0 <= i < sink.count && i < sink.buffer.Length ==> sink.buffer[i] == sink.written[i]
  {
  }

  lemma {:induction false} HoldsIt(buffer: seq<char>, text: string)
    requires buffer != []
    requires var n := if |text| < |buffer| then |text| else |buffer| - 1;
             buffer[n] == '\0' && forall i :: 0 <= i < n ==> buffer[i] == text[i]
    ensures Holds(buffer, text)
  {
  }

  /** A C string: what comes before the first NUL */
  function CString(s: string): string {
    if s == [] || s[0] == '\0' then [] else [s[0]] + CString(s[1..])
  }

  /** `mxmlSaveAllocString`: the complete text, or nothing when there is no text */
  method SaveAllocString(node: Node, indent: bool, ghost f: Forest, ghost vals: map<Node, NodeValue>) returns (r: Option<string>)
    requires Mirrors(f, vals) && node in f.kids
    ensures var text := TextOf(f, vals, node, indent); r == if text == [] then None else Some(CString(text))
  {
    hide *;
    MirrorFacts(f, vals, node);
    var buffer := new char[8192];
    var bytes := SaveString(node, buffer, indent, f, vals);
    ghost var text := TextOf(f, vals, node, indent);
    if bytes <= 0 {
      return None;
    }
    if bytes < 8191 {
      HeldString(buffer[..], text);
      return Some(CString(buffer[..]));
    }
    var s := new char[bytes + 1];
    bytes := SaveString(node, s, indent, f, vals);
    HeldString(s[..], text);
    return Some(CString(s[..]));
  }

  /** A buffer in which a text fits whole holds it as a C string. */
  lemma {:induction false} HeldString(buffer: seq<char>, text: string)
    requires Holds(buffer, text) && |text| < |buffer|
    ensures CString(buffer) == CString(text)
    decreases |text|
  {
    if text != [] {
      assert buffer[0] == text[0] by { assert buffer[..|text|][0] == text[0]; }
      assert buffer[1..][..|text| - 1] == buffer[..|text|][1..] == text[1..];
      HeldString(buffer[1..], text[1..]);
    }
  }

  lemma {:induction false} WholeString(s: string)
    requires '\0' !in s
    ensures CString(s) == s
  {
    if s != [] {
      WholeString(s[1..]);
    }
  }
}
