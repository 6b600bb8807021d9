/** How the nodes that the loader has built stand for the state of the parse: the chain of open
    elements, the finished trees below them, and the finished trees without parent. */
module Building {
  import opened Options
  import opened Trees
  import opened Forests
  import opened ForestOrder
  import opened ForestOps
  import opened Nodes
  import opened TreeValues
  import opened Reader

  /** How many children of `open[i]` are finished: all but the open one */
  ghost function Finished(f: Forest, open: seq<Node>, i: nat): int
    requires i < |open| && open[i] in f.kids
  {
    |f.kids[open[i]]| - (if i + 1 < |open| then 1 else 0)
  }

  /** `x` is finished: no open element is in its tree. */
  ghost predicate Closed(f: Forest, open: seq<Node>, x: Node) {
    WellFormed(f) && x in f.kids && forall j :: 0 <= j < |open| ==> open[j] !in Preorder(f, x)
  }

  /** The open elements form a chain from an element without parent down to `parent`, each one the
      last child of the one before. */
  ghost predicate Chain(f: Forest, open: seq<Node>) {
    && (forall i :: 0 <= i < |open| ==> open[i] in f.kids)
    && (open != [] ==> open[0] !in f.up)
    && (forall i :: 0 < i < |open| ==> open[i] in f.up && f.up[open[i]] == open[i - 1] && LastOf(f, open[i - 1]) == open[i])
  }

  ghost predicate FrameShape(f: Forest, vals: map<Node, NodeValue>, open: seq<Node>, i: nat, frame: Frame)
    requires WellFormed(f) && f.kids.Keys <= vals.Keys && i < |open| && open[i] in f.kids
  {
    && vals[open[i]] == ElementValue(frame.name, frame.attrs)
    && |frame.kids| == Finished(f, open, i)
    && forall k :: 0 <= k < |frame.kids| ==> TreeShape(f, vals, open, f.kids[open[i]][k], frame.kids[k])
  }

  ghost predicate TreeShape(f: Forest, vals: map<Node, NodeValue>, open: seq<Node>, x: Node, t: Tree)
    requires WellFormed(f) && f.kids.Keys <= vals.Keys
  {
    x in f.kids && Closed(f, open, x) && TreeOf(f, vals, x) == t
  }

  /** The whole relation; `roots` are the finished nodes without parent. */
  ghost predicate Shape(f: Forest, vals: map<Node, NodeValue>, open: seq<Node>, roots: seq<Node>, st: State) {
    && WellFormed(f) && f.kids.Keys <= vals.Keys && Chain(f, open)
    && |open| == |st.stack| && |roots| == |st.done|
    && (forall i :: 0 <= i < |open| ==> FrameShape(f, vals, open, i, st.stack[i]))
    && (forall i :: 0 <= i < |roots| ==> roots[i] !in f.up && TreeShape(f, vals, open, roots[i], st.done[i]))
  }

  const Nothing: Forest := Forest(map[], map[], map[])

  lemma {:induction false} ShapeOfNothing()
    ensures WellFormed(Nothing) && Linked(Nothing) && Shape(Nothing, map[], [], [], Start)
  {
  }

  ghost function Last(open: seq<Node>): Node? {
    if open == [] then null else open[|open| - 1]
  }

  // ----- a new node below the innermost open element -----

  lemma {:induction false} GrownIs(f: Forest, parent: Node?, n: Node)
    requires WellFormed(f) && n !in f.kids && (parent != null ==> parent in f.kids)
    ensures var g := Grown(f, parent, n);
            WellFormed(g) && g.kids.Keys == f.kids.Keys + {n} && n in g.kids && g.kids[n] == [] &&
            g.up == (if parent == null then f.up else f.up[n := parent]) && n !in f.up &&
            (forall x :: x in f.kids ==> g.kids[x] == if x == parent then f.kids[x] + [n] else f.kids[x])
  {
    hide Preorder;
    WithNewWellFormed(f, n);
    NewPreorder(f, n);
    var w := WithNew(f, n);
    if parent != null {
      DetachNothing(w, n);
      assert w.kids[parent] == f.kids[parent];
      NewIsLast(f, parent, n);
      AttachWellFormed(w, parent, |f.kids[parent]|, n);
    }
  }

  lemma {:induction false} NewIsLast(f: Forest, parent: Node, n: Node)
    requires WellFormed(f) && n !in f.kids && parent in f.kids
    ensures WellFormed(WithNew(f, n)) && Position(WithNew(f, n), parent, AddAfter, null) == |f.kids[parent]|
  {
    WithNewWellFormed(f, n);
  }

  /** What is finished stays as it is. */
  lemma {:induction false} ClosedStays(f: Forest, vals: map<Node, NodeValue>, open: seq<Node>, n: Node, v: NodeValue, x: Node)
    requires WellFormed(f) && f.kids.Keys <= vals.Keys && n !in f.kids
    requires forall i :: 0 <= i < |open| ==> open[i] in f.kids
    requires x in f.kids && Closed(f, open, x)
    ensures var g := Grown(f, Last(open), n);
            WellFormed(g) && x in g.kids && g.kids.Keys <= vals[n := v].Keys &&
            Closed(g, open + [n], x) && TreeOf(g, vals[n := v], x) == TreeOf(f, vals, x)
  {
    hide Preorder, TreeOf, WellFormed, Grown;
    var p := Last(open);
    GrownIs(f, p, n);
    var g := Grown(f, p, n);
    forall y | y in Preorder(f, x) && y in f.kids
      ensures y in g.kids && g.kids[y] == f.kids[y] && vals[n := v][y] == vals[y]
    {
      if y == p {
        assert false;
      }
    }
    PreorderFrame(f, g, x);
    TreeFrame(f, vals, g, vals[n := v], x);
    if n in Preorder(g, x) {
      BelowInForest(f, x, n);
    }
  }

  /** The tree of a node without children */
  function LeafOf(v: NodeValue): Tree {
    match v
    case ElementValue(name, attrs) => Element(name, attrs, [])
    case IntegerValue(k) => Integer(k)
    case OpaqueValue(s) => Opaque(s)
    case TextValue(ws, s) => Text(ws, s)
  }

  lemma {:induction false} NewIsClosed(f: Forest, vals: map<Node, NodeValue>, open: seq<Node>, n: Node, v: NodeValue)
    requires WellFormed(f) && f.kids.Keys <= vals.Keys && n !in f.kids
    requires forall i :: 0 <= i < |open| ==> open[i] in f.kids
    ensures var g := Grown(f, Last(open), n);
            WellFormed(g) && g.kids.Keys <= vals[n := v].Keys && TreeShape(g, vals[n := v], open, n, LeafOf(v))
  {
    hide WellFormed, Grown;
    GrownIs(f, Last(open), n);
    var g := Grown(f, Last(open), n);
    assert Preorder(g, n) == [n];
    assert TreesFrom(g, vals[n := v], n, 0) == [];
  }

  /** The open elements keep what they have; the innermost one gets the new node. */
  lemma {:induction false} FrameStays(f: Forest, vals: map<Node, NodeValue>, open: seq<Node>, n: Node, v: NodeValue, i: nat, frame: Frame)
    requires WellFormed(f) && f.kids.Keys <= vals.Keys && n !in f.kids && i < |open| && Chain(f, open)
    requires FrameShape(f, vals, open, i, frame)
    ensures var g := Grown(f, Last(open), n); var wals := vals[n := v];
            WellFormed(g) && g.kids.Keys <= wals.Keys && open[i] in g.kids &&
            FrameShape(g, wals, open + [n], i, frame) &&
            FrameShape(g, wals, open, i, if i + 1 < |open| then frame else frame.(kids := frame.kids + [LeafOf(v)]))
  {
    hide WellFormed, Grown, Closed, TreeOf;
    GrownIs(f, Last(open), n);
    NewIsClosed(f, vals, open, n, v);
    var g, wals := Grown(f, Last(open), n), vals[n := v];
    OpenDistinct(f, open, i);
    forall k | 0 <= k < |frame.kids|
      ensures TreeShape(g, wals, open + [n], g.kids[open[i]][k], frame.kids[k])
      ensures TreeShape(g, wals, open, g.kids[open[i]][k], frame.kids[k])
    {
      assert TreeShape(f, vals, open, f.kids[open[i]][k], frame.kids[k]);
      ClosedStays(f, vals, open, n, v, f.kids[open[i]][k]);
      ClosedPrefix(g, open, n, f.kids[open[i]][k]);
    }
  }

  lemma {:induction false} ClosedPrefix(g: Forest, open: seq<Node>, n: Node, x: Node)
    requires Closed(g, open + [n], x)
    ensures Closed(g, open, x)
  {
    hide Preorder, WellFormed;
    forall j | 0 <= j < |open|
      ensures open[j] !in Preorder(g, x)
    {
      assert (open + [n])[j] == open[j];
    }
  }

  /** Along the chain the heights fall, so no element is open twice. */
  lemma {:induction false} ChainFalls(f: Forest, open: seq<Node>, i: nat, j: nat)
    requires WellFormed(f) && Chain(f, open) && i < j < |open|
    ensures open[i] in f.kids && open[j] in f.kids && f.height[open[j]] < f.height[open[i]]
    decreases j - i
  {
    var p := open[j - 1];
    assert LastOf(f, p) == open[j];
    KidInForest(f, p, |f.kids[p]| - 1);
    if i + 1 < j {
      ChainFalls(f, open, i, j - 1);
    }
  }

  lemma {:induction false} OpenDistinct(f: Forest, open: seq<Node>, i: nat)
    requires WellFormed(f) && Chain(f, open) && i < |open|
    ensures i + 1 < |open| ==> open[i] != Last(open)
  {
    if i + 1 < |open| {
      ChainFalls(f, open, i, |open| - 1);
    }
  }

  lemma {:induction false} ChainStays(f: Forest, open: seq<Node>, n: Node)
    requires WellFormed(f) && Chain(f, open) && n !in f.kids
    ensures Chain(Grown(f, Last(open), n), open) && Chain(Grown(f, Last(open), n), open + [n])
  {
    hide *;
    LastInForest(f, open);
    var g := Grown(f, Last(open), n);
    if open == [] {
      NoChain(f, n);
      assert [] + [n] == [n];
    } else {
      forall i | 0 < i < |open|
        ensures Link(g, open, i)
      {
        LinkStays(f, open, n, i);
      }
      RootLinkStays(f, open, n);
      NewLink(f, open, n);
      MakeChain(g, open, n);
    }
  }

  lemma {:induction false} LastInForest(f: Forest, open: seq<Node>)
    requires Chain(f, open)
    ensures Last(open) != null ==> Last(open) in f.kids
  {
  }

  /** `open[i]` is the last child of the open element before it. */
  ghost predicate Link(g: Forest, open: seq<Node>, i: nat) {
    && 0 < i < |open| && open[i] in g.kids && open[i - 1] in g.kids && open[i] in g.up
    && g.up[open[i]] == open[i - 1] && LastOf(g, open[i - 1]) == open[i]
  }

  lemma {:induction false} NoChain(f: Forest, n: Node)
    requires WellFormed(f) && n !in f.kids
    ensures var g := Grown(f, Last([]), n); Chain(g, []) && Chain(g, [n])
  {
    hide WellFormed, Grown;
    GrownIs(f, Last([]), n);
  }

  lemma {:induction false} RootLinkStays(f: Forest, open: seq<Node>, n: Node)
    requires WellFormed(f) && Chain(f, open) && n !in f.kids && open != []
    ensures var g := Grown(f, Last(open), n); open[0] in g.kids && open[0] !in g.up
  {
    hide WellFormed, Grown;
    GrownIs(f, Last(open), n);
  }

  lemma {:induction false} NewLink(f: Forest, open: seq<Node>, n: Node)
    requires WellFormed(f) && Chain(f, open) && n !in f.kids && open != []
    ensures var g, p := Grown(f, Last(open), n), open[|open| - 1];
            n in g.kids && p in g.kids && n in g.up && g.up[n] == p && LastOf(g, p) == n
  {
    hide WellFormed, Grown;
    ChainInForest(f, open);
    GrownIs(f, Last(open), n);
  }

  lemma {:induction false} MakeChain(g: Forest, open: seq<Node>, n: Node)
    requires open != [] && open[0] in g.kids && open[0] !in g.up
    requires forall i :: 0 < i < |open| ==> Link(g, open, i)
    requires var p := open[|open| - 1]; n in g.kids && p in g.kids && n in g.up && g.up[n] == p && LastOf(g, p) == n
    ensures Chain(g, open) && Chain(g, open + [n])
  {
    hide LastOf;
    var all := open + [n];
    forall i | 0 < i < |all|
      ensures Link(g, all, i)
    {
      if i < |open| {
        assert Link(g, open, i);
      }
    }
    LinksChain(g, open);
    LinksChain(g, all);
  }

  lemma {:induction false} LinksChain(g: Forest, open: seq<Node>)
    requires open != [] && open[0] in g.kids && open[0] !in g.up
    requires forall i :: 0 < i < |open| ==> Link(g, open, i)
    ensures Chain(g, open)
  {
    hide LastOf;
    forall i | 0 <= i < |open|
      ensures open[i] in g.kids
    {
      assert i > 0 ==> Link(g, open, i);
    }
    forall i | 0 < i < |open|
      ensures open[i] in g.up && g.up[open[i]] == open[i - 1] && LastOf(g, open[i - 1]) == open[i]
    {
      assert Link(g, open, i);
    }
  }

  lemma {:induction false} LinkStays(f: Forest, open: seq<Node>, n: Node, i: nat)
    requires WellFormed(f) && Chain(f, open) && n !in f.kids && 0 < i < |open|
    ensures Link(Grown(f, Last(open), n), open, i)
  {
    hide WellFormed, Grown;
    ChainInForest(f, open);
    GrownIs(f, Last(open), n);
    OpenDistinct(f, open, i - 1);
  }

  lemma {:induction false} RootStays(f: Forest, vals: map<Node, NodeValue>, open: seq<Node>, n: Node, v: NodeValue, x: Node, t: Tree)
    requires WellFormed(f) && f.kids.Keys <= vals.Keys && n !in f.kids && Chain(f, open)
    requires x !in f.up && TreeShape(f, vals, open, x, t)
    ensures var g := Grown(f, Last(open), n); var wals := vals[n := v];
            WellFormed(g) && g.kids.Keys <= wals.Keys && x !in g.up &&
            TreeShape(g, wals, open, x, t) && TreeShape(g, wals, open + [n], x, t)
  {
    hide WellFormed, Grown, Closed, TreeOf;
    GrownIs(f, Last(open), n);
    ClosedStays(f, vals, open, n, v, x);
    ClosedPrefix(Grown(f, Last(open), n), open, n, x);
  }

  /** A finished node is added to the innermost open element, or to the finished ones. */
  lemma {:induction false} AddShape(f: Forest, vals: map<Node, NodeValue>, open: seq<Node>, roots: seq<Node>, st: State, n: Node, v: NodeValue)
    requires Shape(f, vals, open, roots, st) && n !in f.kids
    ensures Shape(Grown(f, Last(open), n), vals[n := v], open, if open == [] then roots + [n] else roots, AddNode(st, LeafOf(v)))
  {
    hide WellFormed, Grown, FrameShape, TreeShape, Chain;
    assert forall i :: 0 <= i < |open| ==> open[i] in f.kids by { ChainInForest(f, open); }
    var g, wals, st' := Grown(f, Last(open), n), vals[n := v], AddNode(st, LeafOf(v));
    GrownIs(f, Last(open), n);
    ChainStays(f, open, n);
    NewIsClosed(f, vals, open, n, v);
    forall i | 0 <= i < |open|
      ensures open[i] in g.kids && FrameShape(g, wals, open, i, st'.stack[i])
    {
      FrameStays(f, vals, open, n, v, i, st.stack[i]);
    }
    var roots' := if open == [] then roots + [n] else roots;
    forall i | 0 <= i < |roots'|
      ensures roots'[i] !in g.up && TreeShape(g, wals, open, roots'[i], st'.done[i])
    {
      if i < |roots| {
        RootStays(f, vals, open, n, v, roots[i], st.done[i]);
      }
    }
  }

  lemma {:induction false} ChainInForest(f: Forest, open: seq<Node>)
    requires Chain(f, open)
    ensures forall i :: 0 <= i < |open| ==> open[i] in f.kids
  {
  }

  /** A new element is added and becomes the innermost open one. */
  lemma {:induction false} PushShape(f: Forest, vals: map<Node, NodeValue>, open: seq<Node>, roots: seq<Node>, st: State, n: Node,
                                     name: string, attrs: seq<Attr>, cb: Callback)
    requires Shape(f, vals, open, roots, st) && n !in f.kids
    ensures Shape(Grown(f, Last(open), n), vals[n := ElementValue(name, attrs)], open + [n], roots, Push(st, name, attrs, cb))
  {
    hide WellFormed, Grown, FrameShape, TreeShape, Chain;
    assert forall i :: 0 <= i < |open| ==> open[i] in f.kids by { ChainInForest(f, open); }
    var v := ElementValue(name, attrs);
    var g, wals, st' := Grown(f, Last(open), n), vals[n := v], Push(st, name, attrs, cb);
    GrownIs(f, Last(open), n);
    ChainStays(f, open, n);
    assert FrameShape(g, wals, open + [n], |open|, Frame(name, attrs, [])) by { EmptyFrame(g, wals, open + [n], name, attrs); }
    forall i | 0 <= i < |open + [n]|
      ensures (open + [n])[i] in g.kids && FrameShape(g, wals, open + [n], i, st'.stack[i])
    {
      if i < |open| {
        FrameStays(f, vals, open, n, v, i, st.stack[i]);
      }
    }
    forall i | 0 <= i < |roots|
      ensures roots[i] !in g.up && TreeShape(g, wals, open + [n], roots[i], st'.done[i])
    {
      RootStays(f, vals, open, n, v, roots[i], st.done[i]);
    }
  }

  lemma {:induction false} EmptyFrame(g: Forest, wals: map<Node, NodeValue>, open: seq<Node>, name: string, attrs: seq<Attr>)
    requires WellFormed(g) && g.kids.Keys <= wals.Keys && open != []
    requires var n := open[|open| - 1]; n in g.kids && g.kids[n] == [] && wals[n] == ElementValue(name, attrs)
    ensures FrameShape(g, wals, open, |open| - 1, Frame(name, attrs, []))
  {
  }

  // ----- closing the innermost element -----

  /** The tree of an element all of whose children are finished */
  lemma {:induction false} CloseTree(f: Forest, vals: map<Node, NodeValue>, open: seq<Node>, frame: Frame)
    requires WellFormed(f) && f.kids.Keys <= vals.Keys && open != []
    requires open[|open| - 1] in f.kids && FrameShape(f, vals, open, |open| - 1, frame)
    ensures TreeOf(f, vals, open[|open| - 1]) == frame.Close()
  {
    hide WellFormed, Closed;
    var p := open[|open| - 1];
    forall k | 0 <= k < |frame.kids|
      ensures TreesFrom(f, vals, p, 0)[k] == frame.kids[k]
    {
      TreesAt(f, vals, p, 0, k);
      assert TreeShape(f, vals, open, f.kids[p][k], frame.kids[k]);
    }
  }

  /** The elements around it are not in its tree. */
  lemma {:induction false} InnermostIsClosed(f: Forest, open: seq<Node>)
    requires WellFormed(f) && Chain(f, open) && open != []
    ensures Closed(f, open[..|open| - 1], open[|open| - 1])
  {
    hide WellFormed, Preorder;
    var p := open[|open| - 1];
    forall j | 0 <= j < |open| - 1
      ensures open[j] !in Preorder(f, p)
    {
      ChainFalls(f, open, j, |open| - 1);
      if open[j] in Preorder(f, p) {
        BelowInForest(f, p, open[j]);
      }
    }
  }

  lemma {:induction false} TreeShapeUnder(f: Forest, vals: map<Node, NodeValue>, open: seq<Node>, x: Node, t: Tree)
    requires WellFormed(f) && f.kids.Keys <= vals.Keys && open != [] && TreeShape(f, vals, open, x, t)
    ensures TreeShape(f, vals, open[..|open| - 1], x, t)
  {
    hide WellFormed, TreeOf;
    assert open == open[..|open| - 1] + [open[|open| - 1]];
    ClosedPrefix(f, open[..|open| - 1], open[|open| - 1], x);
  }

  /** The element around gets the closed one as its last finished child; the others keep theirs. */
  lemma {:induction false} FrameUnder(f: Forest, vals: map<Node, NodeValue>, open: seq<Node>, st: State, i: nat)
    requires WellFormed(f) && f.kids.Keys <= vals.Keys && Chain(f, open) && |st.stack| == |open| && i + 1 < |open|
    requires forall j :: 0 <= j < |open| ==> open[j] in f.kids && FrameShape(f, vals, open, j, st.stack[j])
    ensures var open' := open[..|open| - 1]; var frame := st.stack[i];
            FrameShape(f, vals, open', i,
                       if i + 2 < |open| then frame else frame.(kids := frame.kids + [st.stack[i + 1].Close()]))
  {
    hide WellFormed, Closed, TreeOf;
    var open' := open[..|open| - 1];
    var frame := st.stack[i];
    var p := open[|open| - 1];
    assert FrameShape(f, vals, open, i, frame) && LastOf(f, open[i]) == open[i + 1];
    forall k | 0 <= k < |frame.kids|
      ensures TreeShape(f, vals, open', f.kids[open[i]][k], frame.kids[k])
    {
      assert TreeShape(f, vals, open, f.kids[open[i]][k], frame.kids[k]);
      TreeShapeUnder(f, vals, open, f.kids[open[i]][k], frame.kids[k]);
    }
    if i + 2 == |open| {
      assert FrameShape(f, vals, open, i + 1, st.stack[i + 1]);
      CloseTree(f, vals, open, st.stack[i + 1]);
      InnermostIsClosed(f, open);
      assert TreeShape(f, vals, open', p, st.stack[i + 1].Close());
    }
  }

  /** The innermost element becomes finished and the one around it becomes the innermost. */
  lemma {:induction false} PopShape(f: Forest, vals: map<Node, NodeValue>, open: seq<Node>, roots: seq<Node>, st: State, cb: Callback)
    requires Shape(f, vals, open, roots, st) && open != []
    ensures Shape(f, vals, open[..|open| - 1], if |open| == 1 then roots + [open[0]] else roots, Pop(st, cb))
  {
    hide WellFormed, FrameShape, TreeShape;
    var open', st' := open[..|open| - 1], Pop(st, cb);
    var roots' := if |open| == 1 then roots + [open[0]] else roots;
    var top := st.stack[|open| - 1];
    assert FrameShape(f, vals, open, |open| - 1, top);
    forall i | 0 <= i < |open'|
      ensures FrameShape(f, vals, open', i, st'.stack[i])
    {
      FrameUnder(f, vals, open, st, i);
    }
    forall i | 0 <= i < |roots'|
      ensures roots'[i] !in f.up && TreeShape(f, vals, open', roots'[i], st'.done[i])
    {
      if i < |roots| {
        TreeShapeUnder(f, vals, open, roots[i], st.done[i]);
      } else {
        CloseTree(f, vals, open, top);
        InnermostIsClosed(f, open);
        assert TreeShape(f, vals, open', open[0], top.Close()) by { ShapeOfTree(f, vals, open', open[0]); }
      }
    }
  }

  lemma {:induction false} ShapeOfTree(f: Forest, vals: map<Node, NodeValue>, open: seq<Node>, x: Node)
    requires WellFormed(f) && f.kids.Keys <= vals.Keys && x in f.kids && Closed(f, open, x)
    ensures TreeShape(f, vals, open, x, TreeOf(f, vals, x))
  {
  }
}
