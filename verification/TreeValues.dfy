/** The tree value that a node of a forest stands for. */
module TreeValues {
  import opened Trees
  import opened Forests
  import opened ForestOrder

  /** The tree below `n`, with the node values `vals` */
  ghost function TreeOf(f: Forest, vals: map<Node, NodeValue>, n: Node): Tree
    requires WellFormed(f) && n in f.kids && f.kids.Keys <= vals.Keys
    decreases f.height[n], |f.kids[n]| + 1
  {
    match vals[n]
    case ElementValue(name, attrs) => Element(name, attrs, TreesFrom(f, vals, n, 0))
    case IntegerValue(v) => Integer(v)
    case OpaqueValue(s) => Opaque(s)
    case TextValue(ws, s) => Text(ws, s)
  }

  /** The trees of the children of `n` from the `i`-th on */
  ghost function TreesFrom(f: Forest, vals: map<Node, NodeValue>, n: Node, i: nat): (ts: seq<Tree>)
    requires WellFormed(f) && n in f.kids && f.kids.Keys <= vals.Keys && i <= |f.kids[n]|
    ensures |ts| == |f.kids[n]| - i
    decreases f.height[n], |f.kids[n]| - i
  {
    if i == |f.kids[n]| then []
    else
      assert KidOk(f, n, f.kids[n][i]);
      [TreeOf(f, vals, f.kids[n][i])] + TreesFrom(f, vals, n, i + 1)
  }

  lemma {:induction false} KidInForest(f: Forest, n: Node, k: nat)
    requires WellFormed(f) && n in f.kids && k < |f.kids[n]|
    ensures f.kids[n][k] in f.kids && f.kids[n][k] in f.up && f.up[f.kids[n][k]] == n
    ensures f.height[f.kids[n][k]] < f.height[n] && f.kids[n][k] in f.kids[n]
  {
    assert KidOk(f, n, f.kids[n][k]);
  }

  lemma {:induction false} TreesAt(f: Forest, vals: map<Node, NodeValue>, n: Node, i: nat, k: nat)
    requires WellFormed(f) && n in f.kids && f.kids.Keys <= vals.Keys && i <= k < |f.kids[n]|
    ensures f.kids[n][k] in f.kids && TreesFrom(f, vals, n, i)[k - i] == TreeOf(f, vals, f.kids[n][k])
    decreases k - i
  {
    hide WellFormed, TreeOf;
    KidInForest(f, n, i);
    KidInForest(f, n, k);
    if i < k {
      TreesAt(f, vals, n, i + 1, k);
    }
  }

  /** A tree depends only on the nodes in its pre-order. */
  lemma {:induction false} TreeFrame(f: Forest, vals: map<Node, NodeValue>, g: Forest, wals: map<Node, NodeValue>, n: Node)
    requires WellFormed(f) && WellFormed(g) && n in f.kids && n in g.kids
    requires f.kids.Keys <= vals.Keys && g.kids.Keys <= wals.Keys
    requires forall x :: x in Preorder(f, n) && x in f.kids ==> x in g.kids && g.kids[x] == f.kids[x] && wals[x] == vals[x]
    ensures TreeOf(g, wals, n) == TreeOf(f, vals, n)
    decreases f.height[n], |f.kids[n]| + 1
  {
    assert n in Preorder(f, n);
    TreesFrame(f, vals, g, wals, n, 0);
  }

  lemma {:induction false} TreesFrame(f: Forest, vals: map<Node, NodeValue>, g: Forest, wals: map<Node, NodeValue>, n: Node, i: nat)
    requires WellFormed(f) && WellFormed(g) && n in f.kids && n in g.kids && i <= |f.kids[n]|
    requires f.kids.Keys <= vals.Keys && g.kids.Keys <= wals.Keys && g.kids[n] == f.kids[n]
    requires forall x :: x in Preorder(f, n) && x in f.kids ==> x in g.kids && g.kids[x] == f.kids[x] && wals[x] == vals[x]
    ensures TreesFrom(g, wals, n, i) == TreesFrom(f, vals, n, i)
    decreases f.height[n], |f.kids[n]| - i
  {
    hide Preorder, TreeOf;
    if i < |f.kids[n]| {
      var c := f.kids[n][i];
      KidBelow(f, n, i);
      forall x | x in Preorder(f, c) && x in f.kids
        ensures x in g.kids && g.kids[x] == f.kids[x] && wals[x] == vals[x]
      {
        BelowTransitive(f, n, c, x);
      }
      TreeFrame(f, vals, g, wals, c);
      TreesFrame(f, vals, g, wals, n, i + 1);
    }
  }
}
