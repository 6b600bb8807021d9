/** What adding, moving and removing mean for the lists of children: the node comes to the place that
    was asked for, everything else keeps its order, and removing undoes adding. */
module Moves {
  import opened Forests
  import opened ForestOrder
  import opened ForestOps
  import opened Nodes

  /** `s` without `x`, wherever it is */
  ghost function Less(s: seq<Node>, x: Node): seq<Node> {
    if x in s then Without(s, Index(s, x)) else s
  }

  lemma {:induction false} DetachedKids(f: Forest, n: Node, p: Node)
    requires WellFormed(f) && n in f.kids && p in f.kids
    ensures p in Detach(f, n).kids && Detach(f, n).kids[p] == Less(f.kids[p], n)
    ensures Detach(f, n).up == f.up - {n}
  {
    KidIff(f, p, n);
    if n !in f.up {
      assert f.up - {n} == f.up;
    }
  }

  /** Apart from the node itself, all lists keep what they hold in the order that they had, and all
      other nodes keep their parents. */
  lemma {:induction false} OthersStay(f: Forest, parent: Node, where: Where, child: Node?, node: Node, p: Node)
    requires WellFormed(f) && parent in f.kids && node in f.kids && parent !in Preorder(f, node) && p in f.kids
    ensures var g := Added(f, parent, where, child, node);
            WellFormed(g) && g.kids.Keys == f.kids.Keys && Less(g.kids[p], node) == Less(f.kids[p], node) &&
            (node in g.kids[p] <==> p == parent) && g.up == f.up[node := parent]
  {
    hide WellFormed, Detach, Preorder, Position, Less, Inserted, Without;
    DetachWellFormed(f, node);
    DetachPreorder(f, node);
    DetachedKids(f, node, p);
    var d := Detach(f, node);
    var k := Position(d, parent, where, child);
    AttachWellFormed(d, parent, k, node);
    LessIsDistinct(f, p, node);
    if p == parent {
      LessOfInserted(Less(f.kids[p], node), k, node);
    }
    LessAbsent(Less(f.kids[p], node), node);
    assert (f.up - {node})[node := parent] == f.up[node := parent];
  }

  lemma {:induction false} LessIsDistinct(f: Forest, p: Node, x: Node)
    requires WellFormed(f) && p in f.kids
    ensures Distinct(Less(f.kids[p], x)) && x !in Less(f.kids[p], x)
  {
    if x in f.kids[p] {
      WithoutSeq(f.kids[p], Index(f.kids[p], x));
    }
  }

  lemma {:induction false} LessAbsent(s: seq<Node>, x: Node)
    requires x !in s
    ensures Less(s, x) == s
  {
  }

  lemma {:induction false} LessOfInserted(s: seq<Node>, k: nat, x: Node)
    requires Distinct(s) && k <= |s| && x !in s
    ensures x in Inserted(s, k, x) && Less(Inserted(s, k, x), x) == s
  {
    hide Distinct, Index, Without, Inserted;
    InsertedSeq(s, k, x);
    WithoutInserted(s, k, x);
    IndexUnique(Inserted(s, k, x), k);
  }

  lemma {:induction false} WithoutInserted(s: seq<Node>, k: nat, x: Node)
    requires k <= |s|
    ensures k < |Inserted(s, k, x)| && Inserted(s, k, x)[k] == x && Without(Inserted(s, k, x), k) == s
  {
    var t := Inserted(s, k, x);
    assert t[..k] == s[..k] && t[k + 1..] == s[k..];
    assert s[..k] + s[k..] == s;
  }

  /** The node stands where it was asked to stand: next to `child` if that is a child of the parent,
      at the end of the list otherwise. */
  lemma {:induction false} AddedWhere(f: Forest, parent: Node, where: Where, child: Node?, node: Node)
    requires WellFormed(f) && parent in f.kids && node in f.kids && parent !in Preorder(f, node) && child != node
    ensures var g := Added(f, parent, where, child, node);
            WellFormed(g) && parent in g.kids && node in g.up && g.up[node] == parent &&
            if child != null && child in f.kids[parent] then
              (if where == AddBefore then NextOf(g, node) == child else PrevOf(g, node) == child)
            else
              (if where == AddBefore then FirstOf(g, parent) == node else LastOf(g, parent) == node)
  {
    hide WellFormed, Preorder, Without, Detach, Less, Distinct;
    DetachWellFormed(f, node);
    DetachPreorder(f, node);
    DetachedKids(f, node, parent);
    LessIsDistinct(f, parent, node);
    KidsDistinct(f, parent);
    LessHas(f.kids[parent], node, child);
    var d := Detach(f, node);
    var s := d.kids[parent];
    var k := Position(d, parent, where, child);
    AttachWellFormed(d, parent, k, node);
    InsertedSeq(s, k, node);
    assert Inserted(s, k, node)[k] == node;
    NeighboursAt(Added(f, parent, where, child, node), node, k);
  }

  lemma {:induction false} LessHas(s: seq<Node>, x: Node, y: Node?)
    requires Distinct(s) && y != x
    ensures y != null ==> (y in Less(s, x) <==> y in s)
  {
    if x in s {
      WithoutSeq(s, Index(s, x));
    }
  }

  /** Removing a node right after it was added restores every list and every parent. */
  lemma {:induction false} RemoveUndoesAdd(f: Forest, parent: Node, where: Where, child: Node?, node: Node)
    requires WellFormed(f) && parent in f.kids && node in f.kids && node !in f.up && parent !in Preorder(f, node)
    ensures var g := Added(f, parent, where, child, node);
            WellFormed(g) && node in g.kids && Detach(g, node).kids == f.kids && Detach(g, node).up == f.up
  {
    hide WellFormed, Detach, Preorder, Added, Less;
    var g := Added(f, parent, where, child, node);
    OthersStay(f, parent, where, child, node, parent);
    DetachWellFormed(g, node);
    forall p | p in f.kids
      ensures p in g.kids && p in Detach(g, node).kids && Detach(g, node).kids[p] == f.kids[p]
    {
      OthersStay(f, parent, where, child, node, p);
      DetachedKids(g, node, p);
      NotAKid(f, p, node);
      LessAbsent(f.kids[p], node);
    }
    DetachedKids(g, node, parent);
    assert f.up[node := parent] - {node} == f.up;
  }

  /** Adding a node again right before its old successor puts it back where it was. */
  lemma {:induction false} AddUndoesRemove(f: Forest, node: Node)
    requires WellFormed(f) && node in f.up && node in f.kids && NextOf(f, node) != null
    ensures var d, p := Detach(f, node), f.up[node];
            WellFormed(d) && p in d.kids && node in d.kids && p !in Preorder(d, node) &&
            var g := Added(d, p, AddBefore, NextOf(f, node), node);
            g.kids == f.kids && g.up == f.up
  {
    hide WellFormed, Preorder, Distinct, Without, Inserted, Index;
    var d, p := Detach(f, node), f.up[node];
    DetachWellFormed(f, node);
    DetachPreorder(f, node);
    var i := IndexIn(f, node);
    NotBelowItself(f, node);
    DetachNothing(d, node);
    KidsDistinct(f, p);
    PutBack(f.kids[p], i);
    assert (f.up - {node})[node := p] == f.up;
  }

  /** A removed last child comes back by adding it at the end. */
  lemma {:induction false} AddUndoesRemoveLast(f: Forest, node: Node)
    requires WellFormed(f) && node in f.up && node in f.kids && NextOf(f, node) == null
    ensures var d, p := Detach(f, node), f.up[node];
            WellFormed(d) && p in d.kids && node in d.kids && p !in Preorder(d, node) &&
            var g := Added(d, p, AddAfter, null, node);
            g.kids == f.kids && g.up == f.up
  {
    hide WellFormed, Preorder, Distinct, Without, Inserted, Index;
    var d, p := Detach(f, node), f.up[node];
    DetachWellFormed(f, node);
    DetachPreorder(f, node);
    var i := IndexIn(f, node);
    NotBelowItself(f, node);
    DetachNothing(d, node);
    KidsDistinct(f, p);
    PutLast(f.kids[p], i);
    assert (f.up - {node})[node := p] == f.up;
  }

  lemma {:induction false} PutLast(s: seq<Node>, i: nat)
    requires Distinct(s) && i + 1 == |s|
    ensures |Without(s, i)| == i && Inserted(Without(s, i), i, s[i]) == s
  {
    WithoutSeq(s, i);
  }

  lemma {:induction false} PutBack(s: seq<Node>, i: nat)
    requires Distinct(s) && i + 1 < |s|
    ensures |Without(s, i)| == |s| - 1 && s[i + 1] in Without(s, i) && Index(Without(s, i), s[i + 1]) == i
    ensures Inserted(Without(s, i), i, s[i]) == s
  {
    WithoutSeq(s, i);
    var t := Without(s, i);
    assert t[i] == s[i + 1];
    IndexUnique(t, i);
  }

  lemma {:induction false} NotBelowItself(f: Forest, node: Node)
    requires WellFormed(f) && node in f.up && node in f.kids
    ensures f.up[node] in f.kids && f.up[node] !in Preorder(f, node)
  {
    var i := IndexIn(f, node);
    assert KidOk(f, f.up[node], f.kids[f.up[node]][i]);
    if f.up[node] in Preorder(f, node) {
      BelowInForest(f, node, f.up[node]);
    }
  }
}
