/** mxmlDelete: a node and everything below it are freed, children first, each node once. */
module Deletion {
  import opened Forests
  import opened ForestOrder
  import opened ForestOps
  import opened Nodes

  /** What is left of the forest when `node` and everything below it are gone */
  ghost function Deleted(f: Forest, node: Node): Forest
    requires WellFormed(f) && node in f.kids
  {
    Drop(Detach(f, node), Preorder(f, node))
  }

  lemma {:induction false} DeletedWellFormed(f: Forest, node: Node)
    requires WellFormed(f) && node in f.kids
    ensures WellFormed(Deleted(f, node))
    ensures Deleted(f, node).kids.Keys <= f.kids.Keys && node !in Deleted(f, node).kids
  {
    hide Preorder, Detach;
    DetachWellFormed(f, node);
    DetachPreorder(f, node);
    DropWellFormed(Detach(f, node), node);
    assert Preorder(f, node)[0] == node;
  }

  // ----- half-way through the children -----

  /** What is below the first `i` children of `n`, those included */
  ghost function Gone(d: Forest, n: Node, i: nat): seq<Node>
    requires WellFormed(d) && n in d.kids && i <= |d.kids[n]|
  {
    Preorder(d, n)[1..Offset(d, n, i)]
  }

  /** The forest when the first `i` children of `n` have been deleted */
  ghost function Partial(d: Forest, n: Node, i: nat): Forest
    requires WellFormed(d) && n in d.kids && i <= |d.kids[n]|
  {
    Drop(Forest(d.kids[n := d.kids[n][i..]], d.up, d.height), Gone(d, n, i))
  }

  lemma {:induction false} PartialStart(d: Forest, n: Node)
    requires WellFormed(d) && n in d.kids
    ensures Partial(d, n, 0) == d
  {
    assert Gone(d, n, 0) == [];
    assert d.kids[n][0..] == d.kids[n];
  }

  lemma {:induction false} GoneStep(d: Forest, n: Node, i: nat)
    requires WellFormed(d) && n in d.kids && i < |d.kids[n]|
    ensures d.kids[n][i] in d.kids
    ensures Gone(d, n, i + 1) == Gone(d, n, i) + Preorder(d, d.kids[n][i])
  {
    hide Preorder, Offset;
    ChildSpan(d, n, i);
    var s := Preorder(d, n);
    var a, b := Offset(d, n, i), Offset(d, n, i + 1);
    assert s[1..a] + s[a..b] == s[1..b];
  }

  lemma {:induction false} NotGone(d: Forest, n: Node, i: nat)
    requires WellFormed(d) && n in d.kids && i <= |d.kids[n]|
    ensures n !in Gone(d, n, i)
    ensures i < |d.kids[n]| ==> d.kids[n][i] in d.kids && n !in Preorder(d, d.kids[n][i])
    ensures i < |d.kids[n]| ==> forall x :: x in Preorder(d, d.kids[n][i]) ==> x !in Gone(d, n, i)
  {
    hide Preorder, Offset;
    var s := Preorder(d, n);
    PreorderDistinct(d, n);
    assert s[0] == n;
    assert n !in s[1..];
    if i < |d.kids[n]| {
      ChildSpan(d, n, i);
      var a := Offset(d, n, i);
      var c := d.kids[n][i];
      forall x | x in Preorder(d, c)
        ensures x !in Gone(d, n, i) && x != n
      {
        var k :| 0 <= k < |Preorder(d, c)| && Preorder(d, c)[k] == x;
        SliceOfSlice(s, Preorder(d, c), a, k, k);
        assert s[a + k] == x;
      }
    }
  }

  /** In the half-deleted forest the next child looks as it did at the start. */
  lemma {:induction false} PartialChild(d: Forest, n: Node, i: nat)
    requires WellFormed(d) && n in d.kids && i < |d.kids[n]| && WellFormed(Partial(d, n, i))
    ensures var c, p := d.kids[n][i], Partial(d, n, i);
            c in d.kids && c in p.kids && Preorder(p, c) == Preorder(d, c) && Postorder(p, c) == Postorder(d, c) &&
            n in p.kids && p.kids[n] == d.kids[n][i..] && c in p.up && p.up[c] == n &&
            p.height[c] == d.height[c] < d.height[n]
  {
    hide Preorder, Postorder, Gone, Distinct;
    var c, p := d.kids[n][i], Partial(d, n, i);
    assert KidOk(d, n, c);
    NotGone(d, n, i);
    assert c in Preorder(d, c) by { assert Preorder(d, c)[0] == c; }
    forall x | x in Preorder(d, c) && x in d.kids
      ensures x in p.kids && p.kids[x] == d.kids[x]
    {
    }
    PreorderFrame(d, p, c);
  }

  lemma {:induction false} PartialStep(d: Forest, n: Node, i: nat)
    requires WellFormed(d) && n in d.kids && i < |d.kids[n]| && WellFormed(Partial(d, n, i))
    ensures d.kids[n][i] in Partial(d, n, i).kids
    ensures Deleted(Partial(d, n, i), d.kids[n][i]) == Partial(d, n, i + 1)
  {
    hide Preorder, Gone, Distinct, WellFormed;
    var c, p := d.kids[n][i], Partial(d, n, i);
    PartialChild(d, n, i);
    NotGone(d, n, i);
    GoneStep(d, n, i);
    var s := d.kids[n][i..];
    assert s[0] == c;
    assert Index(s, c) == 0;
    assert Without(s, 0) == d.kids[n][i + 1..];
    var g := Deleted(p, c);
    var q := Partial(d, n, i + 1);
    assert Preorder(p, c) == Preorder(d, c);
    assert g.kids.Keys == q.kids.Keys;
    assert g.kids == q.kids;
    assert g.up == q.up;
    assert g.height == q.height;
  }

  lemma {:induction false} PartialEnd(d: Forest, n: Node)
    requires WellFormed(d) && n in d.kids
    ensures var e := Partial(d, n, |d.kids[n]|);
            n in e.kids && e.kids[n] == [] && Drop(e, [n]) == Drop(d, Preorder(d, n))
  {
    hide Preorder, Offset;
    OffsetEnd(d, n);
    var s := Preorder(d, n);
    var k := |d.kids[n]|;
    NotGone(d, n, k);
    assert s == [n] + Gone(d, n, k);
    var e := Partial(d, n, k);
    assert Drop(e, [n]).kids == Drop(d, s).kids;
    assert Drop(e, [n]).up == Drop(d, s).up;
    assert Drop(e, [n]).height == Drop(d, s).height;
  }

  // ----- freeing one node -----

  /** A node without parent and children is nobody's neighbour. */
  lemma {:induction false} DropLinks(f: Forest, n: Node, x: Node)
    requires WellFormed(f) && n in f.kids && n !in f.up && f.kids[n] == [] && x in f.kids && x != n
    ensures var g := Drop(f, [n]);
            WellFormed(g) && x in g.kids &&
            ParentOf(g, x) == ParentOf(f, x) && PrevOf(g, x) == PrevOf(f, x) && NextOf(g, x) == NextOf(f, x) &&
            FirstOf(g, x) == FirstOf(f, x) && LastOf(g, x) == LastOf(f, x)
  {
    hide Distinct;
    assert Preorder(f, n) == [n];
    DropWellFormed(f, n);
    if x in f.up {
      assert x in f.kids[f.up[x]];
      assert f.up[x] != n;
      SameNeighbours(f, Drop(f, [n]), x);
    }
  }

  lemma {:induction false} DropKeepsLinks(f: Forest, n: Node)
    requires WellFormed(f) && Linked(f) && n in f.kids && n !in f.up && f.kids[n] == []
    ensures WellFormed(Drop(f, [n])) && Linked(Drop(f, [n]))
  {
    hide WellFormed, PrevOf, NextOf, FirstOf, LastOf, ParentOf;
    assert Preorder(f, n) == [n];
    DropWellFormed(f, n);
    forall x | x in Drop(f, [n]).kids
      ensures LinksOf(Drop(f, [n]), x)
    {
      assert LinksOf(f, x);
      DropLinks(f, n, x);
    }
  }

  // ----- mxmlDelete -----

  /** Deleting a node without children removes that node only. */
  lemma {:induction false} LeafDeleted(f: Forest, node: Node)
    requires WellFormed(f) && node in f.kids && f.kids[node] == []
    ensures Deleted(f, node).kids.Keys == f.kids.Keys - {node}
  {
    DetachWellFormed(f, node);
    assert Preorder(f, node) == [node];
  }

  /** `mxmlDelete`; `freed` lists the nodes in the order in which their memory is given back. */
  method Delete(node: Node?, ghost f: Forest) returns (freed: seq<Node>, ghost g: Forest)
    requires WellFormed(f) && Linked(f) && (node != null ==> node in f.kids)
    modifies f.kids.Keys`parent, f.kids.Keys`prev, f.kids.Keys`next, f.kids.Keys`child, f.kids.Keys`lastChild
    ensures g == if node == null then f else Deleted(f, node)
    ensures WellFormed(g) && Linked(g) && g.kids.Keys <= f.kids.Keys
    ensures freed == if node == null then [] else Postorder(f, node)
    decreases if node == null then 0 else f.height[node] + 1
  {
    hide WellFormed, Detach, Preorder, Postorder, PostBelow, Partial, Deleted, Linked, Drop;
    freed := [];
    if node == null {
      return freed, f;
    }
    DeletedWellFormed(f, node);
    DetachWellFormed(f, node);
    DetachPreorder(f, node);
    DetachKeepsHeights(f, node);
    ghost var h: nat := f.height[node];
    ghost var d := Remove(node, f);
    g := d;
    ghost var i := 0;
    PartialStart(d, node);
    while node.child != null
      invariant i <= |d.kids[node]| && g == Partial(d, node, i)
      invariant WellFormed(g) && Linked(g) && g.kids.Keys <= f.kids.Keys && node in g.kids
      invariant g.kids[node] == d.kids[node][i..]
      invariant freed + PostBelow(d, node, i) == PostBelow(d, node, 0)
      decreases |d.kids[node]| - i
    {
      LinkedAt(g, node);
      PartialChild(d, node, i);
      PartialStep(d, node, i);
      PostBelowStep(d, node, i);
      PartialHas(d, node, i + 1);
      assert node.child == d.kids[node][i];
      var more: seq<Node>;
      more, g := Delete(node.child, g);
      freed := freed + more;
      i := i + 1;
    }
    LinkedAt(g, node);
    assert i == |d.kids[node]|;
    PartialEnd(d, node);
    PostBelowEnd(d, node);
    PartialHasNoParent(d, node, i);
    DropKeepsLinks(g, node);
    DeletedIsDrop(f, node);
    g := Drop(g, [node]);
    freed := freed + [node];
  }

  lemma {:induction false} DetachKeepsHeights(f: Forest, n: Node)
    requires WellFormed(f) && n in f.kids
    ensures Detach(f, n).height == f.height && n !in Detach(f, n).up && n in f.height
    ensures n in Detach(f, n).kids && Detach(f, n).kids[n] == f.kids[n]
  {
    if n in f.up {
      var _ := IndexIn(f, n);
    }
  }

  lemma {:induction false} PostBelowStep(d: Forest, n: Node, i: nat)
    requires WellFormed(d) && n in d.kids && i < |d.kids[n]|
    ensures d.kids[n][i] in d.kids
    ensures PostBelow(d, n, i) == Postorder(d, d.kids[n][i]) + PostBelow(d, n, i + 1)
  {
    hide Postorder;
    assert KidOk(d, n, d.kids[n][i]);
  }

  lemma {:induction false} PostBelowEnd(d: Forest, n: Node)
    requires WellFormed(d) && n in d.kids
    ensures PostBelow(d, n, |d.kids[n]|) == [] && Postorder(d, n) == PostBelow(d, n, 0) + [n]
  {
  }

  lemma {:induction false} PartialHas(d: Forest, n: Node, i: nat)
    requires WellFormed(d) && n in d.kids && i <= |d.kids[n]|
    ensures n in Partial(d, n, i).kids && Partial(d, n, i).kids[n] == d.kids[n][i..]
  {
    hide Gone;
    NotGone(d, n, i);
  }

  lemma {:induction false} PartialHasNoParent(d: Forest, n: Node, i: nat)
    requires WellFormed(d) && n in d.kids && i <= |d.kids[n]| && n !in d.up
    ensures n !in Partial(d, n, i).up
  {
  }

  lemma {:induction false} DeletedIsDrop(f: Forest, n: Node)
    requires WellFormed(f) && n in f.kids
    ensures Deleted(f, n) == Drop(Detach(f, n), Preorder(f, n))
  {
  }

  /** Every node is either freed or left, none is both, and the nodes that are left keep their
      children, except that the parent of `node` loses it. */
  lemma {:induction false} DeleteConserves(f: Forest, node: Node)
    requires WellFormed(f) && node in f.kids
    ensures WellFormed(Deleted(f, node))
    ensures Distinct(Postorder(f, node))
    ensures forall x :: x in f.kids ==> (x in Postorder(f, node) <==> x !in Deleted(f, node).kids)
    ensures forall x :: x in Deleted(f, node).kids ==>
              Deleted(f, node).kids[x] == (if node in f.up && x == f.up[node] then Without(f.kids[x], Index(f.kids[x], node))
                                           else f.kids[x])
  {
    hide Preorder, Postorder;
    DeletedWellFormed(f, node);
    PostorderIsPermutation(f, node);
    DetachWellFormed(f, node);
    forall x | x in f.kids
      ensures x in Postorder(f, node) <==> x !in Deleted(f, node).kids
    {
    }
  }
}
