/** mxml-search.c: walking the tree node by node is moving along its pre-order. */
module Search {
  import opened Options
  import opened Trees
  import opened Forests
  import opened ForestOrder
  import opened ForestOps
  import opened Nodes

  /** The node behind position `i`, or null at the end */
  ghost function At(order: seq<Node>, i: int): Node? {
    if 0 <= i < |order| then order[i] else null
  }

  /** `top` bounds a walk that is inside its subtree. Outside it the walk is bounded by the root
      `t` of the tree that it is in. */
  ghost predicate Bounds(f: Forest, t: Node, top: Node?, node: Node)
    requires WellFormed(f)
  {
    && t in f.kids && node in f.kids && node in Preorder(f, t)
    && (t == top || (t !in f.up && (top != null && top in f.kids ==> node !in Preorder(f, top))))
  }

  // ----- positions of neighbours -----

  lemma {:induction false} PositionOf(f: Forest, t: Node, x: Node)
    requires WellFormed(f) && t in f.kids && x in Preorder(f, t)
    ensures var j := Index(Preorder(f, t), x);
            x in f.kids && j + |Preorder(f, x)| <= |Preorder(f, t)| && (j == 0 <==> x == t)
    ensures x == t ==> |Preorder(f, x)| == |Preorder(f, t)|
  {
    hide Preorder;
    Span(f, t, Index(Preorder(f, t), x));
    PreorderDistinct(f, t);
    if x == t {
      IndexUnique(Preorder(f, t), 0);
    }
  }

  /** Where the parent and the next sibling of `x` stand in the pre-order of `t` */
  lemma {:induction false} StepUp(f: Forest, t: Node, x: Node)
    requires WellFormed(f) && t in f.kids && x in Preorder(f, t) && x != t
    ensures var order := Preorder(f, t);
            x in f.kids && x in f.up && f.up[x] in order && f.up[x] in f.kids &&
            Index(order, f.up[x]) < Index(order, x) &&
            (NextOf(f, x) == null ==>
               Index(order, x) + |Preorder(f, x)| == Index(order, f.up[x]) + |Preorder(f, f.up[x])|) &&
            (NextOf(f, x) != null ==> At(order, Index(order, x) + |Preorder(f, x)|) == NextOf(f, x))
  {
    hide *;
    var order := Preorder(f, t);
    PositionOf(f, t, x);
    var j := Index(order, x);
    var jp, k := ParentSpan(f, t, j);
    var p := f.up[x];
    PreorderDistinct(f, t);
    IndexUnique(order, jp);
    NeighboursAt(f, x, k);
    assert NextIn(f.kids[p], k) == (if k + 1 < |f.kids[p]| then f.kids[p][k + 1] else null) by { NextInIs(f.kids[p], k); }
    Span(f, t, jp);
    BehindChild(f, order, p, k, jp);
  }

  lemma {:induction false} NextInIs(s: seq<Node>, k: nat)
    requires k < |s|
    ensures NextIn(s, k) == if k + 1 < |s| then s[k + 1] else null
  {
  }

  /** What comes right behind the `k`-th child of `p`, when `order` holds the pre-order of `p` from
      `jp` on: the next child, or the end of that stretch */
  lemma {:induction false} BehindChild(f: Forest, order: seq<Node>, p: Node, k: nat, jp: nat)
    requires WellFormed(f) && p in f.kids && k < |f.kids[p]| && f.kids[p][k] in f.kids
    requires jp + |Preorder(f, p)| <= |order| && order[jp..jp + |Preorder(f, p)|] == Preorder(f, p)
    ensures var j := jp + Offset(f, p, k) + |Preorder(f, f.kids[p][k])|;
            if k + 1 < |f.kids[p]| then At(order, j) == f.kids[p][k + 1] else j == jp + |Preorder(f, p)|
  {
    hide WellFormed, Preorder, Offset;
    ChildSpan(f, p, k);
    if k + 1 < |f.kids[p]| {
      var b := f.kids[p][k + 1];
      ChildSpan(f, p, k + 1);
      assert Preorder(f, b)[0] == b;
      SliceOfSlice(Preorder(f, p), Preorder(f, b), Offset(f, p, k + 1), 0, 0);
      SliceOfSlice(order, Preorder(f, p), jp, Offset(f, p, k + 1), Offset(f, p, k + 1));
    } else {
      OffsetEnd(f, p);
    }
  }

  /** Where the first child and the previous sibling of `x` stand */
  lemma {:induction false} StepDown(f: Forest, t: Node, x: Node)
    requires WellFormed(f) && t in f.kids && x in Preorder(f, t) && x in f.kids
    ensures FirstOf(f, x) != null ==> At(Preorder(f, t), Index(Preorder(f, t), x) + 1) == FirstOf(f, x)
    ensures FirstOf(f, x) == null ==> |Preorder(f, x)| == 1
    ensures f.kids[x] == [] <==> FirstOf(f, x) == null
  {
    hide Preorder, Offset, Distinct, Index;
    var order := Preorder(f, t);
    var j := Index(order, x);
    Span(f, t, j);
    OffsetEnd(f, x);
    if f.kids[x] != [] {
      var c := f.kids[x][0];
      ChildSpan(f, x, 0);
      assert Preorder(f, c)[0] == c;
      SliceOfSlice(Preorder(f, x), Preorder(f, c), Offset(f, x, 0), 0, 0);
      SliceOfSlice(order, Preorder(f, x), j, 1, 1);
    }
  }

  // ----- mxmlWalkNext -----

  /** The position that a step from `node` leads to: the next one, or the one behind everything
      below `node` */
  ghost function NextPosition(f: Forest, t: Node, node: Node, descend: bool): nat
    requires WellFormed(f) && t in f.kids && node in f.kids && node in Preorder(f, t)
  {
    Index(Preorder(f, t), node) + (if descend then 1 else |Preorder(f, node)|)
  }

  /** A node in the bounded subtree that is `top` is the bound itself. */
  lemma {:induction false} AtTop(f: Forest, t: Node, top: Node?, node: Node, x: Node)
    requires WellFormed(f) && Bounds(f, t, top, node) && x in f.kids && node in Preorder(f, x) && x == top
    ensures x == t
  {
  }

  lemma {:induction false} ParentAbove(f: Forest, x: Node, y: Node)
    requires WellFormed(f) && x in f.up && x in f.kids && y in Preorder(f, x)
    ensures f.up[x] in f.kids && y in Preorder(f, f.up[x])
  {
    hide Preorder;
    var i := IndexIn(f, x);
    KidBelow(f, f.up[x], i);
    BelowTransitive(f, f.up[x], x, y);
  }

  lemma {:induction false} SelfBelow(f: Forest, x: Node)
    requires WellFormed(f) && x in f.kids
    ensures x in Preorder(f, x)
  {
    assert Preorder(f, x)[0] == x;
  }

  /** What is known about a node of the walk: its pointers, and where they lead in the pre-order */
  ghost predicate Surveyed(f: Forest, t: Node, x: Node)
    requires WellFormed(f) && t in f.kids && x in f.kids && x in Preorder(f, t)
    reads x
  {
    var order := Preorder(f, t);
    var j := Index(order, x);
    && (x == t ==> j == 0 && |Preorder(f, x)| == |order|)
    && (x == t && t !in f.up ==> x.parent == null && x.next == null)
    && (x != t ==> x.parent != null && x.parent in f.kids && x.parent in order && x in f.up && f.up[x] == x.parent &&
                   Index(order, x.parent) < j &&
                   if x.next == null then j + |Preorder(f, x)| == Index(order, x.parent) + |Preorder(f, x.parent)|
                   else At(order, j + |Preorder(f, x)|) == x.next)
  }

  lemma {:induction false} Survey(f: Forest, t: Node, x: Node)
    requires WellFormed(f) && Linked(f) && t in f.kids && x in f.kids && x in Preorder(f, t)
    ensures Surveyed(f, t, x)
  {
    hide WellFormed, Preorder, PrevOf, NextOf, FirstOf, LastOf, Index, Linked;
    LinkedAt(f, x);
    PositionOf(f, t, x);
    if x != t {
      StepUp(f, t, x);
    } else if t !in f.up {
      NoNeighbours(f, x);
    }
  }

  /** `mxmlWalkNext`; `t` is the node that bounds the walk. */
  method WalkNext(node: Node?, top: Node?, descend: bool, ghost f: Forest, ghost t: Node) returns (r: Node?)
    requires WellFormed(f) && Linked(f)
    requires node != null ==> Bounds(f, t, top, node)
    ensures node == null ==> r == null
    ensures node != null ==> r == At(Preorder(f, t), NextPosition(f, t, node, descend))
  {
    hide WellFormed, Preorder, FirstOf, Index, Linked, At;
    if node == null {
      return null;
    }
    LinkedAt(f, node);
    StepDown(f, t, node);
    SelfBelow(f, node);
    Survey(f, t, node);
    EndOfOrder(f, t);
    if node.child != null && descend {
      return node.child;
    }
    if node == top {
      AtTop(f, t, top, node, node);
      return null;
    }
    if node.next != null {
      assert node != t;
      return node.next;
    }
    if node != t {
      ParentAbove(f, node, node);
    }
    if node.parent != null && node.parent != top {
      assert node != t;
      var up := node.parent;
      Survey(f, t, up);
      while up.next == null
        invariant up in f.kids && up in Preorder(f, t) && up != top && node in Preorder(f, up)
        invariant Surveyed(f, t, up)
        invariant Index(Preorder(f, t), up) + |Preorder(f, up)| == NextPosition(f, t, node, descend)
        decreases Index(Preorder(f, t), up)
      {
        if up != t {
          ParentAbove(f, up, node);
        }
        if up.parent == top || up.parent == null {
          if up != t {
            AtTop(f, t, top, node, up.parent);
          }
          return null;
        } else {
          assert up != t;
          up := up.parent;
          Survey(f, t, up);
        }
      }
      assert up != t;
      return up.next;
    }
    if node != t {
      AtTop(f, t, top, node, node.parent);
    }
    return null;
  }

  lemma {:induction false} EndOfOrder(f: Forest, t: Node)
    requires WellFormed(f) && t in f.kids
    ensures t in Preorder(f, t) && Index(Preorder(f, t), t) == 0
    ensures At(Preorder(f, t), |Preorder(f, t)|) == null
  {
    SelfBelow(f, t);
    PositionOf(f, t, t);
  }

  // ----- mxmlWalkPrev -----

  /** What a step back from `node` should give */
  ghost function PrevStep(f: Forest, t: Node, top: Node?, node: Node, descend: bool): Node?
    requires WellFormed(f) && t in f.kids && node in f.kids && node in Preorder(f, t)
  {
    var order := Preorder(f, t);
    var j := Index(order, node);
    if descend then (if j == 0 || (t == top && j == 1) then null else order[j - 1])
    else if node == top then null
    else if PrevOf(f, node) != null then PrevOf(f, node)
    else if ParentOf(f, node) != top then ParentOf(f, node)
    else null
  }

  /** The previous sibling ends where the node starts. */
  lemma {:induction false} StepBack(f: Forest, t: Node, x: Node)
    requires WellFormed(f) && t in f.kids && x in Preorder(f, t) && x != t && x in f.kids
    ensures x in f.up
    ensures var order := Preorder(f, t); var a := PrevOf(f, x);
            if a == null then f.up[x] in order && Index(order, f.up[x]) + 1 == Index(order, x)
            else a in f.kids && a in order && Index(order, a) + |Preorder(f, a)| == Index(order, x)
  {
    hide Preorder, Index, Distinct, PrevIn, NextIn;
    var order := Preorder(f, t);
    StepUp(f, t, x);
    Neighbours(f, x);
    PreorderDistinct(f, t);
    var p := f.up[x];
    var a := PrevOf(f, x);
    if a == null {
      StepDown(f, t, p);
      IndexUnique(order, Index(order, p) + 1);
    } else {
      var i := IndexIn(f, a);
      KidBelow(f, p, i);
      BelowTransitive(f, t, p, a);
      NotTop(f, t, a);
      StepUp(f, t, a);
      IndexUnique(order, Index(order, a) + |Preorder(f, a)|);
    }
  }

  /** A child of a node below `t` is not `t`. */
  lemma {:induction false} NotTop(f: Forest, t: Node, x: Node)
    requires WellFormed(f) && t in f.kids && x in f.up && f.up[x] in Preorder(f, t)
    ensures x != t
  {
    hide Preorder;
    var i := IndexIn(f, x);
    KidBelow(f, f.up[x], i);
    BelowInForest(f, t, f.up[x]);
  }

  /** The last child ends where its parent ends. */
  lemma {:induction false} StepIn(f: Forest, t: Node, x: Node)
    requires WellFormed(f) && t in f.kids && x in Preorder(f, t) && x in f.kids && LastOf(f, x) != null
    ensures var order := Preorder(f, t); var c := LastOf(f, x);
            c in f.kids && c in order && Index(order, x) < Index(order, c) &&
            Index(order, c) + |Preorder(f, c)| == Index(order, x) + |Preorder(f, x)|
  {
    hide Preorder, Index, Distinct;
    var k := |f.kids[x]| - 1;
    var c := f.kids[x][k];
    KidBelow(f, x, k);
    BelowTransitive(f, t, x, c);
    assert KidOk(f, x, c);
    NotTop(f, t, c);
    NeighboursAt(f, c, k);
    StepUp(f, t, c);
  }

  lemma {:induction false} NoKids(f: Forest, x: Node)
    requires WellFormed(f) && x in f.kids && LastOf(f, x) == null
    ensures |Preorder(f, x)| == 1
  {
  }

  /** The node in a pre-order whose stretch is one long and ends before position `j` */
  lemma {:induction false} EndsBefore(f: Forest, t: Node, top: Node?, node: Node, x: Node)
    requires WellFormed(f) && t in f.kids && node in f.kids && node in Preorder(f, t) && x in Preorder(f, t)
    requires Index(Preorder(f, t), x) + 1 == Index(Preorder(f, t), node)
    requires t == top ==> x != t
    ensures PrevStep(f, t, top, node, true) == x
  {
    PositionOf(f, t, x);
  }

  /** `mxmlWalkPrev`; `t` is the node that bounds the walk. */
  method WalkPrev(node: Node?, top: Node?, descend: bool, ghost f: Forest, ghost t: Node) returns (r: Node?)
    requires WellFormed(f) && Linked(f)
    requires node != null ==> Bounds(f, t, top, node)
    ensures node == null ==> r == null
    ensures node != null ==> r == PrevStep(f, t, top, node, descend)
  {
    hide WellFormed, Preorder, FirstOf, LastOf, NextOf, PrevOf, Index, Linked;
    if node == null {
      return null;
    }
    LinkedAt(f, node);
    SelfBelow(f, node);
    EndOfOrder(f, t);
    if node == top {
      AtTop(f, t, top, node, node);
      return null;
    }
    if node != t {
      StepBack(f, t, node);
    } else {
      NoNeighbours(f, node);
    }
    if node.prev != null {
      assert node != t;
      ghost var a := node.prev;
      LinkedAt(f, a);
      NotTopPrev(f, t, node);
      if node.prev.lastChild != null && descend {
        StepIn(f, t, a);
        var last := node.prev.lastChild;
        LinkedAt(f, last);
        while last.lastChild != null
          invariant last in f.kids && last in Preorder(f, t) && LinksOf(f, last) && 0 < Index(Preorder(f, t), last)
          invariant Index(Preorder(f, t), last) + |Preorder(f, last)| == Index(Preorder(f, t), node)
          decreases Index(Preorder(f, t), node) - Index(Preorder(f, t), last)
        {
          StepIn(f, t, last);
          last := last.lastChild;
          LinkedAt(f, last);
          SelfBelow(f, last);
        }
        NoKids(f, last);
        EndsBefore(f, t, top, node, last);
        return last;
      } else {
        if descend {
          NoKids(f, a);
          EndsBefore(f, t, top, node, a);
        }
        return node.prev;
      }
    } else if node.parent != top {
      if node != t && descend {
        EndsBefore(f, t, top, node, node.parent);
      }
      return node.parent;
    } else {
      if node != t {
        ParentAbove(f, node, node);
        AtTop(f, t, top, node, node.parent);
      }
      return null;
    }
  }

  lemma {:induction false} NotTopPrev(f: Forest, t: Node, x: Node)
    requires WellFormed(f) && t in f.kids && x in f.kids && x in Preorder(f, t) && x != t && PrevOf(f, x) != null
    ensures PrevOf(f, x) != t
  {
    hide Preorder, Index, PrevIn, NextIn, PrevOf, NextOf;
    StepUp(f, t, x);
    Neighbours(f, x);
    NotTop(f, t, PrevOf(f, x));
  }

  // ----- whole walks -----

  /** `k` steps of `mxmlWalkNext` from `x`, descending, within the subtree of `top` */
  ghost function Walk(f: Forest, top: Node, x: Node?, k: nat): Node?
    requires WellFormed(f) && top in f.kids && (x != null ==> x in Preorder(f, top))
    decreases k
  {
    if k == 0 || x == null then x
    else
      BelowInForest(f, top, x);
      Walk(f, top, At(Preorder(f, top), NextPosition(f, top, x, true)), k - 1)
  }

  /** Walking on from `top` visits its whole subtree in pre-order, then stops for good. No node is
      visited twice. */
  lemma {:induction false} WalkVisitsAll(f: Forest, top: Node, i: nat, k: nat)
    requires WellFormed(f) && top in f.kids && i <= |Preorder(f, top)|
    ensures Walk(f, top, At(Preorder(f, top), i), k) == At(Preorder(f, top), i + k)
    ensures Distinct(Preorder(f, top)) && Preorder(f, top)[0] == top
    decreases k
  {
    hide Preorder;
    PreorderDistinct(f, top);
    SelfBelow(f, top);
    if k > 0 && i < |Preorder(f, top)| {
      var x := Preorder(f, top)[i];
      IndexUnique(Preorder(f, top), i);
      BelowInForest(f, top, x);
      WalkVisitsAll(f, top, i + 1, k - 1);
    }
  }

  /** A step on and a step back undo each other: within the subtree of `top` on its proper descendants, and
      outside it on the whole tree. */
  lemma {:induction false} StepsAreInverse(f: Forest, t: Node, top: Node?, x: Node, y: Node)
    requires WellFormed(f) && t in f.kids && x in f.kids && y in f.kids
    requires x in Preorder(f, t) && y in Preorder(f, t) && y != t && (t == top ==> x != t)
    ensures At(Preorder(f, t), NextPosition(f, t, x, true)) == y <==> PrevStep(f, t, top, y, true) == x
  {
    hide Preorder;
    var order := Preorder(f, t);
    PreorderDistinct(f, t);
    PositionOf(f, t, x);
    PositionOf(f, t, y);
    if Index(order, x) + 1 < |order| {
      IndexUnique(order, Index(order, x) + 1);
    }
    IndexUnique(order, Index(order, y) - 1);
  }

  /** Only the node that bounds the walk has no predecessor, and in a walk below `top` its first child. */
  lemma {:induction false} OnlyFirstHasNoPrev(f: Forest, t: Node, top: Node?, x: Node)
    requires WellFormed(f) && t in f.kids && x in f.kids && x in Preorder(f, t)
    ensures PrevStep(f, t, top, x, true) == null <==> x == t || (t == top && f.kids[t] != [] && x == f.kids[t][0])
  {
    hide Preorder;
    PreorderDistinct(f, t);
    PositionOf(f, t, x);
    SelfBelow(f, t);
    PositionOf(f, t, t);
    StepDown(f, t, t);
    var order := Preorder(f, t);
    if |order| > 1 {
      IndexUnique(order, 1);
    }
  }

  // ----- steps that do not descend -----

  /** Without descending, a step back from the `k`-th child of its parent leads to the child before it,
      from which a step on without descending leads back; a first child leads to its parent, which stands
      right before it in the pre-order, unless that is `top`. */
  lemma {:induction false} PrevSibling(f: Forest, t: Node, top: Node?, x: Node, k: nat)
    requires WellFormed(f) && Bounds(f, t, top, x) && x != top && x != t
    requires x in f.up && k < |f.kids[f.up[x]]| && f.kids[f.up[x]][k] == x
    ensures var r := PrevStep(f, t, top, x, false);
            if k > 0 then
              r == f.kids[f.up[x]][k - 1] && r in f.kids && r in Preorder(f, t) &&
              At(Preorder(f, t), NextPosition(f, t, r, false)) == x
            else if f.up[x] == top then r == null
            else r == f.up[x] && r == At(Preorder(f, t), Index(Preorder(f, t), x) - 1)
  {
    hide Preorder, Index, PrevOf, NextOf, Distinct;
    NeighboursAt(f, x, k);
    StepBack(f, t, x);
  }

  /** A step back without descending has no answer exactly for the node that bounds the walk, for `top`
      itself and for the first child of `top`. */
  lemma {:induction false} NoPrevWithoutDescending(f: Forest, t: Node, top: Node?, x: Node)
    requires WellFormed(f) && Bounds(f, t, top, x)
    ensures PrevStep(f, t, top, x, false) == null <==>
              x == t || x == top || (top != null && top in f.kids && f.kids[top] != [] && x == f.kids[top][0])
  {
    hide Preorder, Index, PrevStep, Distinct;
    if x == top {
      AtTop(f, t, top, x, x);
      NoPrevOf(f, t, top, x);
    } else if x == t {
      NoNeighbours(f, x);
      NoPrevOf(f, t, top, x);
    } else {
      StepBack(f, t, x);
      var k := IndexIn(f, x);
      PrevSibling(f, t, top, x, k);
      if top != null && top in f.kids && f.kids[top] != [] && x == f.kids[top][0] {
        assert KidOk(f, top, f.kids[top][0]);
        assert f.up[x] == top;
        FirstPlace(f.kids[top], k);
      }
    }
  }

  lemma {:induction false} FirstPlace(s: seq<Node>, k: nat)
    requires k < |s| && s[k] == s[0] && Index(s, s[0]) == k
    ensures k == 0
  {
  }

  lemma {:induction false} NoPrevOf(f: Forest, t: Node, top: Node?, x: Node)
    requires WellFormed(f) && Bounds(f, t, top, x) && (x == top || (x == t && PrevOf(f, x) == null && ParentOf(f, x) == null))
    ensures PrevStep(f, t, top, x, false) == null
  {
    hide Preorder, Index;
  }

  /** Without descending, a step on from `x` leads to its next sibling, or to the next sibling of the
      nearest node above it, below `top`, that has one. */
  lemma {:induction false} NextWithoutDescending(f: Forest, t: Node, x: Node, k: nat)
    requires WellFormed(f) && t in f.kids && x in f.kids && x in Preorder(f, t) && x != t
    requires x in f.up && k < |f.kids[f.up[x]]| && f.kids[f.up[x]][k] == x
    ensures var p := f.up[x]; var r := At(Preorder(f, t), NextPosition(f, t, x, false));
            p in f.kids && p in Preorder(f, t) &&
            if k + 1 < |f.kids[p]| then r == f.kids[p][k + 1] else r == At(Preorder(f, t), NextPosition(f, t, p, false))
  {
    hide Preorder, Index, PrevOf, NextOf, Distinct;
    NeighboursAt(f, x, k);
    StepUp(f, t, x);
  }
}
