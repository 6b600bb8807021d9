/** mxml-node.c: creating, adding, removing and deleting nodes in place. Every method takes the
    forest that the pointers form before the call, as a ghost, and returns the one they form
    after it. */
module Nodes {
  import opened Forests
  import opened ForestOrder
  import opened ForestOps

  // ----- which pointers a removal changes -----

  lemma {:induction false} IndexIn(f: Forest, x: Node) returns (i: nat)
    requires WellFormed(f) && x in f.up
    ensures f.up[x] in f.kids && i < |f.kids[f.up[x]]| && f.kids[f.up[x]][i] == x
    ensures i == Index(f.kids[f.up[x]], x)
    ensures x in f.kids && f.up[x] != x
    ensures PrevOf(f, x) == PrevIn(f.kids[f.up[x]], i) && NextOf(f, x) == NextIn(f.kids[f.up[x]], i)
  {
    var p := f.up[x];
    assert x in f.kids[p];
    i := Index(f.kids[p], x);
    assert KidOk(f, p, f.kids[p][i]);
  }

  /** The neighbours of a node are children of the same parent. */
  lemma {:induction false} Neighbours(f: Forest, x: Node)
    requires WellFormed(f) && x in f.up
    ensures var a := PrevOf(f, x);
            a != null ==> a in f.kids && a in f.up && f.up[a] == f.up[x] && a != x && NextOf(f, a) == x && a != f.up[x]
    ensures var b := NextOf(f, x);
            b != null ==> b in f.kids && b in f.up && f.up[b] == f.up[x] && b != x && PrevOf(f, b) == x && b != f.up[x]
    ensures PrevOf(f, x) == null || PrevOf(f, x) != NextOf(f, x)
    ensures PrevOf(f, x) == null <==> FirstOf(f, f.up[x]) == x
    ensures NextOf(f, x) == null <==> LastOf(f, f.up[x]) == x
  {
    var i := IndexIn(f, x);
    var p := f.up[x];
    var s := f.kids[p];
    if i > 0 {
      assert KidOk(f, p, s[i - 1]);
      IndexUnique(s, i - 1);
    }
    if i + 1 < |s| {
      assert KidOk(f, p, s[i + 1]);
      IndexUnique(s, i + 1);
    }
  }

  /** Neighbours in a list without its `k`-th element */
  lemma {:induction false} WithoutNeighbours(s: seq<Node>, k: nat, i: nat)
    requires Distinct(s) && k < |s| && i < |s| && i != k
    ensures var t := Without(s, k); var i' := if i < k then i else i - 1;
            i' < |t| && t[i'] == s[i] && Distinct(t) &&
            PrevIn(t, i') == (if s[i] == NextIn(s, k) then PrevIn(s, k) else PrevIn(s, i)) &&
            NextIn(t, i') == (if s[i] == PrevIn(s, k) then NextIn(s, k) else NextIn(s, i))
  {
    WithoutSeq(s, k);
  }

  /** The ends of a list without its `k`-th element */
  lemma {:induction false} WithoutEnds(f: Forest, g: Forest, p: Node, k: nat)
    requires p in f.kids && p in g.kids && k < |f.kids[p]| && g.kids[p] == Without(f.kids[p], k)
    ensures FirstOf(g, p) == (if PrevIn(f.kids[p], k) == null then NextIn(f.kids[p], k) else FirstOf(f, p))
    ensures LastOf(g, p) == (if NextIn(f.kids[p], k) == null then PrevIn(f.kids[p], k) else LastOf(f, p))
  {
  }

  /** Where two forests list the same siblings, a node has the same neighbours. */
  lemma {:induction false} SameNeighbours(f: Forest, g: Forest, x: Node)
    requires WellFormed(f) && WellFormed(g)
    requires x in f.up && x in g.up && f.up[x] == g.up[x] && f.kids[f.up[x]] == g.kids[f.up[x]]
    ensures PrevOf(g, x) == PrevOf(f, x) && NextOf(g, x) == NextOf(f, x)
  {
  }

  lemma {:induction false} NeighboursAt(f: Forest, x: Node, i: nat)
    requires WellFormed(f) && x in f.up && i < |f.kids[f.up[x]]| && f.kids[f.up[x]][i] == x
    ensures PrevOf(f, x) == PrevIn(f.kids[f.up[x]], i) && NextOf(f, x) == NextIn(f.kids[f.up[x]], i)
  {
    IndexUnique(f.kids[f.up[x]], i);
  }

  lemma {:induction false} DetachLinks(f: Forest, n: Node, x: Node)
    requires WellFormed(f) && n in f.up && x in f.kids && x != n
    ensures WellFormed(Detach(f, n))
    ensures var g, p, a, b := Detach(f, n), f.up[n], PrevOf(f, n), NextOf(f, n);
            x in g.kids && ParentOf(g, x) == ParentOf(f, x) &&
            PrevOf(g, x) == (if x == b then a else PrevOf(f, x)) &&
            NextOf(g, x) == (if x == a then b else NextOf(f, x)) &&
            FirstOf(g, x) == (if x == p && a == null then b else FirstOf(f, x)) &&
            LastOf(g, x) == (if x == p && b == null then a else LastOf(f, x))
  {
    hide Without, KidOk, Index, PrevIn, NextIn, FirstOf, LastOf;
    DetachWellFormed(f, n);
    var g, p := Detach(f, n), f.up[n];
    var k := IndexIn(f, n);
    WithoutEnds(f, g, p, k);
    if x != p {
      assert FirstOf(g, x) == FirstOf(f, x) && LastOf(g, x) == LastOf(f, x) by { SameEnds(f, g, x); }
    }
    Neighbours(f, n);
    if x in f.up {
      if f.up[x] == p {
        var i := IndexIn(f, x);
        WithoutNeighbours(f.kids[p], k, i);
        NeighboursAt(g, x, if i < k then i else i - 1);
      } else {
        SameNeighbours(f, g, x);
      }
    }
  }

  lemma {:induction false} SameEnds(f: Forest, g: Forest, x: Node)
    requires x in f.kids && x in g.kids && f.kids[x] == g.kids[x]
    ensures FirstOf(g, x) == FirstOf(f, x) && LastOf(g, x) == LastOf(f, x)
  {
  }

  lemma {:induction false} DetachedLinks(f: Forest, n: Node)
    requires WellFormed(f) && n in f.up
    ensures WellFormed(Detach(f, n))
    ensures var g := Detach(f, n);
            ParentOf(g, n) == null && PrevOf(g, n) == null && NextOf(g, n) == null &&
            n in g.kids && g.kids[n] == f.kids[n]
  {
    DetachWellFormed(f, n);
    var _ := IndexIn(f, n);
  }

  lemma {:induction false} DetachNothing(f: Forest, n: Node)
    requires WellFormed(f) && n in f.kids && n !in f.up
    ensures Detach(f, n) == f
  {
  }

  /** `mxmlRemove` */
  method Remove(node: Node?, ghost f: Forest) returns (ghost g: Forest)
    requires WellFormed(f) && Linked(f) && (node != null ==> node in f.kids)
    modifies f.kids.Keys`parent, f.kids.Keys`prev, f.kids.Keys`next, f.kids.Keys`child, f.kids.Keys`lastChild
    ensures g == if node == null then f else Detach(f, node)
    ensures WellFormed(g) && Linked(g) && g.kids.Keys == f.kids.Keys
  {
    hide *;
    if node == null || node.parent == null {
      if node != null {
        NothingAbove(f, node);
      }
      return f;
    }
    SomethingAbove(f, node);
    g := Unlink(node, f);
  }

  lemma {:induction false} NothingAbove(f: Forest, n: Node)
    requires WellFormed(f) && Linked(f) && n in f.kids && n.parent == null
    ensures n !in f.up && Detach(f, n) == f
  {
    assert LinksOf(f, n);
    DetachNothing(f, n);
  }

  lemma {:induction false} SomethingAbove(f: Forest, n: Node)
    requires WellFormed(f) && Linked(f) && n in f.kids && n.parent != null
    ensures n in f.up
  {
    assert LinksOf(f, n);
  }

  /** The pointer updates of `mxmlRemove`, for a node that has a parent */
  method Unlink(node: Node, ghost f: Forest) returns (ghost g: Forest)
    requires WellFormed(f) && Linked(f) && node in f.kids && node in f.up
    modifies f.kids.Keys`parent, f.kids.Keys`prev, f.kids.Keys`next, f.kids.Keys`child, f.kids.Keys`lastChild
    ensures g == Detach(f, node)
    ensures WellFormed(g) && Linked(g) && g.kids.Keys == f.kids.Keys
  {
    hide *;
    RemovalFacts(f, node);
    Bypass(node, f);
    node.parent := null;
    node.prev := null;
    node.next := null;
    g := Detach(f, node);
    forall x | x in f.kids
      ensures LinksOf(g, x)
    {
      Unlinked(f, node, x);
    }
    AllLinked(g);
  }

  /** The first part of these: the pointers around `node` lead past it. */
  method Bypass(node: Node, ghost f: Forest)
    requires WellFormed(f) && Linked(f) && node in f.kids && node in f.up
    modifies f.kids.Keys`prev, f.kids.Keys`next, f.kids.Keys`child, f.kids.Keys`lastChild
    ensures forall x :: x in f.kids ==> x.parent == ParentOf(f, x)
    ensures forall x :: x in f.kids ==> x.prev == if x == NextOf(f, node) then PrevOf(f, node) else PrevOf(f, x)
    ensures forall x :: x in f.kids ==> x.next == if x == PrevOf(f, node) then NextOf(f, node) else NextOf(f, x)
    ensures forall x :: x in f.kids ==> x.child == if x == f.up[node] && PrevOf(f, node) == null then NextOf(f, node) else FirstOf(f, x)
    ensures forall x :: x in f.kids ==> x.lastChild == if x == f.up[node] && NextOf(f, node) == null then PrevOf(f, node) else LastOf(f, x)
  {
    hide *;
    AllLinks(f);
    RemovalFacts(f, node);
    if node.prev != null {
      node.prev.next := node.next;
    } else {
      node.parent.child := node.next;
    }
    if node.next != null {
      node.next.prev := node.prev;
    } else {
      node.parent.lastChild := node.prev;
    }
  }

  /** The pointers, one by one */
  lemma {:induction false} AllLinks(f: Forest)
    requires WellFormed(f) && Linked(f)
    ensures forall x :: x in f.kids ==> x.parent == ParentOf(f, x)
    ensures forall x :: x in f.kids ==> x.prev == PrevOf(f, x)
    ensures forall x :: x in f.kids ==> x.next == NextOf(f, x)
    ensures forall x :: x in f.kids ==> x.child == FirstOf(f, x)
    ensures forall x :: x in f.kids ==> x.lastChild == LastOf(f, x)
  {
    hide WellFormed, ParentOf, PrevOf, NextOf, FirstOf, LastOf;
    forall x | x in f.kids
      ensures LinksOf(f, x)
    {
      LinkedAt(f, x);
    }
  }

  lemma {:induction false} AllLinked(f: Forest)
    requires WellFormed(f) && forall x :: x in f.kids ==> LinksOf(f, x)
    ensures Linked(f)
  {
    hide WellFormed, LinksOf;
  }

  /** The nodes that a removal touches */
  lemma {:induction false} RemovalFacts(f: Forest, n: Node)
    requires WellFormed(f) && n in f.up
    ensures f.up[n] in f.kids && f.up[n] != n && ParentOf(f, n) == f.up[n]
    ensures var a := PrevOf(f, n); a != null ==> a in f.kids && a != n && a != f.up[n]
    ensures var b := NextOf(f, n); b != null ==> b in f.kids && b != n && b != f.up[n]
    ensures PrevOf(f, n) == null || PrevOf(f, n) != NextOf(f, n)
    ensures WellFormed(Detach(f, n)) && Detach(f, n).kids.Keys == f.kids.Keys
  {
    hide WellFormed, PrevOf, NextOf, Detach;
    var _ := IndexIn(f, n);
    Neighbours(f, n);
    DetachWellFormed(f, n);
  }

  /** The pointers of `x`, if they were right before the pointer updates of `mxmlRemove`, are
      right for the new forest after them. */
  lemma {:induction false} Unlinked(f: Forest, node: Node, x: Node)
    requires WellFormed(f) && node in f.up && x in f.kids
    requires x.parent == if x == node then null else ParentOf(f, x)
    requires x.prev == if x == node then null else if x == NextOf(f, node) then PrevOf(f, node) else PrevOf(f, x)
    requires x.next == if x == node then null else if x == PrevOf(f, node) then NextOf(f, node) else NextOf(f, x)
    requires x.child == if x == f.up[node] && PrevOf(f, node) == null then NextOf(f, node) else FirstOf(f, x)
    requires x.lastChild == if x == f.up[node] && NextOf(f, node) == null then PrevOf(f, node) else LastOf(f, x)
    ensures node in f.kids && WellFormed(Detach(f, node)) && x in Detach(f, node).kids && LinksOf(Detach(f, node), x)
  {
    hide Detach, PrevOf, NextOf, FirstOf, LastOf;
    var _ := IndexIn(f, node);
    DetachWellFormed(f, node);
    if x == node {
      DetachedLinks(f, node);
      SameEnds(f, Detach(f, node), node);
    } else {
      DetachLinks(f, node, x);
    }
  }

  // ----- which pointers an insertion changes -----

  /** The neighbours of position `k` in a list: what a node inserted there comes to stand between */
  ghost function Left(s: seq<Node>, k: int): Node? {
    if 0 < k <= |s| then s[k - 1] else null
  }

  ghost function Right(s: seq<Node>, k: int): Node? {
    if 0 <= k < |s| then s[k] else null
  }

  lemma {:induction false} InsertedNeighbours(s: seq<Node>, k: nat, n: Node, i: nat)
    requires Distinct(s) && k <= |s| && n !in s && i < |s|
    ensures var t := Inserted(s, k, n); var i' := if i < k then i else i + 1;
            i' < |t| && t[i'] == s[i] && Distinct(t) &&
            PrevIn(t, i') == (if s[i] == Right(s, k) then n else PrevIn(s, i)) &&
            NextIn(t, i') == (if s[i] == Left(s, k) then n else NextIn(s, i))
  {
    InsertedSeq(s, k, n);
  }

  lemma {:induction false} InsertedAt(s: seq<Node>, k: nat, n: Node)
    requires Distinct(s) && k <= |s| && n !in s
    ensures var t := Inserted(s, k, n);
            k < |t| && t[k] == n && PrevIn(t, k) == Left(s, k) && NextIn(t, k) == Right(s, k)
  {
    InsertedSeq(s, k, n);
  }

  lemma {:induction false} InsertedEnds(f: Forest, g: Forest, p: Node, k: nat, n: Node)
    requires p in f.kids && p in g.kids && k <= |f.kids[p]| && g.kids[p] == Inserted(f.kids[p], k, n)
    ensures FirstOf(g, p) == (if Left(f.kids[p], k) == null then n else FirstOf(f, p))
    ensures LastOf(g, p) == (if Right(f.kids[p], k) == null then n else LastOf(f, p))
  {
  }

  lemma {:induction false} NotAKid(f: Forest, p: Node, n: Node)
    requires WellFormed(f) && p in f.kids && n !in f.up
    ensures n !in f.kids[p]
  {
    assert forall i :: 0 <= i < |f.kids[p]| ==> KidOk(f, p, f.kids[p][i]);
  }

  lemma {:induction false} SidesAreKids(f: Forest, p: Node, k: nat)
    requires WellFormed(f) && p in f.kids && k <= |f.kids[p]|
    ensures var a := Left(f.kids[p], k); a != null ==> a in f.kids && a in f.up && f.up[a] == p && a != p
    ensures var b := Right(f.kids[p], k); b != null ==> b in f.kids && b in f.up && f.up[b] == p && b != p
    ensures Left(f.kids[p], k) == null || Left(f.kids[p], k) != Right(f.kids[p], k)
    ensures Left(f.kids[p], k) == null ==> Right(f.kids[p], k) == FirstOf(f, p)
    ensures Right(f.kids[p], k) == null ==> Left(f.kids[p], k) == LastOf(f, p)
  {
    var s := f.kids[p];
    if k > 0 {
      assert KidOk(f, p, s[k - 1]);
    }
    if k < |s| {
      assert KidOk(f, p, s[k]);
    }
  }

  lemma {:induction false} AttachLinks(f: Forest, p: Node, k: nat, n: Node, x: Node)
    requires WellFormed(f) && p in f.kids && n in f.kids && k <= |f.kids[p]|
    requires n !in f.up && p !in Preorder(f, n) && x in f.kids && x != n
    ensures WellFormed(Attach(f, p, k, n))
    ensures var g, a, b := Attach(f, p, k, n), Left(f.kids[p], k), Right(f.kids[p], k);
            x in g.kids && ParentOf(g, x) == ParentOf(f, x) &&
            PrevOf(g, x) == (if x == b then n else PrevOf(f, x)) &&
            NextOf(g, x) == (if x == a then n else NextOf(f, x)) &&
            FirstOf(g, x) == (if x == p && a == null then n else FirstOf(f, x)) &&
            LastOf(g, x) == (if x == p && b == null then n else LastOf(f, x))
  {
    hide Inserted, KidOk, Index, PrevIn, NextIn, FirstOf, LastOf, Left, Right, Preorder, Raised;
    AttachWellFormed(f, p, k, n);
    var g := Attach(f, p, k, n);
    InsertedEnds(f, g, p, k, n);
    if x != p {
      SameEnds(f, g, x);
    }
    SidesAreKids(f, p, k);
    NotAKid(f, p, n);
    if x in f.up {
      if f.up[x] == p {
        var i := IndexIn(f, x);
        InsertedNeighbours(f.kids[p], k, n, i);
        NeighboursAt(g, x, if i < k then i else i + 1);
      } else {
        SameNeighbours(f, g, x);
      }
    }
  }

  lemma {:induction false} AttachedLinks(f: Forest, p: Node, k: nat, n: Node)
    requires WellFormed(f) && p in f.kids && n in f.kids && k <= |f.kids[p]|
    requires n !in f.up && p !in Preorder(f, n)
    ensures WellFormed(Attach(f, p, k, n))
    ensures var g := Attach(f, p, k, n);
            n in g.kids && n != p && ParentOf(g, n) == p && PrevOf(g, n) == Left(f.kids[p], k) &&
            NextOf(g, n) == Right(f.kids[p], k) && FirstOf(g, n) == FirstOf(f, n) && LastOf(g, n) == LastOf(f, n)
  {
    hide Inserted, KidOk, Index, PrevIn, NextIn, FirstOf, LastOf, Left, Right, Raised;
    AttachWellFormed(f, p, k, n);
    var g := Attach(f, p, k, n);
    NotAKid(f, p, n);
    assert n != p by { assert Preorder(f, n)[0] == n; }
    InsertedAt(f.kids[p], k, n);
    NeighboursAt(g, n, k);
    SameEnds(f, g, n);
  }

  /** `where` of `mxmlAdd` */
  datatype Where = AddBefore | AddAfter

  /** The position that `where` and `child` ask for among the children of `parent`. A `child` that
      is not one of them counts as none. */
  ghost function Position(f: Forest, parent: Node, where: Where, child: Node?): (k: nat)
    requires WellFormed(f) && parent in f.kids
    ensures k <= |f.kids[parent]|
  {
    var s := f.kids[parent];
    match where
    case AddBefore => if child == null || child !in s then 0 else Index(s, child)
    case AddAfter => if child == null || child !in s then |s| else Index(s, child) + 1
  }

  /** What `mxmlAdd` makes of the forest */
  ghost function Added(f: Forest, parent: Node, where: Where, child: Node?, node: Node): Forest
    requires WellFormed(f) && parent in f.kids && node in f.kids && parent !in Preorder(f, node)
  {
    DetachWellFormed(f, node);
    var g := Detach(f, node);
    Attach(g, parent, Position(g, parent, where, child), node)
  }

  lemma {:induction false} DetachPreorder(f: Forest, n: Node)
    requires WellFormed(f) && n in f.kids
    ensures WellFormed(Detach(f, n)) && n in Detach(f, n).kids
    ensures Preorder(Detach(f, n), n) == Preorder(f, n) && Postorder(Detach(f, n), n) == Postorder(f, n)
  {
    hide Preorder, Postorder;
    DetachWellFormed(f, n);
    if n in f.up {
      var i := IndexIn(f, n);
      KidBelow(f, f.up[n], i);
      forall x | x in Preorder(f, n) && x in f.kids
        ensures x in Detach(f, n).kids && Detach(f, n).kids[x] == f.kids[x]
      {
        BelowInForest(f, n, x);
      }
      PreorderFrame(f, Detach(f, n), n);
    }
  }

  lemma {:induction false} KidIff(f: Forest, p: Node, c: Node)
    requires WellFormed(f) && p in f.kids
    ensures c in f.kids[p] <==> c in f.up && f.up[c] == p
  {
    assert forall i :: 0 <= i < |f.kids[p]| ==> KidOk(f, p, f.kids[p][i]);
  }

  /** The pointers of `x`, if they were right before the pointer updates of `mxmlAdd`, are right
      for the new forest after them. */
  lemma {:induction false} LinkedIn(f: Forest, p: Node, k: nat, n: Node, x: Node)
    requires WellFormed(f) && p in f.kids && n in f.kids && k <= |f.kids[p]|
    requires n !in f.up && p !in Preorder(f, n) && x in f.kids
    requires x.parent == if x == n then p else ParentOf(f, x)
    requires x.prev == if x == n then Left(f.kids[p], k) else if x == Right(f.kids[p], k) then n else PrevOf(f, x)
    requires x.next == if x == n then Right(f.kids[p], k) else if x == Left(f.kids[p], k) then n else NextOf(f, x)
    requires x.child == if x == p && Left(f.kids[p], k) == null then n else FirstOf(f, x)
    requires x.lastChild == if x == p && Right(f.kids[p], k) == null then n else LastOf(f, x)
    ensures WellFormed(Attach(f, p, k, n)) && x in Attach(f, p, k, n).kids && LinksOf(Attach(f, p, k, n), x)
  {
    hide Attach, PrevOf, NextOf, FirstOf, LastOf, Left, Right, Preorder;
    AttachWellFormed(f, p, k, n);
    AttachedLinks(f, p, k, n);
    if x != n {
      AttachLinks(f, p, k, n, x);
    }
  }

  /** What the pointers say about the place that `where` and `child` ask for */
  lemma {:induction false} PlaceOf(f: Forest, parent: Node, where: Where, child: Node?)
    requires WellFormed(f) && parent in f.kids
    ensures var k := Position(f, parent, where, child); var a, b := Left(f.kids[parent], k), Right(f.kids[parent], k);
            if child == null || child !in f.up || f.up[child] != parent then
              if where == AddBefore then a == null && b == FirstOf(f, parent) else b == null && a == LastOf(f, parent)
            else if where == AddBefore then b == child && a == PrevOf(f, child)
            else a == child && b == NextOf(f, child)
    ensures child != null && child in f.up && f.up[child] == parent ==>
              (PrevOf(f, child) == null <==> FirstOf(f, parent) == child) &&
              (NextOf(f, child) == null <==> LastOf(f, parent) == child)
  {
    if child != null {
      KidIff(f, parent, child);
      if child in f.up && f.up[child] == parent {
        Neighbours(f, child);
      }
    }
  }

  lemma {:induction false} ParentIs(f: Forest, p: Node, x: Node?)
    requires WellFormed(f)
    ensures x != null ==> (ParentOf(f, x) == p <==> x in f.up && f.up[x] == p)
  {
  }

  lemma {:induction false} AttachKeys(f: Forest, p: Node, k: nat, n: Node)
    requires WellFormed(f) && p in f.kids && n in f.kids && k <= |f.kids[p]|
    requires n !in f.up && p !in Preorder(f, n)
    ensures WellFormed(Attach(f, p, k, n)) && Attach(f, p, k, n).kids.Keys == f.kids.Keys
  {
    hide Preorder, WellFormed;
    AttachWellFormed(f, p, k, n);
  }

  /** The `MXML_ADD_BEFORE` case of `mxmlAdd`, for a node without parent */
  method LinkBefore(parent: Node, child: Node?, node: Node, ghost f: Forest) returns (ghost g: Forest)
    requires WellFormed(f) && Linked(f) && parent in f.kids && node in f.kids && (child != null ==> child in f.kids)
    requires child != node && node !in f.up && parent !in Preorder(f, node)
    modifies f.kids.Keys`parent, f.kids.Keys`prev, f.kids.Keys`next, f.kids.Keys`child, f.kids.Keys`lastChild
    ensures g == Attach(f, parent, Position(f, parent, AddBefore, child), node)
    ensures WellFormed(g) && Linked(g) && g.kids.Keys == f.kids.Keys
  {
    hide *;
    ghost var k := Position(f, parent, AddBefore, child);
    ghost var a, b := Left(f.kids[parent], k), Right(f.kids[parent], k);
    AllLinks(f);
    PlaceOf(f, parent, AddBefore, child);
    ParentIs(f, parent, child);
    SidesAreKids(f, parent, k);
    AttachedLinks(f, parent, k, node);
    NoNeighbours(f, node);
    node.parent := parent;
    if child == null || child == parent.child || child.parent != parent {
      node.next := parent.child;
      if parent.child != null {
        parent.child.prev := node;
      } else {
        parent.lastChild := node;
      }
      parent.child := node;
    } else {
      node.next := child;
      node.prev := child.prev;
      if child.prev != null {
        child.prev.next := node;
      } else {
        // The C code would set `parent.child`; but a first child was dealt with above.
        assert false;
      }
      child.prev := node;
    }
    g := Attach(f, parent, k, node);
    AttachKeys(f, parent, k, node);
    forall x | x in f.kids
      ensures LinksOf(g, x)
    {
      assert x.parent == if x == node then parent else ParentOf(f, x);
      assert x.child == if x == parent && a == null then node else FirstOf(f, x);
      assert x.lastChild == if x == parent && b == null then node else LastOf(f, x);
      assert x.prev == if x == node then a else if x == b then node else PrevOf(f, x);
      assert x.next == if x == node then b else if x == a then node else NextOf(f, x);
      LinkedIn(f, parent, k, node, x);
    }
    AllLinked(g);
  }

  /** The `MXML_ADD_AFTER` case of `mxmlAdd`, for a node without parent */
  method LinkAfter(parent: Node, child: Node?, node: Node, ghost f: Forest) returns (ghost g: Forest)
    requires WellFormed(f) && Linked(f) && parent in f.kids && node in f.kids && (child != null ==> child in f.kids)
    requires child != node && node !in f.up && parent !in Preorder(f, node)
    modifies f.kids.Keys`parent, f.kids.Keys`prev, f.kids.Keys`next, f.kids.Keys`child, f.kids.Keys`lastChild
    ensures g == Attach(f, parent, Position(f, parent, AddAfter, child), node)
    ensures WellFormed(g) && Linked(g) && g.kids.Keys == f.kids.Keys
  {
    hide *;
    ghost var k := Position(f, parent, AddAfter, child);
    ghost var a, b := Left(f.kids[parent], k), Right(f.kids[parent], k);
    AllLinks(f);
    PlaceOf(f, parent, AddAfter, child);
    ParentIs(f, parent, child);
    SidesAreKids(f, parent, k);
    AttachedLinks(f, parent, k, node);
    NoNeighbours(f, node);
    node.parent := parent;
    if child == null || child == parent.lastChild || child.parent != parent {
      node.prev := parent.lastChild;
      if parent.lastChild != null {
        parent.lastChild.next := node;
      } else {
        parent.child := node;
      }
      parent.lastChild := node;
    } else {
      node.prev := child;
      node.next := child.next;
      if child.next != null {
        child.next.prev := node;
      } else {
        // The C code would set `parent.last_child`; but a last child was dealt with above.
        assert false;
      }
      child.next := node;
    }
    g := Attach(f, parent, k, node);
    AttachKeys(f, parent, k, node);
    forall x | x in f.kids
      ensures LinksOf(g, x)
    {
      assert x.parent == if x == node then parent else ParentOf(f, x);
      assert x.child == if x == parent && a == null then node else FirstOf(f, x);
      assert x.lastChild == if x == parent && b == null then node else LastOf(f, x);
      assert x.prev == if x == node then a else if x == b then node else PrevOf(f, x);
      assert x.next == if x == node then b else if x == a then node else NextOf(f, x);
      LinkedIn(f, parent, k, node, x);
    }
    AllLinked(g);
  }

  lemma {:induction false} NoNeighbours(f: Forest, n: Node)
    requires WellFormed(f) && n !in f.up
    ensures ParentOf(f, n) == null && PrevOf(f, n) == null && NextOf(f, n) == null
  {
  }

  /** `mxmlAdd`. The pointer manipulation supposes that `child` is not `node` itself and that
      `node` does not go below itself. */
  method Add(parent: Node?, where: Where, child: Node?, node: Node?, ghost f: Forest) returns (ghost g: Forest)
    requires WellFormed(f) && Linked(f)
    requires parent != null ==> parent in f.kids
    requires child != null ==> child in f.kids
    requires node != null ==> node in f.kids && child != node
    requires parent != null && node != null ==> parent !in Preorder(f, node)
    modifies f.kids.Keys`parent, f.kids.Keys`prev, f.kids.Keys`next, f.kids.Keys`child, f.kids.Keys`lastChild
    ensures g == if parent == null || node == null then f else Added(f, parent, where, child, node)
    ensures WellFormed(g) && Linked(g) && g.kids.Keys == f.kids.Keys
  {
    hide WellFormed, Detach, Attach, PrevOf, NextOf, FirstOf, LastOf, Position, Preorder, Linked;
    g := f;
    if parent == null || node == null {
      return;
    }
    DetachWellFormed(f, node);
    DetachPreorder(f, node);
    if node.parent != null {
      g := Remove(node, f);
    } else {
      assert g == Detach(f, node) by {
        LinkedAt(f, node);
        DetachNothing(f, node);
      }
    }
    match where {
      case AddBefore => g := LinkBefore(parent, child, node, g);
      case AddAfter => g := LinkAfter(parent, child, node, g);
    }
  }

  lemma {:induction false} LinkedAt(f: Forest, n: Node)
    requires WellFormed(f) && Linked(f) && n in f.kids
    ensures LinksOf(f, n)
  {
  }

  // ----- new nodes -----

  /** What `mxml_new` makes of the forest, `n` being the node it allocates */
  ghost function Grown(f: Forest, parent: Node?, n: Node): Forest
    requires WellFormed(f) && n !in f.kids && (parent != null ==> parent in f.kids)
  {
    WithNewWellFormed(f, n);
    NewPreorder(f, n);
    if parent == null then WithNew(f, n) else Added(WithNew(f, n), parent, AddAfter, null, n)
  }

  lemma {:induction false} NewPreorder(f: Forest, n: Node)
    requires WellFormed(f) && n !in f.kids
    ensures WellFormed(WithNew(f, n)) && Preorder(WithNew(f, n), n) == [n]
  {
    WithNewWellFormed(f, n);
  }

  lemma {:induction false} NewLinks(f: Forest, n: Node, x: Node)
    requires WellFormed(f) && n !in f.kids && x in f.kids
    ensures WellFormed(WithNew(f, n)) && x != n
    ensures var g := WithNew(f, n);
            ParentOf(g, x) == ParentOf(f, x) && PrevOf(g, x) == PrevOf(f, x) && NextOf(g, x) == NextOf(f, x) &&
            FirstOf(g, x) == FirstOf(f, x) && LastOf(g, x) == LastOf(f, x)
  {
    WithNewWellFormed(f, n);
    if x in f.up {
      SameNeighbours(f, WithNew(f, n), x);
    }
  }

  lemma {:induction false} NewNodeLinks(f: Forest, n: Node)
    requires WellFormed(f) && n !in f.kids
    ensures WellFormed(WithNew(f, n))
    ensures var g := WithNew(f, n);
            ParentOf(g, n) == null && PrevOf(g, n) == null && NextOf(g, n) == null &&
            FirstOf(g, n) == null && LastOf(g, n) == null
  {
    WithNewWellFormed(f, n);
  }

  /** `mxml_new`: the new node becomes the last child of `parent`, if there is one. */
  method New(parent: Node?, value: NodeValue, ghost f: Forest) returns (node: Node, ghost g: Forest)
    requires WellFormed(f) && Linked(f) && (parent != null ==> parent in f.kids)
    modifies f.kids.Keys`parent, f.kids.Keys`prev, f.kids.Keys`next, f.kids.Keys`child, f.kids.Keys`lastChild
    ensures fresh(node) && node !in f.kids && node.value == value
    ensures g == Grown(f, parent, node)
    ensures WellFormed(g) && Linked(g) && g.kids.Keys == f.kids.Keys + {node}
  {
    hide WellFormed, PrevOf, NextOf, FirstOf, LastOf, Preorder, ParentOf;
    node := new Node(value);
    assert node !in f.kids;
    WithNewWellFormed(f, node);
    NewPreorder(f, node);
    g := WithNew(f, node);
    NewNodeLinks(f, node);
    forall x | x in g.kids
      ensures LinksOf(g, x)
    {
      if x != node {
        assert old(LinksOf(f, x));
        NewLinks(f, node, x);
      }
    }
    if parent != null {
      g := Add(parent, AddAfter, null, node, g);
    }
  }
}
