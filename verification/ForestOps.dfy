/** Removing a node from its parent, adding it to one, and dropping a whole subtree, on the pure
    description of the forest; and which node pointers that changes. */
module ForestOps {
  import opened Forests
  import opened ForestOrder

  // ----- operations -----

  /** `n` without its parent; everything below it stays */
  ghost function Detach(f: Forest, n: Node): Forest
    requires WellFormed(f) && n in f.kids
  {
    if n !in f.up then f
    else
      var p := f.up[n];
      Forest(f.kids[p := Without(f.kids[p], Index(f.kids[p], n))], f.up - {n}, f.height)
  }

  /** `n`, which has no parent, as the `k`-th child of `p` */
  ghost function Attach(f: Forest, p: Node, k: nat, n: Node): Forest
    requires WellFormed(f) && p in f.kids && n in f.kids && k <= |f.kids[p]|
  {
    Forest(f.kids[p := Inserted(f.kids[p], k, n)], f.up[n := p], Raised(f, p, n))
  }

  /** Heights that leave room for `n` below `p`: the ancestors of `p` are lifted. */
  ghost function Raised(f: Forest, p: Node, n: Node): map<Node, nat>
    requires WellFormed(f) && n in f.kids
  {
    map x | x in f.kids :: if p in Preorder(f, x) then f.height[x] + f.height[n] + 1 else f.height[x]
  }

  /** A new node without parent or children */
  ghost function WithNew(f: Forest, n: Node): Forest {
    Forest(f.kids[n := []], f.up, f.height[n := 0])
  }

  /** The forest without the nodes `gone` */
  ghost function Drop(f: Forest, gone: seq<Node>): Forest {
    var s := set x | x in gone;
    Forest(f.kids - s, f.up - s, f.height - s)
  }

  // ----- they keep the forest well-formed -----

  lemma {:induction false} WithoutSeq(s: seq<Node>, k: nat)
    requires Distinct(s) && k < |s|
    ensures |Without(s, k)| == |s| - 1
    ensures Distinct(Without(s, k)) && s[k] !in Without(s, k)
    ensures forall x :: x in Without(s, k) <==> x in s && x != s[k]
    ensures forall i :: 0 <= i < |Without(s, k)| ==> Without(s, k)[i] == if i < k then s[i] else s[i + 1]
  {
    var t := Without(s, k);
    forall x
      ensures x in t <==> x in s && x != s[k]
    {
      if x in s && x != s[k] {
        var i :| 0 <= i < |s| && s[i] == x;
        assert t[if i < k then i else i - 1] == x;
      }
    }
  }

  lemma {:induction false} InsertedSeq(s: seq<Node>, k: nat, n: Node)
    requires Distinct(s) && k <= |s| && n !in s
    ensures |Inserted(s, k, n)| == |s| + 1
    ensures Distinct(Inserted(s, k, n))
    ensures forall x :: x in Inserted(s, k, n) <==> x in s || x == n
    ensures forall i :: 0 <= i <= |s| ==> Inserted(s, k, n)[i] == if i < k then s[i] else if i == k then n else s[i - 1]
  {
    var t := Inserted(s, k, n);
    forall x
      ensures x in t <==> x in s || x == n
    {
      if x in s {
        var i :| 0 <= i < |s| && s[i] == x;
        assert t[if i < k then i else i + 1] == x;
      } else if x == n {
        assert t[k] == n;
      }
    }
  }

  lemma {:induction false} MakeWellFormed(f: Forest)
    requires f.height.Keys == f.kids.Keys && f.up.Keys <= f.kids.Keys
    requires forall p, i :: p in f.kids && 0 <= i < |f.kids[p]| ==> KidOk(f, p, f.kids[p][i])
    requires forall p :: p in f.kids ==> Distinct(f.kids[p])
    requires forall c :: c in f.up ==> f.up[c] in f.kids && c in f.kids[f.up[c]]
    ensures WellFormed(f)
  {
    hide Distinct, KidOk;
  }

  lemma {:induction false} ForestParts(f: Forest)
    requires WellFormed(f)
    ensures f.height.Keys == f.kids.Keys && f.up.Keys <= f.kids.Keys
  {
  }

  lemma {:induction false} KidAt(f: Forest, p: Node, i: nat)
    requires WellFormed(f) && p in f.kids && i < |f.kids[p]|
    ensures p in f.height && KidOk(f, p, f.kids[p][i]) && Distinct(f.kids[p])
  {
    hide KidOk, Distinct;
  }

  lemma {:induction false} UpAt(f: Forest, c: Node)
    requires WellFormed(f) && c in f.up
    ensures f.up[c] in f.kids && c in f.kids[f.up[c]] && Distinct(f.kids[f.up[c]])
  {
    hide KidOk, Distinct;
  }

  lemma {:induction false} KidsDistinct(f: Forest, p: Node)
    requires WellFormed(f) && p in f.kids
    ensures Distinct(f.kids[p])
  {
    hide KidOk, Distinct;
  }

  lemma {:induction false} DetachKid(f: Forest, n: Node, q: Node, i: nat)
    requires WellFormed(f) && n in f.up && n in f.kids && f.up[n] in f.kids && q in f.kids && i < |Detach(f, n).kids[q]|
    ensures q in Detach(f, n).height && KidOk(Detach(f, n), q, Detach(f, n).kids[q][i])
  {
    hide Distinct, WellFormed;
    ForestParts(f);
    UpAt(f, n);
    var p := f.up[n];
    var k := Index(f.kids[p], n);
    WithoutSeq(f.kids[p], k);
    KidAt(f, q, if q == p && i >= k then i + 1 else i);
  }

  lemma {:induction false} DetachParent(f: Forest, n: Node, c: Node)
    requires WellFormed(f) && n in f.up && n in f.kids && c in f.up && c != n
    ensures f.up[c] in Detach(f, n).kids && c in Detach(f, n).kids[f.up[c]]
  {
    hide Distinct, WellFormed;
    UpAt(f, n);
    UpAt(f, c);
    WithoutSeq(f.kids[f.up[n]], Index(f.kids[f.up[n]], n));
  }

  lemma {:induction false} DetachParts(f: Forest, n: Node)
    requires WellFormed(f) && n in f.kids
    ensures var g := Detach(f, n);
            g.kids.Keys == f.kids.Keys && g.height == f.height &&
            if n in f.up then g.up == f.up - {n} && f.up[n] in f.kids else g == f
    ensures forall q :: q in f.kids ==> Distinct(Detach(f, n).kids[q])
  {
    hide KidOk, Distinct;
    if n in f.up {
      UpAt(f, n);
      WithoutSeq(f.kids[f.up[n]], Index(f.kids[f.up[n]], n));
    }
  }

  lemma {:induction false} DetachWellFormed(f: Forest, n: Node)
    requires WellFormed(f) && n in f.kids
    ensures WellFormed(Detach(f, n)) && n !in Detach(f, n).up
    ensures Detach(f, n).kids.Keys == f.kids.Keys
  {
    hide *;
    ForestParts(f);
    DetachParts(f, n);
    if n in f.up {
      var g := Detach(f, n);
      forall q, i | q in g.kids && 0 <= i < |g.kids[q]|
        ensures KidOk(g, q, g.kids[q][i])
      {
        DetachKid(f, n, q, i);
      }
      forall c | c in g.up
        ensures g.up[c] in g.kids && c in g.kids[g.up[c]]
      {
        DetachParent(f, n, c);
      }
      MakeWellFormed(g);
    }
  }

  lemma {:induction false} AttachKid(f: Forest, p: Node, k: nat, n: Node, q: Node, i: nat)
    requires WellFormed(f) && p in f.kids && n in f.kids && k <= |f.kids[p]|
    requires n !in f.up && p !in Preorder(f, n) && q in f.kids && i < |Attach(f, p, k, n).kids[q]|
    ensures q in Attach(f, p, k, n).height && KidOk(Attach(f, p, k, n), q, Attach(f, p, k, n).kids[q][i])
  {
    hide Distinct, Preorder, WellFormed;
    ForestParts(f);
    KidsDistinct(f, p);
    NotListed(f, p, n);
    InsertedSeq(f.kids[p], k, n);
    SelfListed(f, p);
    if q != p || i != k {
      var j := if q == p && i > k then i - 1 else i;
      var c := f.kids[q][j];
      KidAt(f, q, j);
      KidBelow(f, q, j);
      if p in Preorder(f, c) {
        BelowTransitive(f, q, c, p);
      }
    }
  }

  lemma {:induction false} NotListed(f: Forest, p: Node, n: Node)
    requires WellFormed(f) && p in f.kids && n !in f.up
    ensures n !in f.kids[p]
  {
    hide Distinct;
    assert forall i :: 0 <= i < |f.kids[p]| ==> KidOk(f, p, f.kids[p][i]);
  }

  lemma {:induction false} SelfListed(f: Forest, p: Node)
    requires WellFormed(f) && p in f.kids
    ensures p in Preorder(f, p)
  {
    assert Preorder(f, p)[0] == p;
  }

  lemma {:induction false} AttachParts(f: Forest, p: Node, k: nat, n: Node)
    requires WellFormed(f) && p in f.kids && n in f.kids && k <= |f.kids[p]| && n !in f.up
    ensures var g := Attach(f, p, k, n);
            g.kids.Keys == f.kids.Keys && g.height.Keys == f.kids.Keys && g.up == f.up[n := p] && n in g.kids[p] &&
            forall q, c :: q in f.kids && c in f.kids[q] ==> c in g.kids[q]
    ensures forall q :: q in f.kids ==> Distinct(Attach(f, p, k, n).kids[q])
  {
    hide KidOk, Distinct, Preorder;
    NotListed(f, p, n);
    InsertedSeq(f.kids[p], k, n);
  }

  lemma {:induction false} AttachWellFormed(f: Forest, p: Node, k: nat, n: Node)
    requires WellFormed(f) && p in f.kids && n in f.kids && k <= |f.kids[p]|
    requires n !in f.up && p !in Preorder(f, n)
    ensures WellFormed(Attach(f, p, k, n))
    ensures Attach(f, p, k, n).kids.Keys == f.kids.Keys
  {
    hide *;
    var g := Attach(f, p, k, n);
    ForestParts(f);
    AttachParts(f, p, k, n);
    forall q, i | q in g.kids && 0 <= i < |g.kids[q]|
      ensures KidOk(g, q, g.kids[q][i])
    {
      AttachKid(f, p, k, n, q, i);
    }
    forall c | c in g.up
      ensures g.up[c] in g.kids && c in g.kids[g.up[c]]
    {
      if c != n {
        UpAt(f, c);
      }
    }
    MakeWellFormed(g);
  }

  lemma {:induction false} WithNewWellFormed(f: Forest, n: Node)
    requires WellFormed(f) && n !in f.kids
    ensures WellFormed(WithNew(f, n))
  {
    hide Distinct;
    var g := WithNew(f, n);
    forall q, i | q in g.kids && 0 <= i < |g.kids[q]|
      ensures KidOk(g, q, g.kids[q][i])
    {
      assert KidOk(f, q, f.kids[q][i]);
    }
    assert Distinct([]) by { EmptyDistinct(); }
  }

  lemma {:induction false} EmptyDistinct()
    ensures Distinct([])
  {
  }

  /** Dropping everything below a node without parent leaves a well-formed forest. */
  lemma {:induction false} DropWellFormed(f: Forest, n: Node)
    requires WellFormed(f) && n in f.kids && n !in f.up
    ensures WellFormed(Drop(f, Preorder(f, n)))
  {
    hide Distinct, Preorder;
    var g := Drop(f, Preorder(f, n));
    forall q, i | q in g.kids && 0 <= i < |g.kids[q]|
      ensures KidOk(g, q, g.kids[q][i])
    {
      var c := f.kids[q][i];
      assert KidOk(f, q, c);
      if c in Preorder(f, n) {
        BelowInForest(f, n, c);
      }
    }
    forall c | c in g.up
      ensures g.up[c] in g.kids && c in g.kids[g.up[c]]
    {
      var p := f.up[c];
      assert c in f.kids[p];
      var i :| 0 <= i < |f.kids[p]| && f.kids[p][i] == c;
      if p in Preorder(f, n) {
        KidBelow(f, p, i);
        BelowTransitive(f, n, p, c);
      }
    }
  }

  // ----- what the pointers of a node should be -----

  ghost function ParentOf(f: Forest, x: Node): Node? {
    if x in f.up then f.up[x] else null
  }

  ghost function PrevIn(s: seq<Node>, i: int): Node? {
    if 0 < i <= |s| then s[i - 1] else null
  }

  ghost function NextIn(s: seq<Node>, i: int): Node? {
    if 0 <= i + 1 < |s| then s[i + 1] else null
  }

  ghost function PrevOf(f: Forest, x: Node): Node?
    requires WellFormed(f)
  {
    if x in f.up then PrevIn(f.kids[f.up[x]], Index(f.kids[f.up[x]], x)) else null
  }

  ghost function NextOf(f: Forest, x: Node): Node?
    requires WellFormed(f)
  {
    if x in f.up then NextIn(f.kids[f.up[x]], Index(f.kids[f.up[x]], x)) else null
  }

  ghost function FirstOf(f: Forest, x: Node): Node?
    requires x in f.kids
  {
    if f.kids[x] == [] then null else f.kids[x][0]
  }

  ghost function LastOf(f: Forest, x: Node): Node?
    requires x in f.kids
  {
    if f.kids[x] == [] then null else f.kids[x][|f.kids[x]| - 1]
  }

  /** The pointers of every node of the forest say what the forest says. */
  ghost predicate Linked(f: Forest)
    requires WellFormed(f)
    reads f.kids.Keys`parent, f.kids.Keys`prev, f.kids.Keys`next, f.kids.Keys`child, f.kids.Keys`lastChild
  {
    forall x :: x in f.kids ==> LinksOf(f, x)
  }

  ghost predicate LinksOf(f: Forest, x: Node)
    requires WellFormed(f) && x in f.kids
    reads x`parent, x`prev, x`next, x`child, x`lastChild
  {
    x.parent == ParentOf(f, x) && x.prev == PrevOf(f, x) && x.next == NextOf(f, x) &&
    x.child == FirstOf(f, x) && x.lastChild == LastOf(f, x)
  }
}
