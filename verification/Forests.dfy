/** Nodes of the tree (mxml_node_t) and, as a pure description of how they hang together, the
    forest that their pointers form. */
module Forests {
  import opened Options
  import opened Trees

  /** The union `mxml_value_t` with its type tag */
  datatype NodeValue =
    | ElementValue(name: string, attrs: seq<Attr>)
    | IntegerValue(n: int)
    | OpaqueValue(s: string)
    | TextValue(ws: bool, s: string)

  class Node {
    var value: NodeValue
    var next: Node?
    var prev: Node?
    var parent: Node?
    var child: Node?
    var lastChild: Node?

    /** `calloc`: every pointer starts as null. */
    constructor (value: NodeValue)
      ensures this.value == value
      ensures next == null && prev == null && parent == null && child == null && lastChild == null
    {
      this.value := value;
      next, prev, parent, child, lastChild := null, null, null, null, null;
    }
  }

  /** `kids` gives the children of every node in order, `up` the parent of every node that has
      one. `height` is a witness that there are no cycles. */
  datatype Forest = Forest(kids: map<Node, seq<Node>>, up: map<Node, Node>, height: map<Node, nat>)

  ghost predicate Distinct(s: seq<Node>) {
    forall i, j :: 0 <= i < j < |s| ==> s[i] != s[j]
  }

  ghost predicate KidOk(f: Forest, p: Node, c: Node)
    requires p in f.kids && p in f.height
  {
    c in f.kids && c in f.up && f.up[c] == p && c in f.height && f.height[c] < f.height[p]
  }

  /** Parents and children agree, no node is listed twice, and there is no cycle. */
  ghost predicate WellFormed(f: Forest) {
    && f.height.Keys == f.kids.Keys
    && f.up.Keys <= f.kids.Keys
    && (forall p, i :: p in f.kids && 0 <= i < |f.kids[p]| ==> KidOk(f, p, f.kids[p][i]))
    && (forall p :: p in f.kids ==> Distinct(f.kids[p]))
    && (forall c :: c in f.up ==> f.up[c] in f.kids && c in f.kids[f.up[c]])
  }

  // ----- positions in a sequence -----

  ghost function Index(s: seq<Node>, x: Node): (i: nat)
    requires x in s
    ensures i < |s| && s[i] == x
  {
    if s[0] == x then 0 else 1 + Index(s[1..], x)
  }

  lemma {:induction false} IndexUnique(s: seq<Node>, i: nat)
    requires Distinct(s) && i < |s|
    ensures Index(s, s[i]) == i
  {
  }

  ghost function Without(s: seq<Node>, k: nat): seq<Node>
    requires k < |s|
  {
    s[..k] + s[k + 1..]
  }

  ghost function Inserted(s: seq<Node>, k: nat, x: Node): seq<Node>
    requires k <= |s|
  {
    s[..k] + [x] + s[k..]
  }

  // ----- pre-order -----

  /** A node and everything below it, in document order */
  ghost function Preorder(f: Forest, n: Node): (s: seq<Node>)
    requires WellFormed(f) && n in f.kids
    ensures s != [] && s[0] == n
    decreases f.height[n], |f.kids[n]| + 1
  {
    [n] + Below(f, n, 0)
  }

  /** Everything below the children of `n` from the `i`-th on, those children included */
  ghost function Below(f: Forest, n: Node, i: nat): seq<Node>
    requires WellFormed(f) && n in f.kids && i <= |f.kids[n]|
    decreases f.height[n], |f.kids[n]| - i
  {
    if i == |f.kids[n]| then []
    else
      assert KidOk(f, n, f.kids[n][i]);
      Preorder(f, f.kids[n][i]) + Below(f, n, i + 1)
  }

  /** The other order, in which a tree is freed: children before their parent */
  ghost function Postorder(f: Forest, n: Node): seq<Node>
    requires WellFormed(f) && n in f.kids
    decreases f.height[n], |f.kids[n]| + 1
  {
    PostBelow(f, n, 0) + [n]
  }

  ghost function PostBelow(f: Forest, n: Node, i: nat): seq<Node>
    requires WellFormed(f) && n in f.kids && i <= |f.kids[n]|
    decreases f.height[n], |f.kids[n]| - i
  {
    if i == |f.kids[n]| then []
    else
      assert KidOk(f, n, f.kids[n][i]);
      Postorder(f, f.kids[n][i]) + PostBelow(f, n, i + 1)
  }

  /** How far into `Preorder(f, n)` the `i`-th child of `n` comes */
  ghost function Offset(f: Forest, n: Node, i: nat): (k: nat)
    requires WellFormed(f) && n in f.kids && i <= |f.kids[n]|
    ensures 1 <= k <= |Preorder(f, n)|
    ensures Preorder(f, n)[k..] == Below(f, n, i)
    ensures i == 0 ==> k == 1
    decreases i
  {
    if i == 0 then
      assert Preorder(f, n)[1..] == Below(f, n, 0);
      1
    else
      var k := Offset(f, n, i - 1);
      var c := f.kids[n][i - 1];
      assert KidOk(f, n, c);
      assert Preorder(f, n)[k..][|Preorder(f, c)|..] == Below(f, n, i);
      assert Preorder(f, n)[k + |Preorder(f, c)|..] == Below(f, n, i);
      k + |Preorder(f, c)|
  }

  /** A child and what is below it are one stretch of its parent's pre-order. */
  lemma {:induction false} ChildSpan(f: Forest, p: Node, k: nat)
    requires WellFormed(f) && p in f.kids && k < |f.kids[p]|
    ensures var c := f.kids[p][k]; var i := Offset(f, p, k);
            c in f.kids && i + |Preorder(f, c)| == Offset(f, p, k + 1) <= |Preorder(f, p)| &&
            Preorder(f, p)[i..i + |Preorder(f, c)|] == Preorder(f, c)
  {
    var c := f.kids[p][k];
    assert KidOk(f, p, c);
    var i := Offset(f, p, k);
    var rest := Preorder(f, p)[i..];
    assert rest == Preorder(f, c) + Below(f, p, k + 1);
    assert rest[..|Preorder(f, c)|] == Preorder(f, p)[i..i + |Preorder(f, c)|];
  }

  lemma {:induction false} OffsetEnd(f: Forest, p: Node)
    requires WellFormed(f) && p in f.kids
    ensures Offset(f, p, |f.kids[p]|) == |Preorder(f, p)|
  {
    var k := Offset(f, p, |f.kids[p]|);
    assert Preorder(f, p)[k..] == [];
  }

  /** Every index but the first lies in the stretch of one child. */
  lemma {:induction false} ChildAt(f: Forest, p: Node, j: nat, i: nat) returns (k: nat)
    requires WellFormed(f) && p in f.kids && i <= |f.kids[p]| && Offset(f, p, i) <= j < |Preorder(f, p)|
    ensures k < |f.kids[p]| && f.kids[p][k] in f.kids
    ensures Offset(f, p, k) <= j < Offset(f, p, k) + |Preorder(f, f.kids[p][k])|
    ensures Offset(f, p, k) >= 1
    decreases |f.kids[p]| - i
  {
    hide WellFormed, Preorder, KidOk, Distinct;
    OffsetEnd(f, p);
    ChildSpan(f, p, i);
    if j < Offset(f, p, i + 1) {
      k := i;
    } else {
      k := ChildAt(f, p, j, i + 1);
    }
  }

  lemma {:induction false} SliceOfSlice(s: seq<Node>, t: seq<Node>, i: nat, a: nat, b: nat)
    requires i + |t| <= |s| && s[i..i + |t|] == t && a <= b <= |t|
    ensures t[a..b] == s[i + a..i + b]
    ensures a < |t| ==> t[a] == s[i + a]
  {
    assert forall k :: 0 <= k < |t| ==> t[k] == s[i..i + |t|][k] == s[i + k];
  }

  /** Wherever a node occurs in a pre-order, its own pre-order follows. */
  lemma {:induction false} Span(f: Forest, top: Node, j: nat)
    requires WellFormed(f) && top in f.kids && j < |Preorder(f, top)|
    ensures var x := Preorder(f, top)[j];
            x in f.kids && j + |Preorder(f, x)| <= |Preorder(f, top)| &&
            Preorder(f, top)[j..j + |Preorder(f, x)|] == Preorder(f, x) &&
            f.height[x] <= f.height[top]
    decreases f.height[top]
  {
    hide Preorder, Offset, Distinct;
    var order := Preorder(f, top);
    if j == 0 {
      assert order[0..|order|] == order;
    } else {
      var k := ChildAt(f, top, j, 0);
      var c := f.kids[top][k];
      assert KidOk(f, top, c);
      ChildSpan(f, top, k);
      var i := Offset(f, top, k);
      SliceOfSlice(order, Preorder(f, c), i, j - i, j - i);
      Span(f, c, j - i);
      SliceOfSlice(order, Preorder(f, c), i, j - i, j - i + |Preorder(f, order[j])|);
    }
  }

  /** A node other than `top` in the pre-order of `top` hangs below one of its nodes, at the place
      that `Offset` says. */
  lemma {:induction false} ParentSpan(f: Forest, top: Node, j: nat) returns (jp: nat, k: nat)
    requires WellFormed(f) && top in f.kids && 0 < j < |Preorder(f, top)|
    ensures var x := Preorder(f, top)[j];
            jp < j && x in f.up && f.up[x] == Preorder(f, top)[jp] && f.up[x] in f.kids &&
            k < |f.kids[f.up[x]]| && f.kids[f.up[x]][k] == x && jp + Offset(f, f.up[x], k) == j
    decreases f.height[top]
  {
    hide Preorder, Offset, Distinct;
    var k0 := ChildAt(f, top, j, 0);
    var c := f.kids[top][k0];
    assert KidOk(f, top, c);
    ChildSpan(f, top, k0);
    var i := Offset(f, top, k0);
    SliceOfSlice(Preorder(f, top), Preorder(f, c), i, j - i, j - i);
    if j == i {
      jp, k := 0, k0;
    } else {
      jp, k := ParentSpan(f, c, j - i);
      SliceOfSlice(Preorder(f, top), Preorder(f, c), i, jp, jp);
      jp := i + jp;
    }
  }
}
