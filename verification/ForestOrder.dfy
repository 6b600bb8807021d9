/** Pre-order as an order: no repetitions, transitivity, and what leaves it unchanged. */
module ForestOrder {
  import opened Forests

  lemma {:induction false} NoRepeat(f: Forest, top: Node, i: nat, j: nat)
    requires WellFormed(f) && top in f.kids && i < j < |Preorder(f, top)|
    ensures Preorder(f, top)[i] != Preorder(f, top)[j]
    decreases i + j
  {
    hide Preorder, Distinct;
    var order := Preorder(f, top);
    if order[i] == order[j] {
      var jp, k := ParentSpan(f, top, j);
      var p := order[jp];
      assert KidOk(f, p, f.kids[p][k]);
      Span(f, top, jp);
      if i > 0 {
        var ip, k' := ParentSpan(f, top, i);
        if ip < jp {
          NoRepeat(f, top, ip, jp);
        } else if jp < ip {
          NoRepeat(f, top, jp, ip);
        } else {
          SamePlace(f.kids[p], k, k');
        }
      }
    }
  }

  lemma {:induction false} SamePlace(s: seq<Node>, i: nat, j: nat)
    requires Distinct(s) && i < |s| && j < |s| && s[i] == s[j]
    ensures i == j
  {
  }

  /** A pre-order lists every node once. */
  lemma {:induction false} PreorderDistinct(f: Forest, top: Node)
    requires WellFormed(f) && top in f.kids
    ensures Distinct(Preorder(f, top))
  {
    hide Preorder;
    forall i, j | 0 <= i < j < |Preorder(f, top)|
      ensures Preorder(f, top)[i] != Preorder(f, top)[j]
    {
      NoRepeat(f, top, i, j);
    }
  }

  /** What is below a node that is below `top` is below `top`. */
  lemma {:induction false} BelowTransitive(f: Forest, top: Node, x: Node, y: Node)
    requires WellFormed(f) && top in f.kids && x in Preorder(f, top)
    requires x in f.kids && y in Preorder(f, x)
    ensures y in Preorder(f, top)
  {
    hide Preorder;
    var j :| 0 <= j < |Preorder(f, top)| && Preorder(f, top)[j] == x;
    Span(f, top, j);
    assert y in Preorder(f, top)[j..j + |Preorder(f, x)|];
  }

  lemma {:induction false} KidBelow(f: Forest, p: Node, i: nat)
    requires WellFormed(f) && p in f.kids && i < |f.kids[p]|
    ensures f.kids[p][i] in f.kids && f.kids[p][i] in Preorder(f, p)
    ensures f.height[f.kids[p][i]] < f.height[p]
  {
    hide Preorder;
    var c := f.kids[p][i];
    assert KidOk(f, p, c);
    ChildSpan(f, p, i);
    assert Preorder(f, c)[0] == c;
    assert c in Preorder(f, p)[Offset(f, p, i)..Offset(f, p, i) + |Preorder(f, c)|];
  }

  /** Every node below `top` is in the forest, and is no higher than `top`. */
  lemma {:induction false} BelowInForest(f: Forest, top: Node, x: Node)
    requires WellFormed(f) && top in f.kids && x in Preorder(f, top)
    ensures x in f.kids && f.height[x] <= f.height[top]
    ensures f.height[x] == f.height[top] ==> x == top
    ensures x != top ==> x in f.up && f.up[x] in Preorder(f, top)
  {
    hide Preorder;
    var j :| 0 <= j < |Preorder(f, top)| && Preorder(f, top)[j] == x;
    Span(f, top, j);
    if j > 0 {
      var jp, k := ParentSpan(f, top, j);
      Span(f, top, jp);
      assert KidOk(f, f.up[x], f.kids[f.up[x]][k]);
    }
  }

  /** Two nodes that both have `x` below them: one is below the other. */
  lemma {:induction false} Comparable(f: Forest, a: Node, b: Node, x: Node)
    requires WellFormed(f) && a in f.kids && b in f.kids && x in f.kids
    requires x in Preorder(f, a) && x in Preorder(f, b)
    ensures a in Preorder(f, b) || b in Preorder(f, a)
    decreases f.height[a] as int - f.height[x] as int
  {
    hide Preorder;
    BelowInForest(f, a, x);
    BelowInForest(f, b, x);
    if x != a && x != b {
      var p := f.up[x];
      assert x in f.kids[p];
      var i :| 0 <= i < |f.kids[p]| && f.kids[p][i] == x;
      assert KidOk(f, p, f.kids[p][i]);
      BelowInForest(f, a, p);
      Comparable(f, a, b, p);
    }
  }

  /** A pre-order depends only on the children of the nodes in it. */
  lemma {:induction false} PreorderFrame(f: Forest, g: Forest, n: Node)
    requires WellFormed(f) && WellFormed(g) && n in f.kids && n in g.kids
    requires forall x :: x in Preorder(f, n) && x in f.kids ==> x in g.kids && g.kids[x] == f.kids[x]
    ensures Preorder(g, n) == Preorder(f, n)
    ensures Postorder(g, n) == Postorder(f, n)
    decreases f.height[n], |f.kids[n]| + 1
  {
    assert n in Preorder(f, n);
    BelowFrame(f, g, n, 0);
  }

  lemma {:induction false} BelowFrame(f: Forest, g: Forest, n: Node, i: nat)
    requires WellFormed(f) && WellFormed(g) && n in f.kids && n in g.kids && i <= |f.kids[n]|
    requires g.kids[n] == f.kids[n]
    requires forall x :: x in Preorder(f, n) && x in f.kids ==> x in g.kids && g.kids[x] == f.kids[x]
    ensures Below(g, n, i) == Below(f, n, i)
    ensures PostBelow(g, n, i) == PostBelow(f, n, i)
    decreases f.height[n], |f.kids[n]| - i
  {
    hide Preorder, Postorder;
    if i < |f.kids[n]| {
      var c := f.kids[n][i];
      KidBelow(f, n, i);
      forall x | x in Preorder(f, c) && x in f.kids
        ensures x in g.kids && g.kids[x] == f.kids[x]
      {
        BelowTransitive(f, n, c, x);
      }
      PreorderFrame(f, g, c);
      BelowFrame(f, g, n, i + 1);
    }
  }

  // ----- the order in which a tree is freed -----

  lemma {:induction false} SameNodes(f: Forest, n: Node)
    requires WellFormed(f) && n in f.kids
    ensures multiset(Postorder(f, n)) == multiset(Preorder(f, n))
    decreases f.height[n], |f.kids[n]| + 1
  {
    SameNodesBelow(f, n, 0);
    assert [n] + Below(f, n, 0) == Preorder(f, n);
  }

  lemma {:induction false} SameNodesBelow(f: Forest, n: Node, i: nat)
    requires WellFormed(f) && n in f.kids && i <= |f.kids[n]|
    ensures multiset(PostBelow(f, n, i)) == multiset(Below(f, n, i))
    decreases f.height[n], |f.kids[n]| - i
  {
    if i < |f.kids[n]| {
      assert KidOk(f, n, f.kids[n][i]);
      SameNodes(f, f.kids[n][i]);
      SameNodesBelow(f, n, i + 1);
    }
  }

  lemma {:induction false} DistinctCount(s: seq<Node>, x: Node)
    requires Distinct(s)
    ensures multiset(s)[x] <= 1
  {
    if s != [] {
      DistinctCount(s[1..], x);
      assert s == [s[0]] + s[1..];
      if x == s[0] {
        assert s[0] !in s[1..];
        assert multiset(s[1..])[x] == 0;
      }
    }
  }

  lemma {:induction false} CountTwice(s: seq<Node>, i: nat, j: nat)
    requires i < j < |s|
    ensures s[i] == s[j] ==> multiset(s)[s[i]] >= 2
  {
    var a, b := s[..j], s[j..];
    assert s == a + b && multiset(s) == multiset(a) + multiset(b);
    assert a[i] == s[i] && b[0] == s[j];
    assert s[i] in multiset(a) && s[j] in multiset(b);
  }

  /** Freeing visits every node below `n`, and none twice. */
  lemma {:induction false} PostorderIsPermutation(f: Forest, n: Node)
    requires WellFormed(f) && n in f.kids
    ensures Distinct(Postorder(f, n))
    ensures forall x :: x in Postorder(f, n) <==> x in Preorder(f, n)
  {
    hide Preorder, Postorder;
    SameNodes(f, n);
    PreorderDistinct(f, n);
    var s := Postorder(f, n);
    forall i, j | 0 <= i < j < |s|
      ensures s[i] != s[j]
    {
      DistinctCount(Preorder(f, n), s[i]);
      CountTwice(s, i, j);
    }
    forall x
      ensures x in Postorder(f, n) <==> x in Preorder(f, n)
    {
      assert x in multiset(Postorder(f, n)) <==> x in multiset(Preorder(f, n));
    }
  }

  lemma {:induction false} DistinctParts(s: seq<Node>, t: seq<Node>, x: Node)
    requires Distinct(s + t)
    ensures Distinct(s) && Distinct(t) && !(x in s && x in t)
  {
    assert forall i :: 0 <= i < |s| ==> (s + t)[i] == s[i];
    assert forall i :: 0 <= i < |t| ==> (s + t)[|s| + i] == t[i];
  }

  lemma {:induction false} BelowDistinct(f: Forest, n: Node, i: nat)
    requires WellFormed(f) && n in f.kids && i <= |f.kids[n]|
    ensures Distinct(Below(f, n, i))
  {
    PreorderDistinct(f, n);
    var k := Offset(f, n, i);
    var order := Preorder(f, n);
    assert order == order[..k] + order[k..];
    DistinctParts(order[..k], order[k..], n);
  }

  /** No node is freed after the node that it hangs below, however deep. */
  lemma {:induction false} ChildrenFirst(f: Forest, n: Node, a: nat, b: nat)
    requires WellFormed(f) && n in f.kids && a < b < |Postorder(f, n)| && Postorder(f, n)[a] in f.kids
    ensures Postorder(f, n)[b] !in Preorder(f, Postorder(f, n)[a])
    decreases f.height[n], |f.kids[n]| + 1
  {
    hide Preorder, Distinct, PostBelow;
    var s := PostBelow(f, n, 0);
    assert Postorder(f, n) == s + [n];
    var x := s[a];
    if b == |s| {
      SameNodesBelow(f, n, 0);
      BelowLower(f, n, 0, x);
      if n in Preorder(f, x) {
        BelowInForest(f, x, n);
      }
    } else {
      ChildrenFirstBelow(f, n, 0, a, b);
    }
  }

  /** What is below the children of `n` is lower than `n`. */
  lemma {:induction false} BelowLower(f: Forest, n: Node, i: nat, x: Node)
    requires WellFormed(f) && n in f.kids && i <= |f.kids[n]|
    requires multiset(PostBelow(f, n, i)) == multiset(Below(f, n, i)) && x in PostBelow(f, n, i)
    ensures x in f.kids && f.height[x] < f.height[n] && x in Below(f, n, i)
  {
    hide Preorder, Distinct, PostBelow;
    assert x in multiset(Below(f, n, i));
    InBelow(f, n, i, x);
  }

  lemma {:induction false} InBelow(f: Forest, n: Node, i: nat, x: Node)
    requires WellFormed(f) && n in f.kids && i <= |f.kids[n]| && x in Below(f, n, i)
    ensures x in f.kids && f.height[x] < f.height[n]
    decreases |f.kids[n]| - i
  {
    hide Preorder, Distinct;
    var c := f.kids[n][i];
    assert KidOk(f, n, c);
    if x in Preorder(f, c) {
      BelowInForest(f, c, x);
    } else {
      InBelow(f, n, i + 1, x);
    }
  }

  lemma {:induction false} ChildrenFirstBelow(f: Forest, n: Node, i: nat, a: nat, b: nat)
    requires WellFormed(f) && n in f.kids && i <= |f.kids[n]|
    requires a < b < |PostBelow(f, n, i)| && PostBelow(f, n, i)[a] in f.kids
    ensures PostBelow(f, n, i)[b] !in Preorder(f, PostBelow(f, n, i)[a])
    decreases f.height[n], |f.kids[n]| - i
  {
    hide Preorder, Postorder, Distinct;
    var c := f.kids[n][i];
    assert KidOk(f, n, c);
    var s, t := Postorder(f, c), PostBelow(f, n, i + 1);
    assert PostBelow(f, n, i) == s + t;
    if b < |s| {
      ChildrenFirst(f, c, a, b);
    } else if a >= |s| {
      ChildrenFirstBelow(f, n, i + 1, a - |s|, b - |s|);
    } else {
      Apart(f, n, i, s[a], t[b - |s|]);
    }
  }

  /** What is below different children stands apart. */
  lemma {:induction false} Apart(f: Forest, n: Node, i: nat, x: Node, y: Node)
    requires WellFormed(f) && n in f.kids && i < |f.kids[n]| && f.kids[n][i] in f.kids && x in f.kids
    requires x in Postorder(f, f.kids[n][i]) && y in PostBelow(f, n, i + 1)
    ensures y !in Preorder(f, x)
  {
    hide Preorder, Postorder, Distinct, PostBelow;
    var c := f.kids[n][i];
    SameNodes(f, c);
    SameNodesBelow(f, n, i + 1);
    assert x in multiset(Postorder(f, c)) && y in multiset(PostBelow(f, n, i + 1));
    BelowDistinct(f, n, i);
    DistinctParts(Preorder(f, c), Below(f, n, i + 1), y);
    if y in Preorder(f, x) {
      BelowTransitive(f, c, x, y);
    }
  }
}
