/** mxmlFindElement: the first match along the walk. */
module Finding {
  import opened Options
  import opened Trees
  import opened Attributes
  import opened Forests
  import opened ForestOrder
  import opened ForestOps
  import opened Nodes
  import opened Search

  /** What is searched for; None stands for a null string, which matches anything */
  datatype Query = Query(name: Option<string>, attr: Option<string>, value: Option<string>)

  predicate Matches(v: NodeValue, q: Query) {
    && v.ElementValue?
    && (q.name == None || q.name == Some(v.name))
    && (q.attr == None ||
        var a := GetAttr(v.attrs, q.attr.value);
        a.Some? && (q.value == None || q.value == a))
  }

  /** What the nodes of the forest hold */
  ghost function Values(f: Forest): map<Node, NodeValue>
    reads f.kids.Keys
  {
    map x | x in f.kids :: x.value
  }

  ghost predicate MatchesAt(vals: map<Node, NodeValue>, x: Node, q: Query) {
    x in vals && Matches(vals[x], q)
  }

  /** The first node of `order` from position `i` on that matches, or null */
  ghost function FirstMatch(order: seq<Node>, vals: map<Node, NodeValue>, i: nat, q: Query): (r: Node?)
    ensures r == null ==> forall k :: i <= k < |order| ==> !MatchesAt(vals, order[k], q)
    ensures r != null ==> exists k :: i <= k < |order| && r == order[k] && MatchesAt(vals, order[k], q) &&
                            forall j :: i <= j < k ==> !MatchesAt(vals, order[j], q)
    decreases |order| - i
  {
    if i >= |order| then null
    else if MatchesAt(vals, order[i], q) then order[i]
    else FirstMatch(order, vals, i + 1, q)
  }

  /** `x` and its later siblings; nothing for null */
  ghost function SiblingsFrom(f: Forest, x: Node?): (s: seq<Node>)
    requires WellFormed(f)
    ensures x != null ==> s != [] && s[0] == x
  {
    if x == null then []
    else if x in f.up then f.kids[f.up[x]][Index(f.kids[f.up[x]], x)..]
    else [x]
  }

  lemma {:induction false} NextSibling(f: Forest, x: Node)
    requires WellFormed(f)
    ensures SiblingsFrom(f, x)[1..] == SiblingsFrom(f, NextOf(f, x))
    ensures NextOf(f, x) != null ==> NextOf(f, x) in f.kids
  {
    if x in f.up {
      var p := f.up[x];
      var i := IndexIn(f, x);
      if i + 1 < |f.kids[p]| {
        assert KidOk(f, p, f.kids[p][i + 1]);
        IndexUnique(f.kids[p], i + 1);
      }
    }
  }

  datatype Descend = NoDescend | Descend | DescendFirst

  /** Everything behind `x` in the pre-order of `top` */
  ghost function Behind(f: Forest, top: Node, x: Node): seq<Node>
    requires WellFormed(f) && top in f.kids && x in Preorder(f, top)
  {
    Preorder(f, top)[Index(Preorder(f, top), x) + 1..]
  }

  /** Where a walk from `x` through the pre-order of `t` ends: behind the subtree of `top` if it starts
      before it, and at the end otherwise */
  ghost function EndOfWalk(f: Forest, t: Node, top: Node, x: Node): (e: nat)
    requires WellFormed(f) && t in f.kids && x in Preorder(f, t)
    ensures e <= |Preorder(f, t)|
  {
    var order := Preorder(f, t);
    if t != top && top in order && Index(order, x) < Index(order, top) then
      PositionOf(f, t, top);
      Index(order, top) + |Preorder(f, top)|
    else |order|
  }

  /** Everything that a descending walk from `x` still visits. Inside the subtree of `top` that is
      everything behind `x` in it; a walk from outside crosses into that subtree and ends with it. */
  ghost function Walked(f: Forest, t: Node, top: Node, x: Node): seq<Node>
    requires WellFormed(f) && t in f.kids && x in Preorder(f, t)
  {
    var j := Index(Preorder(f, t), x) + 1;
    var e := EndOfWalk(f, t, top, x);
    if j <= e then Preorder(f, t)[j..e] else []
  }

  /** The nodes that a search looks at, in order: with `Descend` everything that the walk visits,
      otherwise one list of siblings, starting where the first step leads */
  ghost function Candidates(f: Forest, t: Node, top: Node, node: Node, d: Descend): seq<Node>
    requires WellFormed(f) && t in f.kids && node in f.kids && node in Preorder(f, t)
  {
    if d == Descend then Walked(f, t, top, node)
    else SiblingsFrom(f, At(Preorder(f, t), NextPosition(f, t, node, d != NoDescend)))
  }

  /** What the search promises: the first candidate that matches */
  ghost function Found(f: Forest, vals: map<Node, NodeValue>, t: Node, top: Node, node: Node, q: Query, d: Descend): Node?
    requires WellFormed(f) && t in f.kids && node in f.kids && node in Preorder(f, t)
  {
    if q.attr == None && q.value.Some? then null
    else FirstMatch(Candidates(f, t, top, node, d), vals, 0, q)
  }

  lemma {:induction false} BehindNext(f: Forest, top: Node, x: Node)
    requires WellFormed(f) && top in f.kids && x in Preorder(f, top) && x in f.kids
    ensures var r := At(Preorder(f, top), NextPosition(f, top, x, true));
            if r == null then Behind(f, top, x) == []
            else r in f.kids && r in Preorder(f, top) && Behind(f, top, x) == [r] + Behind(f, top, r)
  {
    hide Preorder;
    var order := Preorder(f, top);
    PreorderDistinct(f, top);
    var i := Index(order, x) + 1;
    if i < |order| {
      Span(f, top, i);
      IndexUnique(order, i);
    }
  }

  lemma {:induction false} WalkedInside(f: Forest, top: Node, x: Node)
    requires WellFormed(f) && top in f.kids && x in Preorder(f, top)
    ensures Walked(f, top, top, x) == Behind(f, top, x)
  {
    hide Preorder;
  }

  /** The bound of a walk that has come to `r`: once it is in the subtree of `top`, it stays there. */
  ghost function BoundAt(f: Forest, t: Node, top: Node, r: Node): Node {
    if r == top then top else t
  }

  /** One step of a descending walk */
  lemma {:induction false} WalkedNext(f: Forest, t: Node, top: Node, x: Node)
    requires WellFormed(f) && Bounds(f, t, top, x)
    ensures var r := At(Preorder(f, t), NextPosition(f, t, x, true));
            if r == null then Walked(f, t, top, x) == []
            else var b := BoundAt(f, t, top, r);
                 Bounds(f, b, top, r) && Walked(f, t, top, x) == [r] + Walked(f, b, top, r)
  {
    hide Preorder, Index, EndOfWalk;
    BehindNext(f, t, x);
    if t == top {
      WalkedInside(f, top, x);
      if Behind(f, top, x) != [] {
        WalkedInside(f, top, Behind(f, top, x)[0]);
        TopItself(f, top);
      }
    } else {
      StepOutside(f, t, top, x);
    }
  }

  lemma {:induction false} TopItself(f: Forest, top: Node)
    requires WellFormed(f) && top in f.kids
    ensures top in Preorder(f, top)
  {
    assert Preorder(f, top)[0] == top;
  }

  /** What is still visited, in terms of positions in the pre-order of `t` */
  lemma {:induction false} WalkedIs(f: Forest, t: Node, top: Node, x: Node)
    requires WellFormed(f) && Bounds(f, t, top, x) && t != top
    ensures var order := Preorder(f, t); var j := Index(order, x);
            j < |order| && order[j] == x && Distinct(order) &&
            (if top in order && j < Index(order, top) then
               top in f.kids && var e := Index(order, top) + |Preorder(f, top)|; e <= |order| && Walked(f, t, top, x) == order[j + 1..e]
             else Walked(f, t, top, x) == order[j + 1..])
  {
    hide Preorder, Index, WellFormed, Distinct;
    var order := Preorder(f, t);
    PreorderDistinct(f, t);
    if top in order {
      PositionOf(f, t, top);
    }
  }

  /** A step of a walk from outside the subtree of `top` leads to the next node outside, or to `top`. */
  lemma {:induction false} StepOutside(f: Forest, t: Node, top: Node, x: Node)
    requires WellFormed(f) && Bounds(f, t, top, x) && t != top
    ensures var r := At(Preorder(f, t), Index(Preorder(f, t), x) + 1);
            if r == null then Walked(f, t, top, x) == []
            else r in f.kids && r in Preorder(f, t) &&
                 (r == top ==> Walked(f, t, top, x) == [r] + Walked(f, top, top, top) && Bounds(f, top, top, top)) &&
                 (r != top ==> Walked(f, t, top, x) == [r] + Walked(f, t, top, r) && Bounds(f, t, top, r))
  {
    hide Preorder, Index, Bounds, Walked, WellFormed, Distinct;
    BoundsFacts(f, t, top, x);
    var order := Preorder(f, t);
    var j := Index(order, x);
    WalkedIs(f, t, top, x);
    if j + 1 < |order| {
      var r := order[j + 1];
      Span(f, t, j + 1);
      IndexUnique(order, j + 1);
      if r == top {
        EnterTop(f, t, top, x);
      } else {
        StayOutside(f, t, top, x, r);
        WalkedIs(f, t, top, r);
      }
    }
  }

  lemma {:induction false} EnterTop(f: Forest, t: Node, top: Node, x: Node)
    requires WellFormed(f) && Bounds(f, t, top, x) && t != top
    requires var order := Preorder(f, t); var j := Index(order, x); j + 1 < |order| && order[j + 1] == top && Index(order, top) == j + 1
    ensures top in f.kids && Bounds(f, top, top, top) && Walked(f, t, top, x) == [top] + Walked(f, top, top, top)
  {
    hide Preorder, Index, Bounds, Walked, WellFormed, Distinct;
    BoundsFacts(f, t, top, x);
    WalkedIs(f, t, top, x);
    SpanAt(f, t, top);
    EndOfOrder(f, top);
    WalkedInside(f, top, top);
    BoundedByTop(f, top, top);
  }

  lemma {:induction false} StayOutside(f: Forest, t: Node, top: Node, x: Node, r: Node)
    requires WellFormed(f) && Bounds(f, t, top, x) && t != top && r != top && r in f.kids
    requires r in Preorder(f, t) && Index(Preorder(f, t), r) == Index(Preorder(f, t), x) + 1
    ensures Bounds(f, t, top, r)
  {
    hide Preorder, Index, WellFormed;
    if top in f.kids && r in Preorder(f, top) {
      OutsideBefore(f, t, top, x, r);
    }
  }

  /** The pre-order of `top` is one stretch of that of `t`. */
  lemma {:induction false} SpanAt(f: Forest, t: Node, top: Node)
    requires WellFormed(f) && t in f.kids && top in Preorder(f, t)
    ensures var i := Index(Preorder(f, t), top);
            top in f.kids && i + |Preorder(f, top)| <= |Preorder(f, t)| && Preorder(f, top) != [] &&
            Preorder(f, t)[i..i + |Preorder(f, top)|] == Preorder(f, top)
  {
    hide Preorder;
    Span(f, t, Index(Preorder(f, t), top));
    TopItself(f, top);
  }

  lemma {:induction false} OutsideSpan(f: Forest, t: Node, top: Node, x: Node)
    requires WellFormed(f) && t in f.kids && top in Preorder(f, t)
    requires x in Preorder(f, t) && top in f.kids && x !in Preorder(f, top)
    ensures var i, j := Index(Preorder(f, t), top), Index(Preorder(f, t), x); j < i || i + |Preorder(f, top)| <= j
  {
    hide Preorder;
    SpanAt(f, t, top);
    var i, j := Index(Preorder(f, t), top), Index(Preorder(f, t), x);
    if i <= j < i + |Preorder(f, top)| {
      InStretch(Preorder(f, t), Preorder(f, top), i, j);
    }
  }

  lemma {:induction false} InStretch(s: seq<Node>, t: seq<Node>, i: nat, j: nat)
    requires i <= j < i + |t| <= |s| && s[i..i + |t|] == t
    ensures s[j] in t
  {
    assert t[j - i] == s[j];
  }

  /** Only `top` itself is entered from outside. */
  lemma {:induction false} OutsideBefore(f: Forest, t: Node, top: Node, x: Node, r: Node)
    requires WellFormed(f) && t in f.kids && t !in f.up && top in f.kids && x in Preorder(f, t) && x !in Preorder(f, top)
    requires r in Preorder(f, t) && r in Preorder(f, top) && Index(Preorder(f, t), r) == Index(Preorder(f, t), x) + 1
    ensures r == top
  {
    hide Preorder, Index;
    RootsContain(f, t, top, r);
    SpanAt(f, t, top);
    OutsideSpan(f, t, top, x);
    var i := Index(Preorder(f, t), top);
    var k := Index(Preorder(f, top), r);
    SliceOfSlice(Preorder(f, t), Preorder(f, top), i, k, k);
    PreorderDistinct(f, t);
    IndexUnique(Preorder(f, t), i + k);
    EndOfOrder(f, top);
  }

  /** A node without parent contains every node that shares something with it. */
  lemma {:induction false} RootsContain(f: Forest, t: Node, top: Node, r: Node)
    requires WellFormed(f) && t in f.kids && t !in f.up && top in f.kids && r in Preorder(f, t) && r in Preorder(f, top)
    ensures top in Preorder(f, t)
  {
    hide Preorder;
    BelowInForest(f, t, r);
    Comparable(f, t, top, r);
    if t in Preorder(f, top) {
      BelowInForest(f, top, t);
    }
  }

  lemma {:induction false} FirstMatchTail(s: seq<Node>, t: seq<Node>, vals: map<Node, NodeValue>, i: nat, q: Query)
    requires s != [] && t == s[1..]
    ensures FirstMatch(t, vals, i, q) == FirstMatch(s, vals, i + 1, q)
    decreases |t| - i
  {
    if i < |t| {
      FirstMatchTail(s, t, vals, i + 1, q);
    }
  }

  lemma {:induction false} FirstMatchCons(s: seq<Node>, vals: map<Node, NodeValue>, q: Query)
    requires s != []
    ensures FirstMatch(s, vals, 0, q) == if MatchesAt(vals, s[0], q) then s[0] else FirstMatch(s[1..], vals, 0, q)
  {
    FirstMatchTail(s, s[1..], vals, 0, q);
  }

  lemma {:induction false} ValueOf(f: Forest, x: Node)
    requires x in f.kids
    ensures x in Values(f) && Values(f)[x] == x.value
  {
  }

  // ----- the same in plain words -----

  /** What a search for `q` accepts: an element of that name with a value for that attribute, and with
      that very value if there is one */
  predicate Wanted(v: NodeValue, q: Query) {
    && v.ElementValue?
    && (q.name.Some? ==> v.name == q.name.value)
    && (q.attr.Some? ==>
          exists i :: 0 <= i < |v.attrs| && v.attrs[i].name == q.attr.value && v.attrs[i].value.Some? &&
            (forall j :: 0 <= j < i ==> v.attrs[j].name != q.attr.value) &&
            (q.value.Some? ==> v.attrs[i].value == q.value))
  }

  /** `r` is the first node of `s` that is wanted; null if none is. */
  ghost predicate FirstWanted(r: Node?, s: seq<Node>, q: Query)
    reads s
  {
    if r == null then forall k :: 0 <= k < |s| ==> !Wanted(s[k].value, q)
    else exists k :: 0 <= k < |s| && s[k] == r && Wanted(r.value, q) && forall j :: 0 <= j < k ==> !Wanted(s[j].value, q)
  }

  lemma {:induction false} WantedIsMatch(v: NodeValue, q: Query)
    ensures Matches(v, q) <==> Wanted(v, q)
  {
    if v.ElementValue? && q.attr.Some? {
      var i := FindAttr(v.attrs, q.attr.value);
      forall k | 0 <= k < |v.attrs| && v.attrs[k].name == q.attr.value && forall j :: 0 <= j < k ==> v.attrs[j].name != q.attr.value
        ensures k == i
      {
        FindAttrIs(v.attrs, q.attr.value, k);
      }
    }
  }

  lemma {:induction false} FirstMatchWanted(f: Forest, s: seq<Node>, q: Query)
    requires forall k :: 0 <= k < |s| ==> s[k] in f.kids
    ensures FirstWanted(FirstMatch(s, Values(f), 0, q), s, q)
  {
    hide Matches, Wanted, FirstMatch;
    forall k | 0 <= k < |s|
      ensures MatchesAt(Values(f), s[k], q) == Wanted(s[k].value, q)
    {
      ValueOf(f, s[k]);
      WantedIsMatch(s[k].value, q);
    }
    var r := FirstMatch(s, Values(f), 0, q);
  }

  /** The siblings that come next when the subtree of `x` is left: the later siblings of `x`, or of the
      nearest node above it, below `t`, that has any */
  ghost function Following(f: Forest, t: Node, x: Node): seq<Node>
    requires WellFormed(f) && t in f.kids && x in Preorder(f, t)
    decreases Index(Preorder(f, t), x)
  {
    if x == t then []
    else
      StepUp(f, t, x);
      var s := f.kids[f.up[x]];
      var k := IndexOf(s, x);
      if k + 1 < |s| then s[k + 1..] else Following(f, t, f.up[x])
  }

  ghost function IndexOf(s: seq<Node>, x: Node): (k: nat)
    ensures x in s ==> k < |s| && s[k] == x && forall j :: 0 <= j < k ==> s[j] != x
  {
    if s == [] || s[0] == x then 0 else 1 + IndexOf(s[1..], x)
  }

  lemma {:induction false} IndexOfIs(s: seq<Node>, x: Node)
    requires x in s && Distinct(s)
    ensures IndexOf(s, x) == Index(s, x)
  {
    IndexUnique(s, IndexOf(s, x));
  }

  lemma {:induction false} SiblingsBehind(f: Forest, t: Node, x: Node)
    requires WellFormed(f) && t in f.kids && x in Preorder(f, t) && x in f.kids
    ensures SiblingsFrom(f, At(Preorder(f, t), NextPosition(f, t, x, false))) == Following(f, t, x)
    decreases Index(Preorder(f, t), x)
  {
    hide WellFormed, Preorder, Index, At, SiblingsFrom, PrevOf, NextOf, Distinct, IndexOf;
    if x == t {
      EndOfOrder(f, t);
      NoSiblings(f);
    } else {
      StepUp(f, t, x);
      var i := IndexIn(f, x);
      var s := f.kids[f.up[x]];
      KidsDistinct(f, f.up[x]);
      IndexOfIs(s, x);
      NextInIs(s, i);
      if i + 1 < |s| {
        SiblingsOfKid(f, f.up[x], i + 1);
      } else {
        SiblingsBehind(f, t, f.up[x]);
      }
    }
  }

  lemma {:induction false} KidsDistinct(f: Forest, p: Node)
    requires WellFormed(f) && p in f.kids
    ensures Distinct(f.kids[p])
  {
  }

  lemma {:induction false} SiblingsOfKid(f: Forest, p: Node, k: nat)
    requires WellFormed(f) && p in f.kids && k < |f.kids[p]|
    ensures SiblingsFrom(f, f.kids[p][k]) == f.kids[p][k..]
  {
    assert KidOk(f, p, f.kids[p][k]);
    IndexUnique(f.kids[p], k);
  }

  /** Where the search without descending starts: with `DescendFirst` at the first child, if there is
      one; otherwise behind the subtree */
  lemma {:induction false} CandidatesAre(f: Forest, t: Node, top: Node, node: Node, d: Descend)
    requires WellFormed(f) && t in f.kids && node in f.kids && node in Preorder(f, t)
    ensures d == DescendFirst && f.kids[node] != [] ==> Candidates(f, t, top, node, d) == f.kids[node]
    ensures d == NoDescend || (d == DescendFirst && f.kids[node] == []) ==> Candidates(f, t, top, node, d) == Following(f, t, node)
    ensures d == Descend && t == top ==> Candidates(f, t, top, node, d) == Preorder(f, t)[Index(Preorder(f, t), node) + 1..]
  {
    hide WellFormed, Preorder, Index, At, SiblingsFrom, Walked, Following;
    if d == Descend {
      if t == top {
        WalkedInside(f, top, node);
      }
    } else {
      StepDown(f, t, node);
      SiblingsBehind(f, t, node);
      if f.kids[node] != [] {
        SiblingsOfKid(f, node, 0);
        assert f.kids[node][0..] == f.kids[node];
      }
    }
  }

  /** Where the nodes stand that are looked at: in the forest */
  lemma {:induction false} CandidatesInForest(f: Forest, t: Node, top: Node, node: Node, d: Descend, k: nat)
    requires WellFormed(f) && t in f.kids && node in f.kids && node in Preorder(f, t)
    requires k < |Candidates(f, t, top, node, d)|
    ensures Candidates(f, t, top, node, d)[k] in f.kids
  {
    hide Preorder, Index, At, NextPosition, EndOfWalk;
    if d == Descend {
      var j := Index(Preorder(f, t), node) + 1;
      Span(f, t, j + k);
    } else {
      var x := At(Preorder(f, t), NextPosition(f, t, node, d != NoDescend));
      InOrder(f, t, NextPosition(f, t, node, d != NoDescend));
      if x in f.up {
        var i := IndexIn(f, x);
        assert KidOk(f, f.up[x], f.kids[f.up[x]][i + k]);
      }
    }
  }

  lemma {:induction false} InOrder(f: Forest, t: Node, i: nat)
    requires WellFormed(f) && t in f.kids
    ensures At(Preorder(f, t), i) != null ==> At(Preorder(f, t), i) in f.kids
  {
    hide Preorder;
    if i < |Preorder(f, t)| {
      Span(f, t, i);
    }
  }

  /** What a search finds: the first node that is wanted among the children of `node`, among the siblings
      that follow it, or among everything behind it. */
  lemma {:induction false} FoundIsFirstWanted(f: Forest, t: Node, top: Node, node: Node, q: Query, d: Descend)
    requires WellFormed(f) && t in f.kids && node in f.kids && node in Preorder(f, t) && (q.attr == None ==> q.value == None)
    ensures var r := Found(f, Values(f), t, top, node, q, d);
            (d == DescendFirst && f.kids[node] != [] ==> FirstWanted(r, f.kids[node], q)) &&
            (d == NoDescend || (d == DescendFirst && f.kids[node] == []) ==> FirstWanted(r, Following(f, t, node), q)) &&
            (d == Descend && t == top ==> FirstWanted(r, Preorder(f, t)[Index(Preorder(f, t), node) + 1..], q)) &&
            (d == Descend ==> FirstWanted(r, Walked(f, t, top, node), q))
  {
    hide WellFormed, Preorder, Index, Following, FirstWanted, FirstMatch, Values, Walked;
    var s := Candidates(f, t, top, node, d);
    forall k | 0 <= k < |s|
      ensures s[k] in f.kids
    {
      CandidatesInForest(f, t, top, node, d, k);
    }
    FirstMatchWanted(f, s, q);
    CandidatesAre(f, t, top, node, d);
  }

  /** `mxmlFindElement`; `t` is the node that bounds the walk: `top`, or for a node outside the subtree
      of `top` the root of its tree. */
  method FindElement(node: Node?, top: Node?, q: Query, d: Descend, ghost f: Forest, ghost t: Node) returns (r: Node?)
    requires WellFormed(f) && Linked(f)
    requires node != null && top != null ==> Bounds(f, t, top, node)
    ensures r == if node == null || top == null then null else Found(f, Values(f), t, top, node, q, d)
    ensures q.attr == None && q.value.Some? ==> r == null
    ensures node != null && top != null && (q.attr == None ==> q.value == None) ==>
              && (d == DescendFirst && f.kids[node] != [] ==> FirstWanted(r, f.kids[node], q))
              && (d == NoDescend || (d == DescendFirst && f.kids[node] == []) ==> FirstWanted(r, Following(f, t, node), q))
              && (d == Descend && t == top ==> FirstWanted(r, Preorder(f, t)[Index(Preorder(f, t), node) + 1..], q))
              && (d == Descend ==> FirstWanted(r, Walked(f, t, top, node), q))
  {
    hide WellFormed, Preorder, PrevOf, NextOf, FirstOf, LastOf, ParentOf, Index, Linked, Matches, SiblingsFrom, FirstMatch,
         Behind, Walked, NextPosition, Values, Bounds, Following, FirstWanted;
    if node == null || top == null || (q.attr == None && q.value.Some?) {
      return null;
    }
    BoundsFacts(f, t, top, node);
    r := WalkNext(node, top, d != NoDescend, f, t);
    ghost var vals := Values(f);
    ghost var rest := Candidates(f, t, top, node, d);
    ghost var b := t;
    if d == Descend {
      WalkedNext(f, t, top, node);
      if r != null {
        b := BoundAt(f, t, top, r);
        BoundsFacts(f, b, top, r);
      }
    } else {
      FirstStep(f, t, top, node, d);
      NoSiblings(f);
    }
    while r != null
      invariant Found(f, vals, t, top, node, q, d) == FirstMatch(rest, vals, 0, q)
      invariant r == null <==> rest == []
      invariant r != null ==> r in f.kids && rest[0] == r
      invariant if d == Descend then r != null ==> Bounds(f, b, top, r) && b in f.kids && r in Preorder(f, b) &&
                                                   rest == [r] + Walked(f, b, top, r)
                else rest == SiblingsFrom(f, r)
      decreases |rest|
    {
      var found := IsMatch(r, q);
      ValueOf(f, r);
      FirstMatchCons(rest, vals, q);
      if found {
        FoundIsFirstWanted(f, t, top, node, q, d);
        return r;
      }
      if d == Descend {
        ghost var x := r;
        WalkedNext(f, b, top, r);
        assert rest[1..] == Walked(f, b, top, r);
        r := WalkNext(r, top, true, f, b);
        if r != null {
          b := BoundAt(f, b, top, r);
          BoundsFacts(f, b, top, r);
        }
      } else {
        LinkedAt(f, r);
        NextSibling(f, r);
        NoSiblings(f);
        r := r.next;
      }
      rest := rest[1..];
    }
    NoMatchInEmpty(vals, q);
    FoundIsFirstWanted(f, t, top, node, q, d);
    return null;
  }

  lemma {:induction false} BoundedByTop(f: Forest, top: Node, x: Node)
    requires WellFormed(f) && top in f.kids && x in f.kids && x in Preorder(f, top)
    ensures Bounds(f, top, top, x)
  {
  }

  lemma {:induction false} BoundsFacts(f: Forest, t: Node, top: Node, x: Node)
    requires WellFormed(f) && Bounds(f, t, top, x)
    ensures t in f.kids && x in f.kids && x in Preorder(f, t)
  {
  }

  lemma {:induction false} FirstStep(f: Forest, t: Node, top: Node, node: Node, d: Descend)
    requires WellFormed(f) && Bounds(f, t, top, node) && d != Descend
    ensures var r := At(Preorder(f, t), NextPosition(f, t, node, d != NoDescend));
            Candidates(f, t, top, node, d) == SiblingsFrom(f, r) && (r != null ==> r in f.kids)
  {
    hide Preorder;
    var i := NextPosition(f, t, node, d != NoDescend);
    if i < |Preorder(f, t)| {
      Span(f, t, i);
    }
  }

  lemma {:induction false} NoSiblings(f: Forest)
    requires WellFormed(f)
    ensures SiblingsFrom(f, null) == []
  {
  }

  lemma {:induction false} NoMatchInEmpty(vals: map<Node, NodeValue>, q: Query)
    ensures FirstMatch([], vals, 0, q) == null
  {
  }

  /** The test in the loop of `mxmlFindElement` */
  method IsMatch(node: Node, q: Query) returns (b: bool)
    ensures b == Matches(node.value, q)
  {
    if node.value.ElementValue? && (q.name == None || q.name.value == node.value.name) {
      if q.attr == None {
        return true;
      }
      var temp := ElementGetAttr(node, q.attr);
      if temp.Some? {
        return q.value == None || q.value.value == temp.value;
      }
    }
    return false;
  }
}
