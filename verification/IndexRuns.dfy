/** Whole runs over an index: from `mxmlIndexReset` through repeated `mxmlIndexFind` to the end. */
module IndexRuns {
  import opened Options
  import opened Trees
  import opened Forests
  import opened ForestOps
  import opened Finding
  import opened Sorting
  import opened IndexSearch
  import opened Indexes
  import opened IndexBuild

  /** The linear scan that a search stands for: the matching nodes from position `i` on */
  ghost function MatchingFrom(s: seq<Node>, key: map<Node, Key>, t: Target, i: nat): seq<Node>
    requires forall j :: 0 <= j < |s| ==> s[j] in key
    decreases |s| - i
  {
    if i >= |s| then [] else (if Hit(t, key[s[i]]) then [s[i]] else []) + MatchingFrom(s, key, t, i + 1)
  }

  lemma {:induction false} HitsAreMatches(s: seq<Node>, key: map<Node, Key>, t: Target, i: nat, n: nat)
    requires forall j :: 0 <= j < |s| ==> s[j] in key
    ensures |Hits(KeySeq(s, key), t, i)| == |MatchingFrom(s, key, t, i)|
    ensures n < |MatchingFrom(s, key, t, i)| ==>
              Hits(KeySeq(s, key), t, i)[n] < |s| && s[Hits(KeySeq(s, key), t, i)[n]] == MatchingFrom(s, key, t, i)[n]
    decreases |s| - i
  {
    hide *;
    OneMore(s, key, t, i);
    if i < |s| {
      if Hit(t, key[s[i]]) {
        HitsAreMatches(s, key, t, i + 1, if n > 0 then n - 1 else 0);
      } else {
        HitsAreMatches(s, key, t, i + 1, n);
      }
    }
  }

  lemma {:induction false} OneMore(s: seq<Node>, key: map<Node, Key>, t: Target, i: nat)
    requires forall j :: 0 <= j < |s| ==> s[j] in key
    ensures i >= |s| ==> Hits(KeySeq(s, key), t, i) == [] && MatchingFrom(s, key, t, i) == []
    ensures i < |s| && Hit(t, key[s[i]]) ==>
              Hits(KeySeq(s, key), t, i) == [i] + Hits(KeySeq(s, key), t, i + 1) &&
              MatchingFrom(s, key, t, i) == [s[i]] + MatchingFrom(s, key, t, i + 1)
    ensures i < |s| && !Hit(t, key[s[i]]) ==>
              Hits(KeySeq(s, key), t, i) == Hits(KeySeq(s, key), t, i + 1) &&
              MatchingFrom(s, key, t, i) == MatchingFrom(s, key, t, i + 1)
  {
    hide Hit, KeySeq;
    if i < |s| {
      assert KeySeq(s, key)[i] == key[s[i]];
    }
  }

  /** What call number `n` answers, when the cursor stands where `k` calls have left it */
  ghost predicate CursorAfter(ks: seq<Key>, hasAttr: bool, t: Target, cur: nat, k: nat) {
    forall n: nat :: Nth(ks, hasAttr, t, cur, n) == Nth(ks, hasAttr, t, 0, k + n)
  }

  lemma {:induction false} CursorMoves(ks: seq<Key>, hasAttr: bool, t: Target, cur: nat, k: nat)
    requires CursorAfter(ks, hasAttr, t, cur, k)
    ensures FindStep(ks, hasAttr, t, cur).0 == Nth(ks, hasAttr, t, 0, k)
    ensures CursorAfter(ks, hasAttr, t, FindStep(ks, hasAttr, t, cur).1, k + 1)
  {
    hide FindStep;
    assert Nth(ks, hasAttr, t, cur, 0) == Nth(ks, hasAttr, t, 0, k + 0);
    forall n: nat
      ensures Nth(ks, hasAttr, t, FindStep(ks, hasAttr, t, cur).1, n) == Nth(ks, hasAttr, t, 0, k + 1 + n)
    {
      assert Nth(ks, hasAttr, t, cur, n + 1) == Nth(ks, hasAttr, t, 0, k + (n + 1));
    }
  }

  /** The answers of the whole run, by the linear scan */
  lemma {:induction false} AnswersAre(s: seq<Node>, key: map<Node, Key>, hasAttr: bool, t: Target, n: nat)
    requires forall j :: 0 <= j < |s| ==> s[j] in key
    requires Enumerates(KeySeq(s, key), hasAttr, t)
    ensures var all := MatchingFrom(s, key, t, 0); var r := Nth(KeySeq(s, key), hasAttr, t, 0, n);
            if n < |all| then r.Some? && r.value < |s| && s[r.value] == all[n] else r == None
  {
    hide Nth, Hits, MatchingFrom;
    HitsAreMatches(s, key, t, 0, n);
  }

  /** Resetting the index and finding until the answer is null collects exactly the nodes that a
      linear scan of the index finds, in the same order. */
  method FindAll(ind: NodeIndex, t: Target, ghost key: map<Node, Key>) returns (found: seq<Node>)
    requires ind.Valid(key) && SortedKeys(ind.Keys(key)) && Proper(ind.attr.Some?, t)
    requires t.element.Some? || forall i, j :: 0 <= i < |ind.Keys(key)| && 0 <= j < |ind.Keys(key)| ==>
                                                 ind.Keys(key)[i].name == ind.Keys(key)[j].name
    modifies ind`curNode
    ensures found == MatchingFrom(ind.nodes[..ind.numNodes], key, t, 0)
  {
    hide KeyOf, HasKey, FindStep, Enumerates, MatchingFrom, CursorAfter, SortedKeys;
    ghost var s := ind.nodes[..ind.numNodes];
    ghost var ks := ind.Keys(key);
    ghost var all := MatchingFrom(s, key, t, 0);
    ghost var hasAttr := ind.attr.Some?;
    FindEnumerates(ks, hasAttr, t);
    found := [];
    var _ := ind.Reset();
    CursorStart(ks, hasAttr, t);
    AnswersAre(s, key, hasAttr, t, 0);
    CursorMoves(ks, hasAttr, t, 0, 0);
    var r := ind.Find(t, key);
    while r != null
      invariant ind.Valid(key) && ind.Keys(key) == ks && ind.nodes[..ind.numNodes] == s
      invariant |found| <= |all| && found == all[..|found|]
      invariant r == if |found| < |all| then all[|found|] else null
      invariant CursorAfter(ks, hasAttr, t, ind.curNode, |found| + 1)
      decreases |all| - |found|
    {
      found := found + [r];
      AnswersAre(s, key, hasAttr, t, |found|);
      CursorMoves(ks, hasAttr, t, ind.curNode, |found|);
      r := ind.Find(t, key);
    }
  }

  lemma {:induction false} CursorStart(ks: seq<Key>, hasAttr: bool, t: Target)
    ensures CursorAfter(ks, hasAttr, t, 0, 0)
  {
    hide FindStep;
  }

  // ----- from the tree to the answers -----

  /** What a search for `t` in an index on `attr` looks for in the tree */
  function QueryOf(attr: Option<string>, t: Target): Query {
    Query(t.element, attr, t.value)
  }

  /** On an indexed node the comparison of keys is the comparison of names and attribute values. */
  lemma {:induction false} HitIsMatch(v: NodeValue, attr: Option<string>, t: Target)
    requires HasKey(v, attr) && (t.value.Some? ==> attr.Some?)
    ensures Hit(t, KeyOf(v, attr)) <==> Matches(v, QueryOf(attr, t))
  {
  }

  lemma {:induction false} MatchingIsFilter(s: seq<Node>, key: map<Node, Key>, vals: map<Node, NodeValue>, attr: Option<string>, t: Target, i: nat)
    requires i <= |s| && (t.value.Some? ==> attr.Some?)
    requires forall j :: 0 <= j < |s| ==> s[j] in vals && HasKey(vals[s[j]], attr) && s[j] in key && key[s[j]] == KeyOf(vals[s[j]], attr)
    ensures MatchingFrom(s, key, t, i) == Filter(s[i..], vals, QueryOf(attr, t))
    decreases |s| - i
  {
    hide Hit, Matches, HasKey, KeyOf, QueryOf;
    if i < |s| {
      MatchingIsFilter(s, key, vals, attr, t, i + 1);
      HitIsMatch(vals[s[i]], attr, t);
      assert s[i..][1..] == s[i + 1..];
    }
  }

  /** The first node, if it matches */
  ghost function HeadMatch(x: Node, vals: map<Node, NodeValue>, q: Query): seq<Node> {
    if MatchesAt(vals, x, q) then [x] else []
  }

  lemma {:induction false} FilterHead(x: Node, rest: seq<Node>, vals: map<Node, NodeValue>, q: Query)
    ensures Filter([x] + rest, vals, q) == HeadMatch(x, vals, q) + Filter(rest, vals, q)
  {
    hide MatchesAt;
    assert ([x] + rest)[1..] == rest;
  }

  lemma {:induction false} FilterNothing(vals: map<Node, NodeValue>, q: Query)
    ensures Filter([], vals, q) == []
  {
  }

  lemma {:induction false} FilterAppend(a: seq<Node>, b: seq<Node>, vals: map<Node, NodeValue>, q: Query)
    ensures Filter(a + b, vals, q) == Filter(a, vals, q) + Filter(b, vals, q)
  {
    hide *;
    if a == [] {
      assert a + b == b;
      FilterNothing(vals, q);
    } else {
      assert a == [a[0]] + a[1..] && a + b == [a[0]] + (a[1..] + b);
      FilterHead(a[0], a[1..], vals, q);
      FilterHead(a[0], a[1..] + b, vals, q);
      FilterAppend(a[1..], b, vals, q);
    }
  }

  lemma {:induction false} DropOne(s: seq<Node>, u: seq<Node>) returns (a: seq<Node>, b: seq<Node>)
    requires s != [] && multiset(s) == multiset(u)
    ensures u == a + ([s[0]] + b) && multiset(s[1..]) == multiset(a + b)
  {
    var x := s[0];
    assert x in multiset(u);
    var i :| 0 <= i < |u| && u[i] == x;
    a, b := u[..i], u[i + 1..];
    CountOf(x, s[1..]);
    CountOf(x, b);
    assert s == [x] + s[1..] && u == a + ([x] + b);
    assert multiset(u) == multiset(a) + multiset([x] + b);
    Cancel(x, multiset(s[1..]), multiset(a), multiset(b));
  }

  lemma {:induction false} CountOf(x: Node, s: seq<Node>)
    ensures multiset([x] + s) == multiset{x} + multiset(s)
  {
  }

  lemma {:induction false} Cancel(x: Node, a: multiset<Node>, b: multiset<Node>, c: multiset<Node>)
    requires multiset{x} + a == b + (multiset{x} + c)
    ensures a == b + c
  {
    assert multiset{x} + a - multiset{x} == a;
    assert b + (multiset{x} + c) - multiset{x} == b + c;
  }

  lemma {:induction false} FilterPermuted(s: seq<Node>, u: seq<Node>, vals: map<Node, NodeValue>, q: Query)
    requires multiset(s) == multiset(u)
    ensures multiset(Filter(s, vals, q)) == multiset(Filter(u, vals, q))
    decreases |s|
  {
    hide *;
    if s == [] {
      assert |multiset(u)| == 0;
    } else {
      var x := s[0];
      var a, b := DropOne(s, u);
      assert s == [x] + s[1..];
      FilterPermuted(s[1..], a + b, vals, q);
      FilterHead(x, s[1..], vals, q);
      FilterHead(x, b, vals, q);
      FilterAppend(a, b, vals, q);
      FilterAppend(a, [x] + b, vals, q);
    }
  }

  /** All indexed names are equal when the index is on one element name. */
  lemma {:induction false} OneName(f: Forest, vals: map<Node, NodeValue>, node: Node, q: Query, x: Node)
    requires WellFormed(f) && node in f.kids && node in Preorder(f, node) && q.name.Some?
    requires x in Collected(f, vals, node, q)
    ensures x in vals && vals[x].ElementValue? && vals[x].name == q.name.value
  {
    hide Preorder;
    CollectedExactly(f, vals, node, q, x);
  }

  /** Main result: building an index of a tree and finding in it until the answer is null delivers the
      nodes that a linear search of the tree delivers: those that the index is on and that have the
      name and the attribute value looked for, each once. */
  method BuildAndFindAll(node: Node, q: Query, t: Target, ghost f: Forest) returns (found: seq<Node>)
    requires WellFormed(f) && Linked(f) && node in f.kids && node in Preorder(f, node) && q.value == None
    requires q.name == None && q.attr == None ==> node.value.ElementValue?
    requires Proper(q.attr.Some?, t) && (t.element.Some? || q.name.Some?)
    ensures multiset(found) == multiset(Filter(Collected(f, Values(f), node, q), Values(f), QueryOf(q.attr, t)))
  {
    hide *;
    ghost var vals := Values(f);
    ghost var all := Collected(f, vals, node, q);
    var ind, key := IndexNew(node, q, f);
    UsedPart(ind, key);
    ghost var s := ind.nodes[..ind.numNodes];
    IndexedNodes(ind, key, f, vals, node, q);
    found := FindAll(ind, t, key);
    ProperFacts(q.attr.Some?, t);
    MatchingIsFilter(s, key, vals, q.attr, t, 0);
    assert s[0..] == s;
    FilterPermuted(s, all, vals, QueryOf(q.attr, t));
  }

  lemma {:induction false} UsedPart(ind: NodeIndex, key: map<Node, Key>)
    requires ind.Valid(key)
    ensures ind.numNodes <= ind.nodes.Length
  {
  }

  lemma {:induction false} ProperFacts(hasAttr: bool, t: Target)
    requires Proper(hasAttr, t)
    ensures t.value.Some? ==> hasAttr
  {
  }

  /** What is known about the nodes of a new index */
  lemma {:induction false} IndexedNodes(ind: NodeIndex, key: map<Node, Key>, f: Forest, vals: map<Node, NodeValue>, node: Node, q: Query)
    requires WellFormed(f) && node in f.kids && node in Preorder(f, node) && vals == Values(f)
    requires ind.Valid(key) && ind.attr == q.attr
    requires multiset(ind.nodes[..ind.numNodes]) == multiset(Collected(f, vals, node, q))
    ensures var s := ind.nodes[..ind.numNodes];
            forall j :: 0 <= j < |s| ==> s[j] in vals && HasKey(vals[s[j]], q.attr) && s[j] in key && key[s[j]] == KeyOf(vals[s[j]], q.attr)
    ensures q.name.Some? ==>
              forall i, j :: 0 <= i < |ind.Keys(key)| && 0 <= j < |ind.Keys(key)| ==> ind.Keys(key)[i].name == ind.Keys(key)[j].name
  {
    hide Preorder, HasKey, Collected, Matches;
    var s := ind.nodes[..ind.numNodes];
    var all := Collected(f, vals, node, q);
    forall j | 0 <= j < |s|
      ensures s[j] in vals && HasKey(vals[s[j]], q.attr) && s[j] in key && key[s[j]] == KeyOf(vals[s[j]], q.attr)
      ensures q.name.Some? ==> ind.Keys(key)[j].name == q.name.value
    {
      assert s[j] in multiset(s);
      assert s[j] in all;
      CollectedExactly(f, vals, node, q, s[j]);
      InValues(f, vals, node, q, s[j]);
      if q.name.Some? {
        OneName(f, vals, node, q, s[j]);
        KeyName(vals[s[j]], q.attr);
      }
    }
  }

  lemma {:induction false} KeyName(v: NodeValue, attr: Option<string>)
    requires HasKey(v, attr)
    ensures v.ElementValue? && KeyOf(v, attr).name == v.name
  {
  }

  lemma {:induction false} InValues(f: Forest, vals: map<Node, NodeValue>, node: Node, q: Query, x: Node)
    requires WellFormed(f) && node in f.kids && node in Preorder(f, node) && vals == Values(f)
    requires x in Collected(f, vals, node, q)
    ensures x in vals && vals[x] == x.value
  {
    hide Preorder;
    CollectedExactly(f, vals, node, q, x);
  }
}
