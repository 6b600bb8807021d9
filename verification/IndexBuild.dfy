/** mxmlIndexNew: the index holds exactly the elements that a walk over the tree finds, sorted. */
module IndexBuild {
  import opened Options
  import opened Chars
  import opened Trees
  import opened Attributes
  import opened Forests
  import opened ForestOrder
  import opened ForestOps
  import opened Nodes
  import opened Search
  import opened Finding
  import opened Sorting
  import opened IndexSearch
  import opened Indexes

  /** The nodes of `s` that match, in order */
  ghost function Filter(s: seq<Node>, vals: map<Node, NodeValue>, q: Query): seq<Node> {
    if s == [] then []
    else (if MatchesAt(vals, s[0], q) then [s[0]] else []) + Filter(s[1..], vals, q)
  }

  /** What an index on `element` and `attr` is to contain, in document order: every matching node
      below `node`, and `node` itself if all elements are asked for */
  ghost function Collected(f: Forest, vals: map<Node, NodeValue>, node: Node, q: Query): seq<Node>
    requires WellFormed(f) && node in f.kids && node in Preorder(f, node)
  {
    (if q.name == None && q.attr == None then [node] else []) + Filter(Behind(f, node, node), vals, q)
  }

  /** The first match and the rest, for a part of the walk that starts behind `x` */
  lemma {:induction false} FilterFirst(f: Forest, top: Node, x: Node, vals: map<Node, NodeValue>, q: Query)
    requires WellFormed(f) && top in f.kids && x in f.kids && x in Preorder(f, top)
    ensures var r := FirstMatch(Behind(f, top, x), vals, 0, q);
            if r == null then Filter(Behind(f, top, x), vals, q) == []
            else r in f.kids && r in Preorder(f, top) && MatchesAt(vals, r, q) &&
                 Index(Preorder(f, top), x) < Index(Preorder(f, top), r) &&
                 Filter(Behind(f, top, x), vals, q) == [r] + Filter(Behind(f, top, r), vals, q)
    decreases |Preorder(f, top)| - Index(Preorder(f, top), x)
  {
    hide Preorder, Index, Behind, FirstMatch;
    var s := Behind(f, top, x);
    BehindNext(f, top, x);
    if s == [] {
      NoMatchInEmpty(vals, q);
    } else {
      var y := s[0];
      assert s[1..] == Behind(f, top, y);
      FirstMatchCons(s, vals, q);
      NextIndex(f, top, x);
      if !MatchesAt(vals, y, q) {
        FilterFirst(f, top, y, vals, q);
      }
    }
  }

  lemma {:induction false} NextIndex(f: Forest, top: Node, x: Node)
    requires WellFormed(f) && top in f.kids && x in f.kids && x in Preorder(f, top)
    ensures Behind(f, top, x) != [] ==>
              Behind(f, top, x)[0] in Preorder(f, top) &&
              Index(Preorder(f, top), Behind(f, top, x)[0]) == Index(Preorder(f, top), x) + 1
  {
    hide Preorder;
    PreorderDistinct(f, top);
    if Behind(f, top, x) != [] {
      IndexUnique(Preorder(f, top), Index(Preorder(f, top), x) + 1);
    }
  }

  lemma {:induction false} FoundBehind(f: Forest, vals: map<Node, NodeValue>, top: Node, x: Node, q: Query)
    requires WellFormed(f) && top in f.kids && x in f.kids && x in Preorder(f, top) && q.value == None
    ensures Found(f, vals, top, top, x, q, Descend) == FirstMatch(Behind(f, top, x), vals, 0, q)
  {
    hide FirstMatch, Preorder;
    WalkedInside(f, top, x);
  }

  /** The keys of all nodes that have one */
  ghost function AllKeys(f: Forest, attr: Option<string>): map<Node, Key>
    reads f.kids.Keys
  {
    map x | x in f.kids && HasKey(x.value, attr) :: KeyOf(x.value, attr)
  }

  /** A node that can be put into an index on `attr` */
  ghost predicate Ready(x: Node, attr: Option<string>, key: map<Node, Key>)
    reads x
  {
    HasKey(x.value, attr) && x in key && key[x] == KeyOf(x.value, attr)
  }

  /** The next call of `mxmlFindElement` from `x` finds the next node to be collected. */
  lemma {:induction false} NextFound(f: Forest, top: Node, x: Node, q: Query)
    requires WellFormed(f) && top in f.kids && x in f.kids && x in Preorder(f, top) && q.value == None
    ensures var vals := Values(f); var r := Found(f, vals, top, top, x, q, Descend);
            if r == null then Filter(Behind(f, top, x), vals, q) == []
            else r in f.kids && r in Preorder(f, top) && Ready(r, q.attr, AllKeys(f, q.attr)) &&
                 Index(Preorder(f, top), x) < Index(Preorder(f, top), r) < |Preorder(f, top)| &&
                 Filter(Behind(f, top, x), vals, q) == [r] + Filter(Behind(f, top, r), vals, q)
  {
    hide Found, FirstMatch, Preorder, Index, Behind, Filter, Matches, HasKey, AllKeys;
    var vals := Values(f);
    FoundBehind(f, vals, top, x, q);
    FilterFirst(f, top, x, vals, q);
    var r := Found(f, vals, top, top, x, q, Descend);
    if r != null {
      MatchHasKey(f, r, q);
    }
  }

  lemma {:induction false} MatchHasKey(f: Forest, x: Node, q: Query)
    requires x in f.kids && Matches(x.value, q)
    ensures HasKey(x.value, q.attr) && x in AllKeys(f, q.attr) && AllKeys(f, q.attr)[x] == KeyOf(x.value, q.attr)
  {
  }

  /** `realloc`: 64 more places; the new ones are set to `filler` until they are used. */
  method Grow(nodes: array<Node>, num: nat, filler: Node) returns (temp: array<Node>)
    requires num <= nodes.Length
    ensures fresh(temp) && temp.Length == nodes.Length + 64
    ensures forall i :: 0 <= i < num ==> temp[i] == nodes[i]
    ensures forall i :: num <= i < temp.Length ==> temp[i] == filler
  {
    temp := new Node[nodes.Length + 64](_ => filler);
    var i := 0;
    while i < num
      invariant 0 <= i <= num
      invariant forall k :: 0 <= k < i ==> temp[k] == nodes[k]
      invariant forall k :: i <= k < temp.Length ==> temp[k] == filler
    {
      temp[i] := nodes[i];
      i := i + 1;
    }
  }

  /** The array has `node` at the end of its used part, and nothing but nodes with keys. */
  method Append(nodes: array<Node>, num: nat, node: Node, attr: Option<string>, ghost key: map<Node, Key>)
      returns (nodes': array<Node>)
    requires num <= nodes.Length && Keyed(nodes[..], attr, key)
    requires Ready(node, attr, key)
    modifies nodes
    ensures nodes' == nodes || fresh(nodes')
    ensures nodes'.Length == if num >= nodes.Length then nodes.Length + 64 else nodes.Length
    ensures num < nodes'.Length && nodes'[..num + 1] == old(nodes[..num]) + [node]
    ensures Keyed(nodes'[..], attr, key)
  {
    hide KeyOf, HasKey;
    nodes' := nodes;
    ghost var s := nodes[..];
    if num >= nodes.Length {
      nodes' := Grow(nodes, num, node);
    }
    nodes'[num] := node;
    forall i | 0 <= i < nodes'.Length
      ensures HasKey(nodes'[i].value, attr) && nodes'[i] in key && key[nodes'[i]] == KeyOf(nodes'[i].value, attr)
    {
      if i < num || (i < |s| && i != num) {
        assert nodes'[i] == s[i];
      } else {
        assert nodes'[i] == node;
      }
    }
    assert nodes'[..num + 1] == s[..num] + [node];
  }

  lemma {:induction false} SortedToKeys(s: seq<Node>, num: nat, attr: Option<string>, key: map<Node, Key>)
    requires num <= |s| && Keyed(s, attr, key) && Sorted(s, key, 0, num - 1)
    ensures SortedKeys(KeySeq(s[..num], key))
  {
    hide Compare, KeyOf, HasKey;
    forall i, j | 0 <= i < j < num
      ensures Compare(KeySeq(s[..num], key)[i], KeySeq(s[..num], key)[j]) <= 0
    {
      assert AtMost(key, s[i], s[j]);
    }
  }

  lemma {:induction false} KeyedPrefix(s: seq<Node>, num: nat, attr: Option<string>, key: map<Node, Key>)
    requires num <= |s| && Keyed(s, attr, key)
    ensures Keyed(s[..num], attr, key)
  {
    hide KeyOf, HasKey;
  }

  lemma {:induction false} PermutedPrefix(s: seq<Node>, t: seq<Node>, num: nat)
    requires num <= |s| && Permuted(s, t, 0, num - 1)
    ensures |t| == |s| && multiset(s[..num]) == multiset(t[..num])
  {
    assert s[0..num] == s[..num] && t[0..num] == t[..num];
  }

  lemma {:induction false} CollectedIs(f: Forest, vals: map<Node, NodeValue>, node: Node, q: Query)
    requires WellFormed(f) && node in f.kids && node in Preorder(f, node)
    ensures Collected(f, vals, node, q)
         == (if q.name == None && q.attr == None then [node] else []) + Filter(Behind(f, node, node), vals, q)
  {
  }

  /** The nodes are linked as `f` says, hold `vals`, and have the keys `key`. */
  ghost predicate Pictured(f: Forest, vals: map<Node, NodeValue>, key: map<Node, Key>, attr: Option<string>)
    reads f.kids.Keys
  {
    WellFormed(f) && Linked(f) && vals == Values(f) && key == AllKeys(f, attr)
  }

  lemma {:induction false} PicturedParts(f: Forest, vals: map<Node, NodeValue>, key: map<Node, Key>, attr: Option<string>)
    requires Pictured(f, vals, key, attr)
    ensures WellFormed(f) && Linked(f) && vals == Values(f) && key == AllKeys(f, attr)
  {
  }

  lemma {:induction false} Picture(f: Forest, attr: Option<string>)
    requires WellFormed(f) && Linked(f)
    ensures Pictured(f, Values(f), AllKeys(f, attr), attr)
  {
  }

  /** The call of `mxmlFindElement` that leads from one collected node to the next */
  method NextMatch(current: Node, node: Node, q: Query, ghost f: Forest, ghost vals: map<Node, NodeValue>, ghost key: map<Node, Key>)
      returns (r: Node?)
    requires WellFormed(f) && Pictured(f, vals, key, q.attr) && q.value == None
    requires node in f.kids && current in f.kids && current in Preorder(f, node)
    ensures if r == null then Filter(Behind(f, node, current), vals, q) == []
            else r in f.kids && r in Preorder(f, node) && Ready(r, q.attr, key) &&
                 Index(Preorder(f, node), current) < Index(Preorder(f, node), r) < |Preorder(f, node)| &&
                 Filter(Behind(f, node, current), vals, q) == [r] + Filter(Behind(f, node, r), vals, q)
  {
    hide *;
    PicturedParts(f, vals, key, q.attr);
    NextFound(f, node, current, q);
    BoundedByTop(f, node, current);
    r := FindElement(current, node, q, Descend, f, node);
  }

  /** The part of `mxmlIndexNew` that fills the array, in document order */
  method Collect(node: Node, q: Query, ghost f: Forest) returns (nodes: array<Node>, num: nat)
    requires WellFormed(f) && Linked(f) && q.value == None
    requires node in f.kids && node in Preorder(f, node)
    requires q.name == None && q.attr == None ==> node.value.ElementValue?
    ensures fresh(nodes) && num <= nodes.Length < num + 64 && nodes.Length % 64 == 0
    ensures Keyed(nodes[..], q.attr, AllKeys(f, q.attr))
    ensures nodes[..num] == Collected(f, Values(f), node, q)
  {
    hide *;
    ghost var key := AllKeys(f, q.attr);
    ghost var vals := Values(f);
    ghost var total := Collected(f, vals, node, q);
    Picture(f, q.attr);
    nodes := new Node[0];
    num := 0;
    ghost var steps := 0;
    assert Keyed(nodes[..], q.attr, key) by { NothingKeyed(q.attr, key); assert nodes[..] == []; }
    var current: Node?;
    CollectedIs(f, vals, node, q);
    if q.name == None && q.attr == None {
      current := node;
      ElementMatches(f, node, q);
    } else {
      current := NextMatch(node, node, q, f, vals, key);
    }
    while current != null
      invariant num <= nodes.Length < num + 64 && nodes.Length == 64 * steps && fresh(nodes) && Keyed(nodes[..], q.attr, key)
      invariant Pictured(f, vals, key, q.attr)
      invariant current != null ==> current in f.kids && current in Preorder(f, node) && Ready(current, q.attr, key)
      invariant total == nodes[..num] + (if current == null then [] else [current] + Filter(Behind(f, node, current), vals, q))
      decreases if current == null then 0 else |Preorder(f, node)| - Index(Preorder(f, node), current)
    {
      if num >= nodes.Length {
        steps := steps + 1;
      }
      nodes := Append(nodes, num, current, q.attr, key);
      num := num + 1;
      current := NextMatch(current, node, q, f, vals, key);
    }
  }

  /** `mxmlIndexNew` for the element name `q.name` and the attribute `q.attr`. If neither is given,
      `node` itself is indexed too, and so has to be an element. */
  method IndexNew(node: Node?, q: Query, ghost f: Forest) returns (ind: NodeIndex?, ghost key: map<Node, Key>)
    requires WellFormed(f) && Linked(f) && q.value == None
    requires node != null ==> node in f.kids && node in Preorder(f, node)
    requires node != null && q.name == None && q.attr == None ==> node.value.ElementValue?
    ensures node == null ==> ind == null
    ensures node != null ==> ind != null && fresh(ind) && fresh(ind.nodes) && ind.attr == q.attr && ind.curNode == 0
    ensures node != null ==> ind.Valid(key) && SortedKeys(ind.Keys(key))
    ensures node != null ==> multiset(ind.nodes[..ind.numNodes]) == multiset(Collected(f, Values(f), node, q))
  {
    hide WellFormed, Preorder, Linked, Keyed, Permuted, Sorted, SortedKeys, AllKeys, Collected, Values;
    key := map[];
    if node == null {
      return null, key;
    }
    key := AllKeys(f, q.attr);
    var nodes, num := Collect(node, q, f);
    ghost var before := nodes[..];
    PermutedReflexive0(before, num);
    if num > 1 {
      IndexSort(nodes, q.attr, 0, num - 1, key);
      KeyedPermuted(before, nodes[..], 0, num - 1, q.attr, key);
    } else {
      SortedSmall(before, q.attr, key, 0, num as int - 1);
    }
    PermutedPrefix(before, nodes[..], num);
    KeyedPrefix(nodes[..], num, q.attr, key);
    SortedToKeys(nodes[..], num, q.attr, key);
    ind := new NodeIndex(q.attr, nodes, num);
  }

  lemma {:induction false} PermutedReflexive0(s: seq<Node>, num: nat)
    requires num <= |s|
    ensures Permuted(s, s, 0, num - 1)
  {
  }

  lemma {:induction false} NothingKeyed(attr: Option<string>, key: map<Node, Key>)
    ensures Keyed([], attr, key)
  {
  }

  lemma {:induction false} ElementMatches(f: Forest, x: Node, q: Query)
    requires x in f.kids && x.value.ElementValue? && q.name == None && q.attr == None
    ensures Ready(x, q.attr, AllKeys(f, q.attr))
  {
  }

  // ----- what the index holds -----

  lemma {:induction false} FilterHas(s: seq<Node>, vals: map<Node, NodeValue>, q: Query, x: Node)
    ensures x in Filter(s, vals, q) <==> x in s && MatchesAt(vals, x, q)
    ensures Distinct(s) ==> Distinct(Filter(s, vals, q))
  {
    hide MatchesAt;
    if s != [] {
      FilterHas(s[1..], vals, q, x);
      FilterHas(s[1..], vals, q, s[0]);
    }
  }

  /** An index lists each node once: the matching nodes below `node`, and `node` itself exactly if
      neither an element name nor an attribute was given. */
  lemma {:induction false} CollectedExactly(f: Forest, vals: map<Node, NodeValue>, node: Node, q: Query, x: Node)
    requires WellFormed(f) && node in f.kids && node in Preorder(f, node)
    ensures x in Collected(f, vals, node, q) <==>
              (x != node && x in Preorder(f, node) && MatchesAt(vals, x, q)) || (x == node && q.name == None && q.attr == None)
    ensures Distinct(Collected(f, vals, node, q))
  {
    hide Preorder, MatchesAt, Filter;
    var order := Preorder(f, node);
    PreorderDistinct(f, node);
    EndOfOrder(f, node);
    assert order == [node] + Behind(f, node, node);
    FilterHas(Behind(f, node, node), vals, q, x);
    FilterHas(Behind(f, node, node), vals, q, node);
    assert node !in Behind(f, node, node);
  }
}
