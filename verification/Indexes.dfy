/** mxml-index.c: building an index of the elements of a tree, and going through it. */
module Indexes {
  import opened Options
  import opened Chars
  import opened Trees
  import opened Attributes
  import opened Forests
  import opened ForestOrder
  import opened ForestOps
  import opened Nodes
  import opened Search
  import opened Finding
  import opened Sorting
  import opened IndexSearch

  /** The keys of the nodes of `s`, in order */
  ghost function KeySeq(s: seq<Node>, key: map<Node, Key>): (ks: seq<Key>)
    requires forall i :: 0 <= i < |s| ==> s[i] in key
    ensures |ks| == |s| && forall i :: 0 <= i < |s| ==> ks[i] == key[s[i]]
  {
    seq(|s|, i requires 0 <= i < |s| => key[s[i]])
  }

  /** `index_find` on the value of a node */
  function CompareValue(attr: Option<string>, t: Target, v: NodeValue): int
    requires HasKey(v, attr) && (t.value.Some? ==> attr.Some?)
  {
    if t.element.Some? && StrCmp(t.element.value, v.name) != 0 then StrCmp(t.element.value, v.name)
    else if t.value.Some? then StrCmp(t.value.value, GetAttr(v.attrs, attr.value).value)
    else 0
  }

  lemma {:induction false} CompareValueIsProbe(attr: Option<string>, t: Target, v: NodeValue)
    requires HasKey(v, attr) && (t.value.Some? ==> attr.Some?)
    ensures CompareValue(attr, t, v) == Probe(t, KeyOf(v, attr))
  {
    hide StrCmp, GetAttr;
  }

  /** One turn of the binary search */
  lemma {:induction false} BinSearchStep(ks: seq<Key>, t: Target, first: nat, last: nat)
    requires first <= last < |ks|
    ensures var current := (first + last) / 2;
            BinSearch(ks, t, first, last) ==
              if last - first > 1 then
                (if Probe(t, ks[current]) == 0 then Some(BackUp(ks, t, current))
                 else if Probe(t, ks[current]) < 0 then BinSearch(ks, t, first, current)
                 else BinSearch(ks, t, current, last))
              else if Probe(t, ks[first]) == 0 then Some(first)
              else if Probe(t, ks[last]) == 0 then Some(last)
              else None
  {
    hide Probe;
  }

  lemma {:induction false} FindStepIs(ks: seq<Key>, hasAttr: bool, t: Target, cur: nat)
    ensures FindStep(ks, hasAttr, t, cur) ==
              if !hasAttr && t.value.Some? then (None, cur)
              else if t.element.None? && t.value.None? then (if cur < |ks| then (Some(cur), cur + 1) else (None, cur))
              else if ks == [] then (None, cur)
              else if cur == 0 then
                var first := BinSearch(ks, t, 0, |ks| - 1);
                if first.Some? then (first, first.value + 1) else (None, |ks|)
              else if cur < |ks| && Probe(t, ks[cur]) == 0 then (Some(cur), cur + 1)
              else (None, |ks|)
  {
    hide Probe, BinSearch;
  }

  /** `mxml_index_t`; `alloc_nodes` is the length of the array. */
  class NodeIndex {
    var attr: Option<string>
    var nodes: array<Node>
    var numNodes: nat
    var curNode: nat

    constructor (attr: Option<string>, nodes: array<Node>, numNodes: nat)
      ensures this.attr == attr && this.nodes == nodes && this.numNodes == numNodes && curNode == 0
    {
      this.attr := attr;
      this.nodes := nodes;
      this.numNodes := numNodes;
      this.curNode := 0;
    }

    /** The indexed nodes still are elements that have the indexed attribute, and have the keys
        that `key` says. */
    ghost predicate Valid(key: map<Node, Key>)
      reads this`attr, this`nodes, this`numNodes, nodes, nodes[..]
    {
      numNodes <= nodes.Length && Keyed(nodes[..numNodes], attr, key)
    }

    ghost function Keys(key: map<Node, Key>): seq<Key>
      requires Valid(key)
      reads this`attr, this`nodes, this`numNodes, nodes, nodes[..]
    {
      KeySeq(nodes[..numNodes], key)
    }

    /** `mxmlIndexReset` */
    method Reset() returns (first: Node?)
      requires numNodes <= nodes.Length
      modifies this`curNode
      ensures curNode == 0
      ensures first == if numNodes > 0 then nodes[0] else null
    {
      curNode := 0;
      if numNodes > 0 {
        return nodes[0];
      }
      return null;
    }

    /** `mxmlIndexEnum` */
    method Enum() returns (r: Node?)
      requires numNodes <= nodes.Length
      modifies this`curNode
      ensures if old(curNode) < numNodes then r == nodes[old(curNode)] && curNode == old(curNode) + 1
              else r == null && curNode == old(curNode)
    {
      if curNode < numNodes {
        curNode := curNode + 1;
        return nodes[curNode - 1];
      }
      return null;
    }

    /** `index_find` on the node at position `i` */
    function CompareAt(t: Target, i: nat): int
      requires i < numNodes <= nodes.Length && HasKey(nodes[i].value, attr) && (t.value.Some? ==> attr.Some?)
      reads this`attr, this`nodes, this`numNodes, nodes, nodes[i]
    {
      CompareValue(attr, t, nodes[i].value)
    }

    /** The node at position `i` compares as its key does. */
    lemma {:induction false} CompareIsProbe(t: Target, i: nat, key: map<Node, Key>)
      requires Valid(key) && i < numNodes && (t.value.Some? ==> attr.Some?)
      ensures HasKey(nodes[i].value, attr) && CompareAt(t, i) == Probe(t, Keys(key)[i])
    {
      hide KeyOf, HasKey, Probe, CompareValue;
      assert nodes[..numNodes][i] == nodes[i];
      CompareValueIsProbe(attr, t, nodes[i].value);
    }

    /** The part of `mxmlIndexFind` that looks for the first match */
    method FindFirst(t: Target, ghost key: map<Node, Key>) returns (r: Option<nat>)
      requires Valid(key) && numNodes > 0 && (t.value.Some? ==> attr.Some?)
      ensures r == BinSearch(Keys(key), t, 0, numNodes - 1)
    {
      hide Probe, Keyed, CompareValue, HasKey, BinSearch, BackUp;
      ghost var ks := Keys(key);
      var first, last := 0, numNodes - 1;
      while last - first > 1
        invariant 0 <= first <= last < numNodes
        invariant BinSearch(ks, t, 0, numNodes - 1) == BinSearch(ks, t, first, last)
        decreases last - first
      {
        var current := (first + last) / 2;
        CompareIsProbe(t, current, key);
        BinSearchStep(ks, t, first, last);
        var diff := CompareAt(t, current);
        if diff == 0 {
          current := StepBack(t, current, key);
          return Some(current);
        } else if diff < 0 {
          last := current;
        } else {
          first := current;
        }
      }
      BinSearchStep(ks, t, first, last);
      r := ScanWindow(t, first, last, key);
    }

    /** The loop over the one or two nodes that the search is left with */
    method ScanWindow(t: Target, first: nat, last: nat, ghost key: map<Node, Key>) returns (r: Option<nat>)
      requires Valid(key) && first <= last < numNodes && last - first <= 1 && (t.value.Some? ==> attr.Some?)
      ensures r == if Probe(t, Keys(key)[first]) == 0 then Some(first)
                   else if Probe(t, Keys(key)[last]) == 0 then Some(last) else None
    {
      hide Probe, Keyed, CompareValue, HasKey;
      var current := first;
      while current <= last
        invariant first <= current <= last + 1
        invariant forall i :: first <= i < current ==> Probe(t, Keys(key)[i]) != 0
      {
        CompareIsProbe(t, current, key);
        if CompareAt(t, current) == 0 {
          return Some(current);
        }
        current := current + 1;
      }
      return None;
    }

    /** The loop that moves back to the first match of a run */
    method StepBack(t: Target, start: nat, ghost key: map<Node, Key>) returns (current: nat)
      requires Valid(key) && start < numNodes && (t.value.Some? ==> attr.Some?)
      ensures current == BackUp(Keys(key), t, start)
    {
      hide Probe, Keyed, CompareValue, HasKey;
      current := start;
      while current > 0
        invariant current <= start && BackUp(Keys(key), t, current) == BackUp(Keys(key), t, start)
      {
        CompareIsProbe(t, current - 1, key);
        var diff := CompareAt(t, current - 1);
        if diff != 0 {
          return;
        }
        current := current - 1;
      }
    }

    lemma {:induction false} ValidParts(key: map<Node, Key>)
      requires Valid(key)
      ensures numNodes <= nodes.Length && |Keys(key)| == numNodes
    {
      hide KeyOf, HasKey;
    }

    /** `mxmlIndexFind` */
    method Find(t: Target, ghost key: map<Node, Key>) returns (r: Node?)
      requires Valid(key)
      modifies this`curNode
      ensures Valid(key) && Keys(key) == old(Keys(key))
      ensures var (pos, cur) := FindStep(Keys(key), attr.Some?, t, old(curNode));
              curNode == cur && r == if pos.Some? then nodes[pos.value] else null
    {
      hide *;
      ValidParts(key);
      FindStepIs(Keys(key), attr.Some?, t, curNode);
      if attr.None? && t.value.Some? {
        return null;
      }
      if t.element.None? && t.value.None? {
        r := Enum();
        return;
      }
      if numNodes == 0 {
        return null;
      }
      if curNode == 0 {
        var first := FindFirst(t, key);
        if first.Some? {
          curNode := first.value + 1;
          return nodes[first.value];
        }
        curNode := numNodes;
        return null;
      } else if curNode < numNodes {
        CompareIsProbe(t, curNode, key);
        var diff := CompareAt(t, curNode);
        if diff == 0 {
          curNode := curNode + 1;
          return nodes[curNode - 1];
        }
      }
      curNode := numNodes;
      return null;
    }
  }
}
