/** mxml-attr.c: the attributes of an element are an ordered map. */
module Attributes {
  import opened Options
  import opened Trees
  import opened Forests

  // ----- the laws of the map -----

  function NamesOf(attrs: seq<Attr>): seq<string> {
    seq(|attrs|, i requires 0 <= i < |attrs| => attrs[i].name)
  }

  lemma {:induction false} FindAttrIs(attrs: seq<Attr>, name: string, i: nat)
    requires i <= |attrs| && (i < |attrs| ==> attrs[i].name == name)
    requires forall j :: 0 <= j < i ==> attrs[j].name != name
    ensures FindAttr(attrs, name) == i
  {
  }

  /** Setting an attribute keeps the order of the names that are there; a new one comes last. */
  lemma {:induction false} SetKeepsOrder(attrs: seq<Attr>, name: string, value: Option<string>)
    ensures NamesOf(SetAttr(attrs, name, value)) == NamesOf(attrs) + (if name in NamesOf(attrs) then [] else [name])
    ensures UniqueNames(attrs) ==> UniqueNames(SetAttr(attrs, name, value))
  {
    var i := FindAttr(attrs, name);
    if i < |attrs| {
      assert NamesOf(attrs)[i] == name;
    }
  }

  /** A name that was set has the value it was set to; every other name has the value it had. */
  lemma {:induction false} GetAfterSet(attrs: seq<Attr>, name: string, value: Option<string>, other: string)
    ensures GetAttr(SetAttr(attrs, name, value), other) == if other == name then value else GetAttr(attrs, other)
  {
    var i := FindAttr(attrs, name);
    var j := FindAttr(attrs, other);
    var after := SetAttr(attrs, name, value);
    if other == name {
      FindAttrIs(after, name, i);
    } else if i == |attrs| && j == |attrs| {
      FindAttrIs(after, other, |after|);
    } else {
      FindAttrIs(after, other, j);
    }
  }

  lemma {:induction false} DeletedAt(attrs: seq<Attr>, name: string, k: nat)
    requires k < |DeleteAttr(attrs, name)|
    ensures var i := FindAttr(attrs, name); DeleteAttr(attrs, name)[k] == attrs[if k < i then k else k + 1]
  {
  }

  lemma {:induction false} DeleteKeepsUnique(attrs: seq<Attr>, name: string)
    requires UniqueNames(attrs)
    ensures UniqueNames(DeleteAttr(attrs, name))
  {
    hide DeleteAttr, FindAttr;
    var after := DeleteAttr(attrs, name);
    DeleteShortens(attrs, name);
    forall a, b | 0 <= a < b < |after|
      ensures after[a].name != after[b].name
    {
      DeletedAt(attrs, name, a);
      DeletedAt(attrs, name, b);
      var i := FindAttr(attrs, name);
      assert attrs[if a < i then a else a + 1].name != attrs[if b < i then b else b + 1].name;
    }
  }

  lemma {:induction false} DeleteShortens(attrs: seq<Attr>, name: string)
    ensures |DeleteAttr(attrs, name)| == if FindAttr(attrs, name) < |attrs| then |attrs| - 1 else |attrs|
  {
  }

  /** A name that was deleted is gone, and no other name is affected. */
  lemma {:induction false} GetAfterDelete(attrs: seq<Attr>, name: string, other: string)
    requires UniqueNames(attrs)
    ensures FindAttr(DeleteAttr(attrs, name), name) == |DeleteAttr(attrs, name)|
    ensures GetAttr(DeleteAttr(attrs, name), other) == if other == name then None else GetAttr(attrs, other)
  {
    hide DeleteAttr;
    var i := FindAttr(attrs, name);
    var j := FindAttr(attrs, other);
    var after := DeleteAttr(attrs, name);
    DeleteShortens(attrs, name);
    forall k | 0 <= k < |after|
      ensures after[k] == attrs[if k < i then k else k + 1]
    {
      DeletedAt(attrs, name, k);
    }
    FindAttrIs(after, name, |after|);
    if other != name {
      FindAttrIs(after, other, if j < i || i == |attrs| then j else j - 1);
    }
  }

  /** Setting a new attribute and deleting it again changes nothing, not even the order. */
  lemma {:induction false} SetThenDelete(attrs: seq<Attr>, name: string, value: Option<string>)
    requires FindAttr(attrs, name) == |attrs|
    ensures DeleteAttr(SetAttr(attrs, name, value), name) == attrs
  {
    FindAttrIs(SetAttr(attrs, name, value), name, |attrs|);
  }

  // ----- the methods on nodes -----

  /** `mxmlElementGetAttr` */
  method ElementGetAttr(node: Node?, name: Option<string>) returns (r: Option<string>)
    ensures r == if node == null || !node.value.ElementValue? || name.None? then None
                 else GetAttr(node.value.attrs, name.value)
  {
    if node == null || !node.value.ElementValue? || name.None? {
      return None;
    }
    var attrs := node.value.attrs;
    var i := 0;
    while i < |attrs|
      invariant 0 <= i <= |attrs|
      invariant forall j :: 0 <= j < i ==> attrs[j].name != name.value
    {
      if attrs[i].name == name.value {
        FindAttrIs(attrs, name.value, i);
        return attrs[i].value;
      }
      i := i + 1;
    }
    FindAttrIs(attrs, name.value, i);
    return None;
  }

  /** `mxmlElementSetAttr` with `mxml_set_attr` */
  method ElementSetAttr(node: Node?, name: Option<string>, value: Option<string>)
    modifies (if node == null then {} else {node})`value
    ensures node != null && old(node.value).ElementValue? && name.Some? ==>
              node.value == old(node.value).(attrs := SetAttr(old(node.value).attrs, name.value, value))
    ensures node != null && !(old(node.value).ElementValue? && name.Some?) ==> node.value == old(node.value)
  {
    if node == null || !node.value.ElementValue? || name.None? {
      return;
    }
    var attrs := node.value.attrs;
    var i := 0;
    while i < |attrs|
      invariant 0 <= i <= |attrs|
      invariant forall j :: 0 <= j < i ==> attrs[j].name != name.value
    {
      if attrs[i].name == name.value {
        FindAttrIs(attrs, name.value, i);
        node.value := node.value.(attrs := attrs[i := Attr(attrs[i].name, value)]);
        return;
      }
      i := i + 1;
    }
    FindAttrIs(attrs, name.value, i);
    node.value := node.value.(attrs := attrs + [Attr(name.value, value)]);
  }

  /** `mxmlElementDeleteAttr` */
  method ElementDeleteAttr(node: Node?, name: Option<string>)
    modifies (if node == null then {} else {node})`value
    ensures node != null && old(node.value).ElementValue? && name.Some? ==>
              node.value == old(node.value).(attrs := DeleteAttr(old(node.value).attrs, name.value))
    ensures node != null && !(old(node.value).ElementValue? && name.Some?) ==> node.value == old(node.value)
  {
    if node == null || !node.value.ElementValue? || name.None? {
      return;
    }
    var attrs := node.value.attrs;
    var i := 0;
    while i < |attrs|
      invariant 0 <= i <= |attrs|
      invariant forall j :: 0 <= j < i ==> attrs[j].name != name.value
    {
      if attrs[i].name == name.value {
        FindAttrIs(attrs, name.value, i);
        node.value := node.value.(attrs := attrs[..i] + attrs[i + 1..]);
        return;
      }
      i := i + 1;
    }
    FindAttrIs(attrs, name.value, i);
  }
}
