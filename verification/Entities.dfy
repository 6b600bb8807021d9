/** Named entities (mxml-entity.c): the binary search in the standard table, and the list of
    callbacks that is asked in turn. */
module Entities {
  import opened Options
  import opened Chars
  import opened EntityTable
  import opened Canonical
  import opened Writer

  /** The value of the first entry called `name`, or -1 */
  function Find(t: seq<Entry>, name: string): int {
    if t == [] then -1 else if t[0].name == name then t[0].val else Find(t[1..], name)
  }

  /** What `_mxml_entity_cb` promises: the value that the standard table gives */
  function Lookup(name: string): int {
    Find(Table(), name)
  }

  lemma {:induction false} FindAbsent(t: seq<Entry>, name: string)
    requires forall i :: 0 <= i < |t| ==> t[i].name != name
    ensures Find(t, name) == -1
  {
    if t != [] {
      FindAbsent(t[1..], name);
    }
  }

  lemma {:induction false} FindFirst(t: seq<Entry>, name: string, k: nat)
    requires k < |t| && t[k].name == name && forall i :: 0 <= i < k ==> t[i].name != name
    ensures Find(t, name) == t[k].val
  {
    if k > 0 {
      assert t[1..][k - 1] == t[k];
      FindFirst(t[1..], name, k - 1);
    }
  }

  lemma {:induction false} InOrder(t: seq<Entry>, i: nat, j: nat)
    requires Ascending(t) && i < j < |t|
    ensures StrCmp(t[i].name, t[j].name) < 0
    decreases j - i
  {
    if i + 1 < j {
      InOrder(t, i + 1, j);
      StrCmpTransitive(t[i].name, t[i + 1].name, t[j].name);
    }
  }

  /** In an ordered table an entry's name occurs once. */
  lemma {:induction false} FindAt(t: seq<Entry>, k: nat)
    requires Ascending(t) && k < |t|
    ensures Find(t, t[k].name) == t[k].val
  {
    forall i | 0 <= i < k
      ensures t[i].name != t[k].name
    {
      InOrder(t, i, k);
      StrCmpZero(t[i].name, t[k].name);
    }
    FindFirst(t, t[k].name, k);
  }

  /** Everything before an entry that is smaller than `name` is smaller too; likewise after. */
  lemma {:induction false} Narrow(t: seq<Entry>, name: string, k: nat)
    requires Ascending(t) && k < |t|
    ensures StrCmp(name, t[k].name) < 0 ==> forall i :: k <= i < |t| ==> t[i].name != name
    ensures StrCmp(name, t[k].name) > 0 ==> forall i :: 0 <= i <= k ==> t[i].name != name
  {
    hide StrCmp;
    StrCmpZero(name, t[k].name);
    forall i | 0 <= i < |t| && t[i].name == name && i != k
      ensures if i > k then StrCmp(name, t[k].name) > 0 else StrCmp(name, t[k].name) < 0
    {
      if i > k {
        InOrder(t, k, i);
        StrCmpAntisymmetric(t[k].name, name);
      } else {
        InOrder(t, i, k);
      }
    }
  }

  /** `_mxml_entity_cb` */
  method EntityCallback(name: string) returns (val: int)
    ensures val == Lookup(name)
    ensures (exists i :: 0 <= i < |Table()| && Table()[i] == Entry(name, val)) ||
            (val == -1 && forall i :: 0 <= i < |Table()| ==> Table()[i].name != name)
  {
    hide StrCmp, Ascending, Table;
    TableOrder();
    var entities := Table();
    var first, last := 0, |entities| - 1;
    while last - first > 1
      invariant 0 <= first <= last < |entities|
      invariant forall i :: 0 <= i < first || last < i < |entities| ==> entities[i].name != name
    {
      var current := (first + last) / 2;
      var diff := StrCmp(name, entities[current].name);
      StrCmpZero(name, entities[current].name);
      Narrow(entities, name, current);
      if diff == 0 {
        FindAt(entities, current);
        return entities[current].val;
      } else if diff < 0 {
        last := current;
      } else {
        first := current;
      }
    }
    StrCmpZero(name, entities[first].name);
    StrCmpZero(name, entities[last].name);
    if StrCmp(name, entities[first].name) == 0 {
      FindAt(entities, first);
      return entities[first].val;
    } else if StrCmp(name, entities[last].name) == 0 {
      FindAt(entities, last);
      return entities[last].val;
    } else {
      FindAbsent(entities, name);
      return -1;
    }
  }

  // ----- the list of callbacks -----

  /** The first answer that is not negative, or -1 */
  function GetValue(cbs: seq<string -> int>, name: string): int {
    if cbs == [] then -1 else if cbs[0](name) >= 0 then cbs[0](name) else GetValue(cbs[1..], name)
  }

  /** `mxmlEntityGetValue` */
  method EntityGetValue(cbs: seq<string -> int>, name: string) returns (ch: int)
    ensures ch == GetValue(cbs, name)
    ensures ch >= 0 ==> exists k :: 0 <= k < |cbs| && ch == cbs[k](name) && forall j :: 0 <= j < k ==> cbs[j](name) < 0
    ensures ch < 0 ==> ch == -1 && forall j :: 0 <= j < |cbs| ==> cbs[j](name) < 0
  {
    var i := 0;
    while i < |cbs|
      invariant 0 <= i <= |cbs|
      invariant forall j :: 0 <= j < i ==> cbs[j](name) < 0
      invariant GetValue(cbs, name) == GetValue(cbs[i..], name)
    {
      ch := cbs[i](name);
      if ch >= 0 {
        return ch;
      }
      assert cbs[i..][1..] == cbs[i + 1..];
      i := i + 1;
    }
    return -1;
  }

  /** The lookup that the parser uses when the callbacks are `cbs` */
  function Resolve(cbs: seq<string -> int>): string -> int {
    name => GetValue(cbs, name)
  }

  /** The standard callback comes first, so callbacks added later cannot change what the entities
      that the printer writes mean. */
  lemma {:induction false} StandardFirst(more: seq<string -> int>)
    ensures StandardEntities(Resolve([Lookup] + more))
  {
    hide Table, Ascending;
    TableOrder();
    BasicEntries();
    FindAt(Table(), 67);
    FindAt(Table(), 121);
    FindAt(Table(), 153);
    FindAt(Table(), 198);
    var cbs := [Lookup] + more;
    assert cbs[0] == Lookup;
  }
}
