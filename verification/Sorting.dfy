/** index_sort of mxml-index.c: an in-place quicksort of node pointers. */
module Sorting {
  import opened Options
  import opened Chars
  import opened Trees
  import opened Attributes
  import opened Forests

  // ----- sort keys -----

  /** What a node is sorted by: its name, then the value of the indexed attribute */
  datatype Key = Key(name: string, val: string)

  /** The order of `index_compare` */
  function Compare(a: Key, b: Key): int {
    if StrCmp(a.name, b.name) != 0 then StrCmp(a.name, b.name) else StrCmp(a.val, b.val)
  }

  lemma {:induction false} CompareZero(a: Key, b: Key)
    ensures Compare(a, b) == 0 <==> a == b
  {
    StrCmpZero(a.name, b.name);
    StrCmpZero(a.val, b.val);
  }

  lemma {:induction false} CompareAntisymmetric(a: Key, b: Key)
    ensures Compare(a, b) < 0 <==> Compare(b, a) > 0
  {
    StrCmpAntisymmetric(a.name, b.name);
    StrCmpAntisymmetric(b.name, a.name);
    StrCmpAntisymmetric(a.val, b.val);
  }

  lemma {:induction false} CompareTransitive(a: Key, b: Key, c: Key)
    requires Compare(a, b) <= 0 && Compare(b, c) <= 0
    ensures Compare(a, c) <= 0
  {
    hide StrCmp;
    StrCmpTransitive(a.name, b.name, c.name);
    if StrCmp(a.name, c.name) == 0 {
      StrCmpTransitive(a.val, b.val, c.val);
    }
  }

  /** A value that has a key in an index on `attr`: an element that has the attribute */
  predicate HasKey(v: NodeValue, attr: Option<string>) {
    v.ElementValue? && (attr.Some? ==> GetAttr(v.attrs, attr.value).Some?)
  }

  function KeyOf(v: NodeValue, attr: Option<string>): Key
    requires HasKey(v, attr)
  {
    Key(v.name, if attr.Some? then GetAttr(v.attrs, attr.value).value else [])
  }

  /** `key` gives the keys of all nodes of `s`. */
  ghost predicate Keyed(s: seq<Node>, attr: Option<string>, key: map<Node, Key>)
    reads s
  {
    forall i :: 0 <= i < |s| ==> HasKey(s[i].value, attr) && s[i] in key && key[s[i]] == KeyOf(s[i].value, attr)
  }

  ghost predicate AtMost(key: map<Node, Key>, x: Node, y: Node) {
    x in key && y in key && Compare(key[x], key[y]) <= 0
  }

  lemma {:induction false} AtMostTransitive(key: map<Node, Key>, x: Node, y: Node, z: Node)
    requires AtMost(key, x, y) && AtMost(key, y, z)
    ensures AtMost(key, x, z)
  {
    CompareTransitive(key[x], key[y], key[z]);
  }

  lemma {:induction false} AtMostTotal(key: map<Node, Key>, x: Node, y: Node)
    requires x in key && y in key
    ensures AtMost(key, x, y) || AtMost(key, y, x)
    ensures !AtMost(key, x, y) ==> Compare(key[x], key[y]) > 0
    ensures AtMost(key, x, x)
  {
    CompareAntisymmetric(key[y], key[x]);
    CompareZero(key[x], key[x]);
  }

  /** `index_compare` */
  method IndexCompare(attr: Option<string>, first: Node, second: Node) returns (diff: int)
    requires HasKey(first.value, attr) && HasKey(second.value, attr)
    ensures diff == Compare(KeyOf(first.value, attr), KeyOf(second.value, attr))
  {
    diff := StrCmp(first.value.name, second.value.name);
    if diff != 0 {
      return;
    }
    if attr.Some? {
      var a := ElementGetAttr(first, attr);
      var b := ElementGetAttr(second, attr);
      return StrCmp(a.value, b.value);
    }
    return 0;
  }

  // ----- permutations of a stretch -----

  /** `t` is `s` with the elements from `left` to `right` rearranged. */
  ghost predicate Permuted(s: seq<Node>, t: seq<Node>, left: int, right: int) {
    && |s| == |t| && 0 <= left <= right + 1 <= |s|
    && s[..left] == t[..left] && s[right + 1..] == t[right + 1..]
    && multiset(s[left..right + 1]) == multiset(t[left..right + 1])
  }

  lemma {:induction false} PermutedTransitive(s: seq<Node>, t: seq<Node>, u: seq<Node>, left: int, right: int)
    requires Permuted(s, t, left, right) && Permuted(t, u, left, right)
    ensures Permuted(s, u, left, right)
  {
  }

  lemma {:induction false} SplitAt(s: seq<Node>, a: int, b: int, c: int, d: int)
    requires 0 <= a <= b <= c <= d <= |s|
    ensures s[a..d] == s[a..b] + s[b..c] + s[c..d]
    ensures multiset(s[a..d]) == multiset(s[a..b]) + multiset(s[b..c]) + multiset(s[c..d])
  {
  }

  lemma {:induction false} SameBefore(s: seq<Node>, t: seq<Node>, l: int, a: int)
    requires 0 <= a <= l <= |s| && l <= |t| && s[..l] == t[..l]
    ensures s[a..l] == t[a..l] && s[..a] == t[..a]
  {
    assert s[a..l] == s[..l][a..] && t[a..l] == t[..l][a..];
    assert s[..a] == s[..l][..a] && t[..a] == t[..l][..a];
  }

  lemma {:induction false} SameAfter(s: seq<Node>, t: seq<Node>, r: int, b: int)
    requires 0 <= r <= b <= |s| && |t| == |s| && s[r..] == t[r..]
    ensures s[r..b] == t[r..b] && s[b..] == t[b..]
  {
    assert s[r..b] == s[r..][..b - r] && t[r..b] == t[r..][..b - r];
    assert s[b..] == s[r..][b - r..] && t[b..] == t[r..][b - r..];
  }

  lemma {:induction false} SameMultiset(s: seq<Node>, t: seq<Node>, a: int, b: int, c: int, d: int)
    requires 0 <= a <= b <= c <= d <= |s| && |t| == |s|
    requires s[a..b] == t[a..b] && multiset(s[b..c]) == multiset(t[b..c]) && s[c..d] == t[c..d]
    ensures multiset(s[a..d]) == multiset(t[a..d])
  {
    SplitAt(s, a, b, c, d);
    SplitAt(t, a, b, c, d);
  }

  lemma {:induction false} PermutedParts(s: seq<Node>, t: seq<Node>, l: int, r: int, left: int, right: int)
    requires Permuted(s, t, l, r) && 0 <= left <= l && r <= right < |s|
    ensures |t| == |s| && 0 <= l <= r + 1 <= |s|
    ensures s[left..l] == t[left..l] && s[..left] == t[..left]
    ensures s[r + 1..right + 1] == t[r + 1..right + 1] && s[right + 1..] == t[right + 1..]
    ensures multiset(s[l..r + 1]) == multiset(t[l..r + 1])
  {
    SameBefore(s, t, l, left);
    SameAfter(s, t, r + 1, right + 1);
  }

  /** Rearranging a part of a stretch rearranges the stretch. */
  lemma {:induction false} PermutedWiden(s: seq<Node>, t: seq<Node>, left: int, right: int, l: int, r: int)
    requires Permuted(s, t, l, r) && 0 <= left <= l && r <= right < |s|
    ensures Permuted(s, t, left, right)
  {
    hide Permuted;
    PermutedParts(s, t, l, r, left, right);
    SameMultiset(s, t, left, l, r + 1, right + 1);
    MakePermuted(s, t, left, right);
  }

  lemma {:induction false} MakePermuted(s: seq<Node>, t: seq<Node>, left: int, right: int)
    requires |s| == |t| && 0 <= left <= right + 1 <= |s|
    requires s[..left] == t[..left] && s[right + 1..] == t[right + 1..]
    requires multiset(s[left..right + 1]) == multiset(t[left..right + 1])
    ensures Permuted(s, t, left, right)
  {
  }

  lemma {:induction false} SwapParts(s: seq<Node>, t: seq<Node>, i: int, j: int)
    requires 0 <= i < j < |s| && t == s[i := s[j]][j := s[i]]
    ensures |t| == |s| && s[..i] == t[..i] && s[j + 1..] == t[j + 1..] && s[i + 1..j] == t[i + 1..j]
    ensures s[i..i + 1] == [s[i]] && s[j..j + 1] == [s[j]] && t[i..i + 1] == [s[j]] && t[j..j + 1] == [s[i]]
  {
  }

  lemma {:induction false} PermutedSwap(s: seq<Node>, i: int, j: int, left: int, right: int)
    requires 0 <= left <= i < j <= right < |s|
    ensures Permuted(s, s[i := s[j]][j := s[i]], left, right)
  {
    hide Permuted;
    var t := s[i := s[j]][j := s[i]];
    SwapParts(s, t, i, j);
    SwapMultiset(s, t, i, j);
    MakePermuted(s, t, i, j);
    PermutedWiden(s, t, left, right, i, j);
  }

  lemma {:induction false} SwapMultiset(s: seq<Node>, t: seq<Node>, i: int, j: int)
    requires 0 <= i < j < |s| && |t| == |s| && s[i + 1..j] == t[i + 1..j]
    requires s[i..i + 1] == t[j..j + 1] && s[j..j + 1] == t[i..i + 1]
    ensures multiset(s[i..j + 1]) == multiset(t[i..j + 1])
  {
    SplitAt(s, i, i + 1, j, j + 1);
    SplitAt(t, i, i + 1, j, j + 1);
    SumSwap(multiset(s[i..i + 1]), multiset(s[i + 1..j]), multiset(s[j..j + 1]));
  }

  lemma {:induction false} SumSwap(a: multiset<Node>, b: multiset<Node>, c: multiset<Node>)
    ensures a + b + c == c + b + a
  {
  }

  /** Elements of a rearranged stretch were in it before; the others did not move. */
  lemma {:induction false} PermutedFrom(s: seq<Node>, t: seq<Node>, left: int, right: int, i: int) returns (j: int)
    requires Permuted(s, t, left, right) && 0 <= i < |t|
    ensures 0 <= j < |s| && t[i] == s[j]
    ensures if left <= i <= right then left <= j <= right else j == i
  {
    if left <= i <= right {
      assert t[i] == t[left..right + 1][i - left];
      assert t[i] in multiset(s[left..right + 1]);
      var k :| 0 <= k < |s[left..right + 1]| && s[left..right + 1][k] == t[i];
      j := left + k;
    } else {
      j := i;
      if i < left {
        assert t[i] == t[..left][i] && s[i] == s[..left][i];
      } else {
        assert t[i] == t[right + 1..][i - right - 1] && s[i] == s[right + 1..][i - right - 1];
      }
    }
  }

  lemma {:induction false} KeyedPermuted(s: seq<Node>, t: seq<Node>, left: int, right: int, attr: Option<string>, key: map<Node, Key>)
    requires Permuted(s, t, left, right) && Keyed(s, attr, key)
    ensures Keyed(t, attr, key)
  {
    hide Permuted;
    forall i | 0 <= i < |t|
      ensures HasKey(t[i].value, attr) && t[i] in key && key[t[i]] == KeyOf(t[i].value, attr)
    {
      var _ := PermutedFrom(s, t, left, right, i);
    }
  }

  // ----- one partition -----

  /** A node of the rearranged array has the key that the node had before. */
  lemma {:induction false} KeyedAt(s: seq<Node>, t: seq<Node>, left: int, right: int, i: int, attr: Option<string>, key: map<Node, Key>)
    requires Permuted(s, t, left, right) && Keyed(s, attr, key) && 0 <= i < |t|
    ensures HasKey(t[i].value, attr) && t[i] in key && key[t[i]] == KeyOf(t[i].value, attr)
  {
    hide Permuted;
    var _ := PermutedFrom(s, t, left, right, i);
  }

  /** `index_compare(ind, nodes[i], pivot) <= 0`, in an array that was rearranged from `s` */
  method NotAfter(nodes: array<Node>, i: nat, pivot: Node, attr: Option<string>,
                  ghost s: seq<Node>, ghost left: int, ghost right: int, ghost key: map<Node, Key>) returns (b: bool)
    requires i < nodes.Length && Keyed(s, attr, key) && Permuted(s, nodes[..], left, right)
    requires pivot in nodes[..]
    ensures b == AtMost(key, nodes[i], pivot)
    ensures !b ==> AtMost(key, pivot, nodes[i])
  {
    hide Permuted, Compare, KeyOf, HasKey;
    ghost var k :| 0 <= k < nodes.Length && nodes[..][k] == pivot;
    KeyedAt(s, nodes[..], left, right, i, attr, key);
    KeyedAt(s, nodes[..], left, right, k, attr, key);
    AtMostTotal(key, nodes[i], pivot);
    var diff := IndexCompare(attr, nodes[i], pivot);
    b := diff <= 0;
  }

  /** `index_compare(ind, pivot, nodes[i]) <= 0`, likewise */
  method NotBefore(nodes: array<Node>, i: nat, pivot: Node, attr: Option<string>,
                   ghost s: seq<Node>, ghost left: int, ghost right: int, ghost key: map<Node, Key>) returns (b: bool)
    requires i < nodes.Length && Keyed(s, attr, key) && Permuted(s, nodes[..], left, right)
    requires pivot in nodes[..]
    ensures b == AtMost(key, pivot, nodes[i])
  {
    hide Permuted, Compare, KeyOf, HasKey;
    ghost var k :| 0 <= k < nodes.Length && nodes[..][k] == pivot;
    KeyedAt(s, nodes[..], left, right, i, attr, key);
    KeyedAt(s, nodes[..], left, right, k, attr, key);
    var diff := IndexCompare(attr, pivot, nodes[i]);
    b := diff <= 0;
  }

  lemma {:induction false} PermutedReflexive(s: seq<Node>, left: int, right: int)
    requires 0 <= left <= right < |s|
    ensures Permuted(s, s, left, right)
  {
  }

  /** The inner loop that moves `templ` right over nodes that do not belong behind the pivot */
  method ScanUp(nodes: array<Node>, start: nat, pivot: Node, attr: Option<string>,
                ghost s: seq<Node>, left: nat, right: nat, ghost key: map<Node, Key>) returns (templ: nat)
    requires left <= start <= right < nodes.Length && Keyed(s, attr, key) && Permuted(s, nodes[..], left, right)
    requires pivot in nodes[..]
    ensures start <= templ <= right
    ensures forall i :: start <= i < templ ==> AtMost(key, nodes[i], pivot)
    ensures templ < right ==> !AtMost(key, nodes[templ], pivot) && AtMost(key, pivot, nodes[templ])
  {
    hide Permuted, AtMost;
    templ := start;
    while templ < right
      invariant start <= templ <= right
      invariant forall i :: start <= i < templ ==> AtMost(key, nodes[i], pivot)
    {
      var go := NotAfter(nodes, templ, pivot, attr, s, left, right, key);
      if !go {
        return;
      }
      templ := templ + 1;
    }
  }

  /** The inner loop that moves `tempr` left over nodes that belong behind the pivot */
  method ScanDown(nodes: array<Node>, start: nat, pivot: Node, attr: Option<string>,
                  ghost s: seq<Node>, left: nat, right: nat, ghost key: map<Node, Key>) returns (tempr: nat)
    requires left <= start <= right < nodes.Length && Keyed(s, attr, key) && Permuted(s, nodes[..], left, right)
    requires pivot in nodes[..]
    ensures left <= tempr <= start
    ensures forall i :: tempr < i <= start ==> AtMost(key, pivot, nodes[i])
    ensures tempr > left ==> AtMost(key, nodes[tempr], pivot)
  {
    hide Permuted, AtMost;
    tempr := start;
    while tempr > left
      invariant left <= tempr <= start
      invariant forall i :: tempr < i <= start ==> AtMost(key, pivot, nodes[i])
    {
      var stop := NotAfter(nodes, tempr, pivot, attr, s, left, right, key);
      if stop {
        return;
      }
      tempr := tempr - 1;
    }
  }

  /** The swap, three assignments in C */
  method Swap(nodes: array<Node>, i: nat, j: nat, ghost s: seq<Node>, ghost left: nat, ghost right: nat)
    requires left <= i < j <= right < nodes.Length && Permuted(s, nodes[..], left, right)
    modifies nodes
    ensures nodes[i] == old(nodes[j]) && nodes[j] == old(nodes[i])
    ensures forall k :: 0 <= k < nodes.Length && k != i && k != j ==> nodes[k] == old(nodes[k])
    ensures Permuted(s, nodes[..], left, right)
  {
    hide Permuted;
    ghost var t := nodes[..];
    PermutedSwap(t, i, j, left, right);
    var temp := nodes[i];
    nodes[i] := nodes[j];
    nodes[j] := temp;
    assert nodes[..] == t[i := t[j]][j := t[i]];
    PermutedTransitive(s, t, nodes[..], left, right);
  }

  /** One turn of the do-loop of `index_sort`, up to the recursive call: `tempr` is where the pivot
      goes, and everything is on its side of it. */
  method Partition(nodes: array<Node>, attr: Option<string>, left: nat, right: nat, ghost key: map<Node, Key>)
      returns (tempr: nat)
    requires left < right < nodes.Length && Keyed(nodes[..], attr, key)
    modifies nodes
    ensures left <= tempr <= right
    ensures Permuted(old(nodes[..]), nodes[..], left, right)
    ensures forall i :: left <= i <= tempr ==> AtMost(key, nodes[i], nodes[tempr])
    ensures forall i :: tempr <= i <= right ==> AtMost(key, nodes[tempr], nodes[i])
  {
    hide Permuted, AtMost, Keyed;
    ghost var s := nodes[..];
    PermutedReflexive(s, left, right);
    var pivot := nodes[left];
    var templ := left;
    tempr := right;
    assert s[left] == pivot;
    AtMostSelf(s, left, attr, key);
    while templ < tempr
      invariant left <= templ <= right && left <= tempr <= right
      invariant nodes[left] == pivot
      invariant Permuted(s, nodes[..], left, right)
      invariant forall i :: left <= i < templ ==> AtMost(key, nodes[i], pivot)
      invariant forall i :: tempr < i <= right ==> AtMost(key, pivot, nodes[i])
      invariant templ < tempr ==> templ == left || AtMost(key, nodes[templ], pivot)
      invariant templ >= tempr ==> AtMost(key, nodes[tempr], pivot)
      decreases right - templ
    {
      assert nodes[..][left] == pivot;
      ghost var before := templ;
      templ := ScanUp(nodes, templ, pivot, attr, s, left, right, key);
      tempr := ScanDown(nodes, tempr, pivot, attr, s, left, right, key);
      assert before < templ;
      if templ < tempr {
        Swap(nodes, templ, tempr, s, left, right);
      }
    }
    assert nodes[..][left] == pivot;
    var inPlace := NotBefore(nodes, tempr, pivot, attr, s, left, right, key);
    if !inPlace {
      assert tempr != left;
      Swap(nodes, left, tempr, s, left, right);
      assert forall i :: left <= i <= tempr ==> AtMost(key, nodes[i], pivot);
    } else {
      BothWays(key, nodes, left, tempr, right, pivot);
    }
  }

  /** A node that is neither before nor behind the pivot can stand in its place. */
  lemma {:induction false} BothWays(key: map<Node, Key>, nodes: array<Node>, left: nat, tempr: nat, right: nat, pivot: Node)
    requires left <= tempr <= right < nodes.Length
    requires AtMost(key, pivot, nodes[tempr]) && AtMost(key, nodes[tempr], pivot)
    requires forall i :: left <= i < tempr ==> AtMost(key, nodes[i], pivot)
    requires forall i :: tempr < i <= right ==> AtMost(key, pivot, nodes[i])
    ensures forall i :: left <= i <= tempr ==> AtMost(key, nodes[i], nodes[tempr])
    ensures forall i :: tempr <= i <= right ==> AtMost(key, nodes[tempr], nodes[i])
  {
    hide AtMost;
    forall i | left <= i <= tempr
      ensures AtMost(key, nodes[i], nodes[tempr])
    {
      AtMostTransitive(key, nodes[i], pivot, nodes[tempr]);
    }
    forall i | tempr <= i <= right
      ensures AtMost(key, nodes[tempr], nodes[i])
    {
      AtMostTransitive(key, nodes[tempr], pivot, nodes[i]);
    }
  }

  lemma {:induction false} AtMostSelf(s: seq<Node>, i: nat, attr: Option<string>, key: map<Node, Key>)
    requires i < |s| && Keyed(s, attr, key)
    ensures AtMost(key, s[i], s[i])
  {
    AtMostTotal(key, s[i], s[i]);
  }

  // ----- the whole sort -----

  /** The nodes from `first` to `left - 1` are sorted, and none comes after a node up to `right`. */
  ghost predicate SortedBefore(s: seq<Node>, key: map<Node, Key>, first: int, left: int, right: int) {
    forall i, j :: 0 <= first <= i < left && i <= j <= right < |s| ==> AtMost(key, s[i], s[j])
  }

  /** The nodes from `left` to `right` are sorted. */
  ghost predicate Sorted(s: seq<Node>, key: map<Node, Key>, left: int, right: int) {
    SortedBefore(s, key, left, right + 1, right)
  }

  /** Rearranging what lies behind the sorted part keeps it sorted. */
  lemma {:induction false} SortedBeforeKept(s: seq<Node>, t: seq<Node>, key: map<Node, Key>, first: int, left: int, right: int)
    requires Permuted(s, t, left, right) && SortedBefore(s, key, first, left, right)
    ensures SortedBefore(t, key, first, left, right)
  {
    hide Permuted, AtMost;
    SameLength(s, t, left, right);
    forall i, j | 0 <= first <= i < left && i <= j <= right < |t|
      ensures AtMost(key, t[i], t[j])
    {
      var i' := PermutedFrom(s, t, left, right, i);
      var j' := PermutedFrom(s, t, left, right, j);
    }
  }

  lemma {:induction false} SameLength(s: seq<Node>, t: seq<Node>, left: int, right: int)
    requires Permuted(s, t, left, right)
    ensures |s| == |t| && 0 <= left <= right + 1 <= |s|
  {
  }

  /** Everything from `left` to `right` is on its side of position `m`. */
  ghost predicate Split(s: seq<Node>, key: map<Node, Key>, left: int, m: int, right: int) {
    && 0 <= left <= m <= right < |s|
    && (forall i :: left <= i <= m ==> AtMost(key, s[i], s[m]))
    && (forall i :: m <= i <= right ==> AtMost(key, s[m], s[i]))
  }

  lemma {:induction false} SplitKept(s: seq<Node>, t: seq<Node>, key: map<Node, Key>, left: int, m: int, right: int)
    requires Permuted(s, t, left, m - 1) && Split(s, key, left, m, right)
    ensures Split(t, key, left, m, right)
  {
    hide Permuted, AtMost;
    SameLength(s, t, left, m - 1);
    forall i | left <= i <= right
      ensures if i <= m then AtMost(key, t[i], t[m]) else AtMost(key, t[m], t[i])
      ensures i == m ==> AtMost(key, t[m], t[i])
    {
      var _ := PermutedFrom(s, t, left, m - 1, i);
      var _ := PermutedFrom(s, t, left, m - 1, m);
    }
  }

  /** A split stretch whose lower side is sorted extends the sorted part over the pivot. */
  lemma {:induction false} SortedExtends(s: seq<Node>, key: map<Node, Key>, first: int, left: int, m: int, right: int)
    requires SortedBefore(s, key, first, left, right) && Split(s, key, left, m, right) && Sorted(s, key, left, m - 1)
    ensures SortedBefore(s, key, first, m + 1, right)
  {
    hide AtMost;
    forall i, j | 0 <= first <= i < m + 1 && i <= j <= right < |s|
      ensures AtMost(key, s[i], s[j])
    {
      if left <= i && m <= j {
        AtMostTransitive(key, s[i], s[m], s[j]);
      }
    }
  }

  /** Zero or one nodes are sorted. */
  lemma {:induction false} SortedSmall(s: seq<Node>, attr: Option<string>, key: map<Node, Key>, left: int, right: int)
    requires right <= left && Keyed(s, attr, key)
    ensures Sorted(s, key, left, right)
  {
    if 0 <= left == right < |s| {
      AtMostSelf(s, left, attr, key);
    }
  }

  lemma {:induction false} SortedDone(s: seq<Node>, attr: Option<string>, key: map<Node, Key>, first: int, left: int, right: int)
    requires right <= left && Keyed(s, attr, key) && SortedBefore(s, key, first, left, right)
    ensures Sorted(s, key, first, right)
  {
    if 0 <= left == right < |s| {
      AtMostSelf(s, left, attr, key);
    }
  }

  /** `index_sort` */
  method IndexSort(nodes: array<Node>, attr: Option<string>, first: nat, right: nat, ghost key: map<Node, Key>)
    requires first < right < nodes.Length && Keyed(nodes[..], attr, key)
    modifies nodes
    ensures Permuted(old(nodes[..]), nodes[..], first, right)
    ensures Sorted(nodes[..], key, first, right)
    decreases right - first
  {
    hide Permuted, AtMost, Keyed, SortedBefore, Split, Sorted;
    ghost var s := nodes[..];
    PermutedReflexive(s, first, right);
    NothingSorted(s, key, first, right);
    var left := first;
    var again := true;
    while again
      invariant first <= left && again == (right > left)
      invariant Permuted(s, nodes[..], first, right)
      invariant SortedBefore(nodes[..], key, first, left, right)
      invariant Keyed(nodes[..], attr, key)
      decreases right as int - left as int
    {
      ghost var s1 := nodes[..];
      var tempr := Partition(nodes, attr, left, right, key);
      ghost var s2 := nodes[..];
      AfterPartition(s, s1, s2, attr, key, first, left, tempr, right, nodes);
      if left as int < tempr as int - 1 {
        IndexSort(nodes, attr, left, tempr - 1, key);
        AfterRecursion(s, s2, nodes[..], attr, key, first, left, tempr, right);
      } else {
        SortedSmall(s2, attr, key, left, tempr as int - 1);
      }
      SortedExtends(nodes[..], key, first, left, tempr, right);
      left := tempr + 1;
      again := right > left;
    }
    SortedDone(nodes[..], attr, key, first, left, right);
  }

  lemma {:induction false} NothingSorted(s: seq<Node>, key: map<Node, Key>, first: int, right: int)
    ensures SortedBefore(s, key, first, first, right)
  {
  }

  lemma {:induction false} AfterPartition(s: seq<Node>, s1: seq<Node>, s2: seq<Node>, attr: Option<string>, key: map<Node, Key>,
                                          first: nat, left: nat, tempr: nat, right: nat, nodes: array<Node>)
    requires Permuted(s, s1, first, right) && Permuted(s1, s2, left, right) && first <= left <= tempr <= right < |s1|
    requires Keyed(s1, attr, key) && SortedBefore(s1, key, first, left, right)
    requires nodes[..] == s2
    requires forall i :: left <= i <= tempr ==> AtMost(key, nodes[i], nodes[tempr])
    requires forall i :: tempr <= i <= right ==> AtMost(key, nodes[tempr], nodes[i])
    ensures Permuted(s, s2, first, right) && Keyed(s2, attr, key)
    ensures SortedBefore(s2, key, first, left, right) && Split(s2, key, left, tempr, right)
  {
    hide Permuted, AtMost, Keyed, SortedBefore;
    SameLength(s1, s2, left, right);
    PermutedWiden(s1, s2, first, right, left, right);
    PermutedTransitive(s, s1, s2, first, right);
    KeyedPermuted(s1, s2, left, right, attr, key);
    SortedBeforeKept(s1, s2, key, first, left, right);
  }

  lemma {:induction false} AfterRecursion(s: seq<Node>, s2: seq<Node>, s3: seq<Node>, attr: Option<string>, key: map<Node, Key>,
                                          first: nat, left: nat, tempr: nat, right: nat)
    requires Permuted(s, s2, first, right) && Permuted(s2, s3, left, tempr as int - 1)
    requires first <= left <= tempr <= right < |s2|
    requires Keyed(s2, attr, key) && SortedBefore(s2, key, first, left, right) && Split(s2, key, left, tempr, right)
    ensures Permuted(s, s3, first, right) && Keyed(s3, attr, key)
    ensures SortedBefore(s3, key, first, left, right) && Split(s3, key, left, tempr, right)
  {
    hide Permuted, AtMost, Keyed, SortedBefore, Split;
    PermutedWiden(s2, s3, first, right, left, tempr - 1);
    PermutedWiden(s2, s3, left, right, left, tempr - 1);
    PermutedTransitive(s, s2, s3, first, right);
    KeyedPermuted(s2, s3, left, tempr - 1, attr, key);
    SortedBeforeKept(s2, s3, key, first, left, right);
    SplitKept(s2, s3, key, left, tempr, right);
  }
}
