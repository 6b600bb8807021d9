/** The search of mxmlIndexFind, on the keys of the indexed nodes: a binary search for the first
    match, then one step at a time. */
module IndexSearch {
  import opened Options
  import opened Chars
  import opened Sorting

  /** What is looked for; None stands for a null string */
  datatype Target = Target(element: Option<string>, value: Option<string>)

  /** `index_find` */
  function Probe(t: Target, k: Key): int {
    if t.element.Some? && StrCmp(t.element.value, k.name) != 0 then StrCmp(t.element.value, k.name)
    else if t.value.Some? then StrCmp(t.value.value, k.val)
    else 0
  }

  predicate Hit(t: Target, k: Key) {
    (t.element.Some? ==> k.name == t.element.value) && (t.value.Some? ==> k.val == t.value.value)
  }

  lemma {:induction false} ProbeZero(t: Target, k: Key)
    ensures Probe(t, k) == 0 <==> Hit(t, k)
  {
    hide StrCmp;
    if t.element.Some? {
      StrCmpZero(t.element.value, k.name);
    }
    if t.value.Some? {
      StrCmpZero(t.value.value, k.val);
    }
  }

  // ----- the search -----

  /** The step back from a match to the first one of its run */
  function BackUp(ks: seq<Key>, t: Target, current: nat): (r: nat)
    requires current < |ks|
    ensures r <= current
  {
    if current > 0 && Probe(t, ks[current - 1]) == 0 then BackUp(ks, t, current - 1) else current
  }

  /** The binary search between `first` and `last`, both included */
  function BinSearch(ks: seq<Key>, t: Target, first: nat, last: nat): (r: Option<nat>)
    requires first <= last < |ks|
    ensures r.Some? ==> r.value <= last
    decreases last - first
  {
    if last - first > 1 then
      var current := (first + last) / 2;
      var diff := Probe(t, ks[current]);
      if diff == 0 then Some(BackUp(ks, t, current))
      else if diff < 0 then BinSearch(ks, t, first, current)
      else BinSearch(ks, t, current, last)
    else if Probe(t, ks[first]) == 0 then Some(first)
    else if Probe(t, ks[last]) == 0 then Some(last)
    else None
  }

  /** One call of `mxmlIndexFind` with the cursor at `cur`: the position of the node it returns, and
      the new cursor. `hasAttr` says whether the index is on an attribute. */
  function FindStep(ks: seq<Key>, hasAttr: bool, t: Target, cur: nat): (r: (Option<nat>, nat))
    ensures r.0.Some? ==> r.0.value < |ks| && r.1 == r.0.value + 1
  {
    if !hasAttr && t.value.Some? then (None, cur)
    else if t.element.None? && t.value.None? then (if cur < |ks| then (Some(cur), cur + 1) else (None, cur))
    else if ks == [] then (None, cur)
    else if cur == 0 then
      match BinSearch(ks, t, 0, |ks| - 1)
      case Some(i) => (Some(i), i + 1)
      case None => (None, |ks|)
    else if cur < |ks| && Probe(t, ks[cur]) == 0 then (Some(cur), cur + 1)
    else (None, |ks|)
  }

  // ----- what it should find -----

  /** The positions of all matches from `i` on, in order */
  function Hits(ks: seq<Key>, t: Target, i: nat): (s: seq<nat>)
    ensures forall k :: 0 <= k < |s| ==> i <= s[k] < |ks| && Hit(t, ks[s[k]])
    ensures forall j :: i <= j < |ks| && Hit(t, ks[j]) ==> j in s
    decreases |ks| - i
  {
    if i >= |ks| then [] else if Hit(t, ks[i]) then [i] + Hits(ks, t, i + 1) else Hits(ks, t, i + 1)
  }

  lemma {:induction false} HitsAscend(ks: seq<Key>, t: Target, i: nat)
    ensures forall a, b :: 0 <= a < b < |Hits(ks, t, i)| ==> Hits(ks, t, i)[a] < Hits(ks, t, i)[b]
    decreases |ks| - i
  {
    if i < |ks| {
      HitsAscend(ks, t, i + 1);
    }
  }

  /** No match from `i` to `j - 1` */
  lemma {:induction false} HitsSkip(ks: seq<Key>, t: Target, i: nat, j: nat)
    requires i <= j <= |ks| && forall k :: i <= k < j ==> !Hit(t, ks[k])
    ensures Hits(ks, t, i) == Hits(ks, t, j)
    decreases j - i
  {
    if i < j {
      HitsSkip(ks, t, i + 1, j);
    }
  }

  /** The search result is the first match, or there is none. */
  ghost predicate FirstOk(ks: seq<Key>, t: Target, r: Option<nat>) {
    match r
    case Some(i) => i < |ks| && Hit(t, ks[i]) && forall j :: 0 <= j < i ==> !Hit(t, ks[j])
    case None => forall j :: 0 <= j < |ks| ==> !Hit(t, ks[j])
  }

  /** The matches are next to each other. */
  ghost predicate Contiguous(ks: seq<Key>, t: Target) {
    forall i, j, k :: 0 <= i < j < k < |ks| && Hit(t, ks[i]) && Hit(t, ks[k]) ==> Hit(t, ks[j])
  }

  /** What the binary search relies on: the keys are ordered with respect to the target. */
  ghost predicate Searchable(ks: seq<Key>, t: Target) {
    forall i, j :: 0 <= i < j < |ks| ==>
      (Probe(t, ks[i]) < 0 ==> Probe(t, ks[j]) < 0) && (Probe(t, ks[j]) > 0 ==> Probe(t, ks[i]) > 0)
  }

  lemma {:induction false} BackUpFirst(ks: seq<Key>, t: Target, current: nat)
    requires current < |ks| && Hit(t, ks[current]) && Contiguous(ks, t)
    ensures FirstOk(ks, t, Some(BackUp(ks, t, current)))
  {
    hide Probe, Hit;
    if current > 0 {
      ProbeZero(t, ks[current - 1]);
      if Hit(t, ks[current - 1]) {
        BackUpFirst(ks, t, current - 1);
      }
    }
  }

  lemma {:induction false} SearchableContiguous(ks: seq<Key>, t: Target)
    requires Searchable(ks, t)
    ensures Contiguous(ks, t)
  {
    hide Probe, Hit;
    forall i, j, k | 0 <= i < j < k < |ks| && Hit(t, ks[i]) && Hit(t, ks[k])
      ensures Hit(t, ks[j])
    {
      ProbeZero(t, ks[i]);
      ProbeZero(t, ks[j]);
      ProbeZero(t, ks[k]);
    }
  }

  lemma {:induction false} BinSearchFirst(ks: seq<Key>, t: Target, first: nat, last: nat)
    requires first <= last < |ks| && Searchable(ks, t)
    requires forall i :: 0 <= i < first ==> !Hit(t, ks[i])
    requires forall i :: last < i < |ks| ==> !Hit(t, ks[i])
    ensures FirstOk(ks, t, BinSearch(ks, t, first, last))
    decreases last - first
  {
    hide Probe, Hit;
    SearchableContiguous(ks, t);
    ProbeZero(t, ks[first]);
    ProbeZero(t, ks[last]);
    if last - first > 1 {
      var current := (first + last) / 2;
      ProbeZero(t, ks[current]);
      forall i | 0 <= i < |ks|
        ensures Probe(t, ks[i]) == 0 <==> Hit(t, ks[i])
      {
        ProbeZero(t, ks[i]);
      }
      if Probe(t, ks[current]) == 0 {
        BackUpFirst(ks, t, current);
      } else if Probe(t, ks[current]) < 0 {
        BinSearchFirst(ks, t, first, current);
      } else {
        BinSearchFirst(ks, t, current, last);
      }
    }
  }

  // ----- repeated calls -----

  /** The `n`-th answer (counted from 0) of calls that start with the cursor at `cur` */
  function Nth(ks: seq<Key>, hasAttr: bool, t: Target, cur: nat, n: nat): Option<nat>
    decreases n
  {
    var (r, cur') := FindStep(ks, hasAttr, t, cur);
    if n == 0 then r else Nth(ks, hasAttr, t, cur', n - 1)
  }

  /** Repeated calls return exactly the matches, in order and once each, and then null for ever. */
  ghost predicate Enumerates(ks: seq<Key>, hasAttr: bool, t: Target) {
    forall n: nat :: Nth(ks, hasAttr, t, 0, n) == if n < |Hits(ks, t, 0)| then Some(Hits(ks, t, 0)[n]) else None
  }

  /** A search that is not a plain enumeration, and that an index with or without attribute allows */
  predicate Proper(hasAttr: bool, t: Target) {
    (hasAttr || t.value.None?) && (t.element.Some? || t.value.Some?)
  }

  /** One call: behind the first it looks at the cursor only. */
  lemma {:induction false} StepAt(ks: seq<Key>, hasAttr: bool, t: Target, cur: nat)
    requires Proper(hasAttr, t) && cur <= |ks|
    ensures cur > 0 ==> FindStep(ks, hasAttr, t, cur) == if cur < |ks| && Hit(t, ks[cur]) then (Some(cur), cur + 1) else (None, |ks|)
    ensures cur == 0 && ks != [] ==>
              FindStep(ks, hasAttr, t, cur) == match BinSearch(ks, t, 0, |ks| - 1) case Some(i) => (Some(i), i + 1) case None => (None, |ks|)
  {
    hide Probe, Hit, BinSearch;
    if cur < |ks| {
      ProbeZero(t, ks[cur]);
    }
  }

  lemma {:induction false} HitsAt(ks: seq<Key>, t: Target, i: nat)
    requires i < |ks| && Hit(t, ks[i])
    ensures Hits(ks, t, i) == [i] + Hits(ks, t, i + 1)
  {
  }

  /** Behind the first call, the answers are the run of matches at the cursor. */
  lemma {:induction false} NthRun(ks: seq<Key>, hasAttr: bool, t: Target, cur: nat, n: nat)
    requires 0 < cur <= |ks| && Proper(hasAttr, t)
    requires forall i, j :: cur <= i < j < |ks| && Hit(t, ks[j]) ==> Hit(t, ks[i])
    ensures Nth(ks, hasAttr, t, cur, n) == if n < |Hits(ks, t, cur)| then Some(Hits(ks, t, cur)[n]) else None
    decreases n
  {
    hide Probe, Hit, FindStep, Hits;
    StepAt(ks, hasAttr, t, cur);
    if cur < |ks| && Hit(t, ks[cur]) {
      HitsAt(ks, t, cur);
      if n > 0 {
        NthRun(ks, hasAttr, t, cur + 1, n - 1);
      }
    } else {
      HitsSkip(ks, t, cur, |ks|);
      NoHits(ks, t);
      if n > 0 {
        NthRun(ks, hasAttr, t, |ks|, n - 1);
      }
    }
  }

  lemma {:induction false} NoHits(ks: seq<Key>, t: Target)
    ensures Hits(ks, t, |ks|) == []
  {
  }

  /** Finding enumerates the matches exactly if the first answer is right and the matches are next
      to each other. */
  lemma {:induction false} EnumeratesIff(ks: seq<Key>, hasAttr: bool, t: Target)
    requires ks != [] && Proper(hasAttr, t)
    ensures Enumerates(ks, hasAttr, t) <==> FirstOk(ks, t, BinSearch(ks, t, 0, |ks| - 1)) && Contiguous(ks, t)
  {
    hide Probe, Hit, BinSearch;
    var r := BinSearch(ks, t, 0, |ks| - 1);
    if FirstOk(ks, t, r) && Contiguous(ks, t) {
      forall n: nat
        ensures Nth(ks, hasAttr, t, 0, n) == if n < |Hits(ks, t, 0)| then Some(Hits(ks, t, 0)[n]) else None
      {
        EnumeratesFrom(ks, hasAttr, t, n);
      }
    }
    if Enumerates(ks, hasAttr, t) {
      EnumeratesOnly(ks, hasAttr, t);
    }
  }

  /** The answers behind the first match, when the matches are next to each other */
  lemma {:induction false} NthBehind(ks: seq<Key>, hasAttr: bool, t: Target, i: nat, n: nat)
    requires i < |ks| && Hit(t, ks[i]) && Proper(hasAttr, t) && Contiguous(ks, t)
    ensures Nth(ks, hasAttr, t, i + 1, n) == if n < |Hits(ks, t, i + 1)| then Some(Hits(ks, t, i + 1)[n]) else None
  {
    hide Hit, Hits, Proper, Nth;
    forall a, b | i + 1 <= a < b < |ks| && Hit(t, ks[b])
      ensures Hit(t, ks[a])
    {
      assert Hit(t, ks[i]) && Hit(t, ks[b]);
    }
    NthRun(ks, hasAttr, t, i + 1, n);
  }

  lemma {:induction false} NthFirst(ks: seq<Key>, hasAttr: bool, t: Target, n: nat)
    ensures var (r, cur) := FindStep(ks, hasAttr, t, 0); Nth(ks, hasAttr, t, 0, n) == if n == 0 then r else Nth(ks, hasAttr, t, cur, n - 1)
  {
    hide FindStep;
  }

  lemma {:induction false} EnumeratesFrom(ks: seq<Key>, hasAttr: bool, t: Target, n: nat)
    requires ks != [] && Proper(hasAttr, t)
    requires FirstOk(ks, t, BinSearch(ks, t, 0, |ks| - 1)) && Contiguous(ks, t)
    ensures Nth(ks, hasAttr, t, 0, n) == if n < |Hits(ks, t, 0)| then Some(Hits(ks, t, 0)[n]) else None
  {
    hide *;
    FirstOkMeans(ks, t, BinSearch(ks, t, 0, |ks| - 1));
    NthFirst(ks, hasAttr, t, n);
    StepAt(ks, hasAttr, t, 0);
    match BinSearch(ks, t, 0, |ks| - 1) {
      case Some(i) =>
        HitsSkip(ks, t, 0, i);
        HitsAt(ks, t, i);
        if n > 0 {
          NthBehind(ks, hasAttr, t, i, n - 1);
        }
      case None =>
        HitsSkip(ks, t, 0, |ks|);
        NoHits(ks, t);
        if n > 0 {
          NthRun(ks, hasAttr, t, |ks|, n - 1);
        }
    }
  }

  lemma {:induction false} FirstOkMeans(ks: seq<Key>, t: Target, r: Option<nat>)
    requires FirstOk(ks, t, r)
    ensures r.Some? ==> r.value < |ks| && Hit(t, ks[r.value]) && forall j :: 0 <= j < r.value ==> !Hit(t, ks[j])
    ensures r.None? ==> forall j :: 0 <= j < |ks| ==> !Hit(t, ks[j])
  {
    hide Hit;
  }

  lemma {:induction false} HitsFirst(ks: seq<Key>, t: Target, i: nat)
    requires i <= |ks|
    ensures Hits(ks, t, i) == [] ==> forall j :: i <= j < |ks| ==> !Hit(t, ks[j])
    ensures Hits(ks, t, i) != [] ==> forall j :: i <= j < Hits(ks, t, i)[0] ==> !Hit(t, ks[j])
    decreases |ks| - i
  {
    if i < |ks| && !Hit(t, ks[i]) {
      HitsFirst(ks, t, i + 1);
    }
  }

  /** Each answer after the first is the position right behind the one before it. */
  lemma {:induction false} NthFollows(ks: seq<Key>, hasAttr: bool, t: Target, cur: nat, n: nat)
    requires Proper(hasAttr, t)
    ensures Nth(ks, hasAttr, t, cur, n + 1).Some? && Nth(ks, hasAttr, t, cur, n).Some? ==>
              Nth(ks, hasAttr, t, cur, n + 1).value == Nth(ks, hasAttr, t, cur, n).value + 1
    decreases n
  {
    hide Probe, BinSearch;
    var (r, cur') := FindStep(ks, hasAttr, t, cur);
    if n > 0 {
      NthFollows(ks, hasAttr, t, cur', n - 1);
    } else {
      assert Nth(ks, hasAttr, t, cur, 1) == Nth(ks, hasAttr, t, cur', 0);
    }
  }

  lemma {:induction false} EnumeratesOnly(ks: seq<Key>, hasAttr: bool, t: Target)
    requires ks != [] && Proper(hasAttr, t)
    requires Enumerates(ks, hasAttr, t)
    ensures FirstOk(ks, t, BinSearch(ks, t, 0, |ks| - 1)) && Contiguous(ks, t)
  {
    hide *;
    var hits := Hits(ks, t, 0);
    FirstAnswer(ks, hasAttr, t);
    forall n | 0 <= n < |hits|
      ensures hits[n] == hits[0] + n
    {
      RunOfHits(ks, hasAttr, t, n);
    }
    HitsInRow(ks, t);
  }

  /** The first answer is the first match. */
  lemma {:induction false} FirstAnswer(ks: seq<Key>, hasAttr: bool, t: Target)
    requires ks != [] && Proper(hasAttr, t) && Enumerates(ks, hasAttr, t)
    ensures FirstOk(ks, t, BinSearch(ks, t, 0, |ks| - 1))
  {
    hide Probe, Hit, BinSearch, FindStep, Hits;
    var hits := Hits(ks, t, 0);
    HitsFirst(ks, t, 0);
    StepAt(ks, hasAttr, t, 0);
    assert Nth(ks, hasAttr, t, 0, 0) == if 0 < |hits| then Some(hits[0]) else None;
  }

  lemma {:induction false} HitsInRow(ks: seq<Key>, t: Target)
    requires forall n :: 0 <= n < |Hits(ks, t, 0)| ==> Hits(ks, t, 0)[n] == Hits(ks, t, 0)[0] + n
    ensures Contiguous(ks, t)
  {
    hide Hit, Hits;
    var hits := Hits(ks, t, 0);
    forall i, j, k | 0 <= i < j < k < |ks| && Hit(t, ks[i]) && Hit(t, ks[k])
      ensures Hit(t, ks[j])
    {
      assert i in hits && k in hits;
      var a :| 0 <= a < |hits| && hits[a] == i;
      var b :| 0 <= b < |hits| && hits[b] == k;
      assert hits[a + (j - i)] == j;
    }
  }

  lemma {:induction false} RunOfHits(ks: seq<Key>, hasAttr: bool, t: Target, n: nat)
    requires Proper(hasAttr, t)
    requires Enumerates(ks, hasAttr, t) && n < |Hits(ks, t, 0)|
    ensures Hits(ks, t, 0)[n] == Hits(ks, t, 0)[0] + n
    decreases n
  {
    hide Nth, Hits;
    if n > 0 {
      RunOfHits(ks, hasAttr, t, n - 1);
      NthFollows(ks, hasAttr, t, 0, n - 1);
      assert Nth(ks, hasAttr, t, 0, n - 1) == Some(Hits(ks, t, 0)[n - 1]);
      assert Nth(ks, hasAttr, t, 0, n) == Some(Hits(ks, t, 0)[n]);
    }
  }

  // ----- when the search is right -----

  ghost predicate SortedKeys(ks: seq<Key>) {
    forall i, j :: 0 <= i < j < |ks| ==> Compare(ks[i], ks[j]) <= 0
  }

  /** Sorted means by name first, and by value among equal names. */
  lemma {:induction false} SortedMeans(ks: seq<Key>)
    ensures SortedKeys(ks) <==>
              forall i, j :: 0 <= i < j < |ks| ==>
                StrCmp(ks[i].name, ks[j].name) < 0 || (ks[i].name == ks[j].name && StrCmp(ks[i].val, ks[j].val) <= 0)
  {
    hide StrCmp;
    forall i, j | 0 <= i < j < |ks|
      ensures Compare(ks[i], ks[j]) <= 0 <==>
                StrCmp(ks[i].name, ks[j].name) < 0 || (ks[i].name == ks[j].name && StrCmp(ks[i].val, ks[j].val) <= 0)
    {
      StrCmpZero(ks[i].name, ks[j].name);
    }
  }

  /** In a sorted index, every search for an element name is well-ordered. */
  lemma {:induction false} SortedSearchable(ks: seq<Key>, t: Target)
    requires SortedKeys(ks)
    requires t.element.Some? || forall i, j :: 0 <= i < |ks| && 0 <= j < |ks| ==> ks[i].name == ks[j].name
    ensures Searchable(ks, t)
  {
    hide Probe, Compare;
    forall i, j | 0 <= i < j < |ks|
      ensures (Probe(t, ks[i]) < 0 ==> Probe(t, ks[j]) < 0) && (Probe(t, ks[j]) > 0 ==> Probe(t, ks[i]) > 0)
    {
      ProbeOrdered(t, ks[i], ks[j]);
    }
  }

  lemma {:induction false} ProbeOrdered(t: Target, a: Key, b: Key)
    requires Compare(a, b) <= 0 && (t.element.Some? || a.name == b.name)
    ensures (Probe(t, a) < 0 ==> Probe(t, b) < 0) && (Probe(t, b) > 0 ==> Probe(t, a) > 0)
  {
    hide StrCmp;
    StrCmpZero(a.name, b.name);
    if t.element.Some? {
      Through(t.element.value, a.name, b.name);
    }
    if t.value.Some? && StrCmp(a.val, b.val) <= 0 {
      Through(t.value.value, a.val, b.val);
    }
  }

  /** Where a string stands relative to two ordered ones */
  lemma {:induction false} Through(x: string, a: string, b: string)
    requires StrCmp(a, b) <= 0
    ensures StrCmp(x, a) < 0 ==> StrCmp(x, b) < 0
    ensures StrCmp(x, b) > 0 ==> StrCmp(x, a) > 0
    ensures StrCmp(x, a) == 0 && StrCmp(a, b) < 0 ==> StrCmp(x, b) < 0
    ensures StrCmp(x, b) == 0 && StrCmp(a, b) < 0 ==> StrCmp(x, a) > 0
    ensures StrCmp(x, a) == 0 && StrCmp(a, b) == 0 ==> StrCmp(x, b) == 0
    ensures StrCmp(x, b) == 0 && StrCmp(a, b) == 0 ==> StrCmp(x, a) == 0
  {
    hide StrCmp;
    StrCmpZero(x, a);
    StrCmpZero(x, b);
    StrCmpZero(a, b);
    StrCmpAntisymmetric(b, x);
    StrCmpAntisymmetric(x, b);
    StrCmpAntisymmetric(a, x);
    StrCmpAntisymmetric(x, a);
    if StrCmp(x, a) <= 0 {
      StrCmpTransitive(x, a, b);
    }
  }

  /** Main result: in a sorted index, repeated calls with the same element name (and optionally a
      value) return exactly the matching nodes, in order and once each, then null for ever. So do
      calls without an element name when all indexed names are equal. */
  lemma {:induction false} FindEnumerates(ks: seq<Key>, hasAttr: bool, t: Target)
    requires SortedKeys(ks) && Proper(hasAttr, t)
    requires t.element.Some? || forall i, j :: 0 <= i < |ks| && 0 <= j < |ks| ==> ks[i].name == ks[j].name
    ensures Enumerates(ks, hasAttr, t)
  {
    hide Probe, Hit, Nth;
    if ks == [] {
      forall n: nat
        ensures Nth(ks, hasAttr, t, 0, n) == None
      {
        NthNone(hasAttr, t, n);
      }
    } else {
      SortedSearchable(ks, t);
      SearchableContiguous(ks, t);
      BinSearchFirst(ks, t, 0, |ks| - 1);
      EnumeratesIff(ks, hasAttr, t);
    }
  }

  lemma {:induction false} NthNone(hasAttr: bool, t: Target, n: nat)
    requires t.element.Some? || t.value.Some?
    ensures Nth([], hasAttr, t, 0, n) == None
  {
    if n > 0 {
      NthNone(hasAttr, t, n - 1);
    }
  }

  // ----- calls that search for nothing -----

  /** With neither a name nor a value the calls return every node of the index in turn, and then null for
      ever. */
  lemma {:induction false} NoTargetLists(ks: seq<Key>, hasAttr: bool, cur: nat, n: nat)
    requires cur <= |ks|
    ensures Nth(ks, hasAttr, Target(None, None), cur, n) == if cur + n < |ks| then Some(cur + n) else None
    decreases n
  {
    if n > 0 {
      NoTargetLists(ks, hasAttr, if cur < |ks| then cur + 1 else cur, n - 1);
    }
  }

  /** A value cannot be searched for without an indexed attribute: the answer is null, and the cursor
      stays. */
  lemma {:induction false} ValueNeedsAttribute(ks: seq<Key>, t: Target, cur: nat)
    requires t.value.Some?
    ensures FindStep(ks, false, t, cur) == (None, cur)
  {
  }

  /** Once a search has answered null, the cursor is at the end: until the next reset every call answers null,
      whatever it looks for. */
  lemma {:induction false} NullIsFinal(ks: seq<Key>, hasAttr: bool, t: Target, cur: nat, u: Target, n: nat)
    requires ks != [] && Proper(hasAttr, t) && FindStep(ks, hasAttr, t, cur).0 == None
    ensures FindStep(ks, hasAttr, t, cur).1 == |ks|
    ensures Nth(ks, hasAttr, u, |ks|, n) == None
    decreases n
  {
    hide BinSearch, Probe;
    if n > 0 {
      NullIsFinal(ks, hasAttr, t, cur, u, n - 1);
    }
  }
}
