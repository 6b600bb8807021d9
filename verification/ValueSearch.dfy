/** Searching an index by attribute value alone. The index is sorted by element name first, so the
    values need not be in order, and then the binary search misses nodes. */
module ValueSearch {
  import opened Options
  import opened Chars
  import opened Sorting
  import opened IndexSearch

  function ByValue(v: string): Target {
    Target(None, Some(v))
  }

  predicate AtMostVal(a: Key, b: Key) {
    StrCmp(a.val, b.val) <= 0
  }

  /** The values are in `strcmp` order along the index. */
  ghost predicate ValuesAscend(ks: seq<Key>) {
    forall i, j :: 0 <= i < j < |ks| ==> AtMostVal(ks[i], ks[j])
  }

  /** A sorted index in which a search by value finds nothing although there is a match */
  lemma {:induction false} ValueSearchCanMiss()
    ensures var ks := [Key("a", "3"), Key("b", "1"), Key("c", "2")];
            SortedKeys(ks) && Hit(ByValue("3"), ks[0]) && BinSearch(ks, ByValue("3"), 0, 2) == None
    ensures !Enumerates([Key("a", "3"), Key("b", "1"), Key("c", "2")], true, ByValue("3"))
  {
    var ks := [Key("a", "3"), Key("b", "1"), Key("c", "2")];
    var t := ByValue("3");
    assert StrCmp("3", "1") == 2 && StrCmp("3", "2") == 1;
    assert BinSearch(ks, t, 0, 2) == BinSearch(ks, t, 1, 2);
    assert Hit(t, ks[0]);
    EnumeratesIff(ks, true, t);
  }

  // ----- values in order are enough -----

  lemma {:induction false} AscendingSearchable(ks: seq<Key>, v: string)
    requires ValuesAscend(ks)
    ensures Searchable(ks, ByValue(v))
  {
    hide StrCmp;
    forall i, j | 0 <= i < j < |ks|
      ensures (Probe(ByValue(v), ks[i]) < 0 ==> Probe(ByValue(v), ks[j]) < 0) &&
              (Probe(ByValue(v), ks[j]) > 0 ==> Probe(ByValue(v), ks[i]) > 0)
    {
      assert AtMostVal(ks[i], ks[j]);
      Through(v, ks[i].val, ks[j].val);
    }
  }

  /** Up to two nodes are looked at one by one. */
  lemma {:induction false} SmallIsRight(ks: seq<Key>, t: Target)
    requires 0 < |ks| <= 2
    ensures FirstOk(ks, t, BinSearch(ks, t, 0, |ks| - 1)) && Contiguous(ks, t)
  {
    hide Probe, Hit;
    ProbeZero(t, ks[0]);
    ProbeZero(t, ks[|ks| - 1]);
  }

  // ----- and necessary -----

  /** Every value is found completely. */
  ghost predicate AllFound(ks: seq<Key>)
    requires ks != []
  {
    forall v :: FoundAll(ks, v)
  }

  ghost predicate FoundAll(ks: seq<Key>, v: string)
    requires ks != []
  {
    FirstOk(ks, ByValue(v), BinSearch(ks, ByValue(v), 0, |ks| - 1)) && Contiguous(ks, ByValue(v))
  }

  /** The search for `v` comes to the window from `first` to `last`. */
  ghost predicate Reaches(ks: seq<Key>, v: string, first: nat, last: nat)
    requires first <= last < |ks|
  {
    BinSearch(ks, ByValue(v), 0, |ks| - 1) == BinSearch(ks, ByValue(v), first, last)
  }

  /** What is known of a window whose left (right) end was probed if `pl` (`pr`): its values lie
      between those of its probed ends, and the search for each value strictly between comes here. */
  ghost predicate Window(ks: seq<Key>, first: nat, last: nat, pl: bool, pr: bool) {
    && first < last < |ks|
    && (forall i :: first <= i <= last ==> (pl ==> AtMostVal(ks[first], ks[i])) && (pr ==> AtMostVal(ks[i], ks[last])))
    && (forall i :: first <= i <= last && (pl ==> ks[i].val != ks[first].val) && (pr ==> ks[i].val != ks[last].val) ==>
          Reaches(ks, ks[i].val, first, last))
  }

  lemma {:induction false} HitVal(k: Key, v: string)
    ensures Hit(ByValue(v), k) <==> k.val == v
  {
  }

  /** The search never looks outside its window, except to step back along a run. */
  lemma {:induction false} SearchStays(ks: seq<Key>, t: Target, first: nat, last: nat)
    requires first <= last < |ks| && Contiguous(ks, t)
    ensures BinSearch(ks, t, first, last).Some? ==>
              exists j :: first <= j <= last && Hit(t, ks[j]) && BinSearch(ks, t, first, last).value <= j
    decreases last - first
  {
    hide Probe, Hit;
    ProbeZero(t, ks[first]);
    ProbeZero(t, ks[last]);
    if last - first > 1 {
      var current := (first + last) / 2;
      ProbeZero(t, ks[current]);
      SearchStays(ks, t, first, current);
      SearchStays(ks, t, current, last);
    }
  }

  lemma {:induction false} StepLeft(ks: seq<Key>, v: string, first: nat, last: nat)
    requires first + 1 < last < |ks|
    ensures var m := (first + last) / 2;
            (StrCmp(v, ks[m].val) < 0 ==> BinSearch(ks, ByValue(v), first, last) == BinSearch(ks, ByValue(v), first, m)) &&
            (StrCmp(v, ks[m].val) > 0 ==> BinSearch(ks, ByValue(v), first, last) == BinSearch(ks, ByValue(v), m, last))
  {
    hide StrCmp;
  }

  /** A value left of the middle is not behind the middle's value, and conversely. */
  lemma {:induction false} MiddleDivides(ks: seq<Key>, first: nat, last: nat, pl: bool, pr: bool, i: nat)
    requires ks != [] && AllFound(ks) && Window(ks, first, last, pl, pr) && first + 1 < last && first <= i <= last
    ensures var m := (first + last) / 2;
            (i <= m ==> AtMostVal(ks[i], ks[m])) && (m <= i ==> AtMostVal(ks[m], ks[i]))
  {
    hide StrCmp, BinSearch, Hit, Probe;
    var m := (first + last) / 2;
    var v := ks[i].val;
    var t := ByValue(v);
    StrCmpZero(v, ks[m].val);
    StrCmpAntisymmetric(v, ks[m].val);
    StrCmpAntisymmetric(ks[m].val, v);
    assert FoundAll(ks, v);
    if v != ks[m].val && i != m {
      HitVal(ks[i], v);
      HitVal(ks[m], v);
      HitVal(ks[first], v);
      HitVal(ks[last], v);
      assert pl ==> AtMostVal(ks[first], ks[m]);
      assert pr ==> AtMostVal(ks[m], ks[last]);
      if i < m && StrCmp(v, ks[m].val) > 0 {
        assert Reaches(ks, v, first, last);
        StepLeft(ks, v, first, last);
        SearchStays(ks, t, m, last);
      } else if m < i && StrCmp(v, ks[m].val) < 0 {
        assert Reaches(ks, v, first, last);
        StepLeft(ks, v, first, last);
        SearchStays(ks, t, first, m);
      }
    }
  }

  /** Both halves of a window are windows. */
  lemma {:induction false} Halves(ks: seq<Key>, first: nat, last: nat, pl: bool, pr: bool)
    requires ks != [] && AllFound(ks) && Window(ks, first, last, pl, pr) && first + 1 < last
    ensures var m := (first + last) / 2; Window(ks, first, m, pl, true) && Window(ks, m, last, true, pr)
  {
    hide StrCmp, BinSearch, FoundAll;
    var m := (first + last) / 2;
    forall i | first <= i <= last
      ensures if i <= m then AtMostVal(ks[i], ks[m]) else AtMostVal(ks[m], ks[i])
      ensures AtMostVal(ks[m], ks[m])
    {
      MiddleDivides(ks, first, last, pl, pr, i);
      MiddleDivides(ks, first, last, pl, pr, m);
    }
    forall i | first <= i <= m && (pl ==> ks[i].val != ks[first].val) && ks[i].val != ks[m].val
      ensures Reaches(ks, ks[i].val, first, m)
    {
      NotTheEnd(ks, i, m, last, pr);
      Strictly(ks[i], ks[m]);
      StepLeft(ks, ks[i].val, first, last);
    }
    forall i | m <= i <= last && ks[i].val != ks[m].val && (pr ==> ks[i].val != ks[last].val)
      ensures Reaches(ks, ks[i].val, m, last)
    {
      NotTheStart(ks, i, m, first, pl);
      Strictly(ks[m], ks[i]);
      StepLeft(ks, ks[i].val, first, last);
    }
  }

  lemma {:induction false} Strictly(a: Key, b: Key)
    requires AtMostVal(a, b) && a.val != b.val
    ensures StrCmp(a.val, b.val) < 0 && StrCmp(b.val, a.val) > 0
  {
    hide StrCmp;
    StrCmpZero(a.val, b.val);
    StrCmpAntisymmetric(a.val, b.val);
  }

  lemma {:induction false} NotTheEnd(ks: seq<Key>, i: nat, m: nat, last: nat, pr: bool)
    requires i < |ks| && m < |ks| && last < |ks| && AtMostVal(ks[i], ks[m]) && ks[i].val != ks[m].val
    requires pr ==> AtMostVal(ks[m], ks[last])
    ensures pr ==> ks[i].val != ks[last].val
  {
    hide StrCmp;
    Strictly(ks[i], ks[m]);
  }

  lemma {:induction false} NotTheStart(ks: seq<Key>, i: nat, m: nat, first: nat, pl: bool)
    requires i < |ks| && m < |ks| && first < |ks| && AtMostVal(ks[m], ks[i]) && ks[i].val != ks[m].val
    requires pl ==> AtMostVal(ks[first], ks[m])
    ensures pl ==> ks[i].val != ks[first].val
  {
    hide StrCmp;
    Strictly(ks[m], ks[i]);
  }

  /** In a window with a probed end the values are in order. */
  lemma {:induction false} WindowAscends(ks: seq<Key>, first: nat, last: nat, pl: bool, pr: bool, i: nat, j: nat)
    requires ks != [] && AllFound(ks) && Window(ks, first, last, pl, pr)
    requires first <= i < j <= last && (last == first + 1 ==> pl || pr)
    ensures AtMostVal(ks[i], ks[j])
    decreases last - first
  {
    hide StrCmp, BinSearch, AllFound, Reaches;
    if last > first + 1 {
      var m := (first + last) / 2;
      Halves(ks, first, last, pl, pr);
      if j <= m {
        WindowAscends(ks, first, m, pl, true, i, j);
      } else if m <= i {
        WindowAscends(ks, m, last, true, pr, i, j);
      } else {
        StrCmpTransitive(ks[i].val, ks[m].val, ks[j].val);
      }
    }
  }

  /** Exactly when searching by value works: an index of more than two nodes finds every value
      completely if and only if its values are in order. */
  lemma {:induction false} ValueSearchExact(ks: seq<Key>)
    requires ks != []
    ensures (forall v :: Enumerates(ks, true, ByValue(v))) <==> |ks| <= 2 || ValuesAscend(ks)
  {
    hide StrCmp, BinSearch, Enumerates, Probe, Hit, ValuesAscend;
    forall v
      ensures Enumerates(ks, true, ByValue(v)) <==> FoundAll(ks, v)
    {
      EnumeratesIff(ks, true, ByValue(v));
    }
    if |ks| <= 2 || ValuesAscend(ks) {
      forall v
        ensures FoundAll(ks, v)
      {
        Enough(ks, v);
      }
    } else if AllFound(ks) {
      Needed(ks);
    }
  }

  lemma {:induction false} Enough(ks: seq<Key>, v: string)
    requires ks != [] && (|ks| <= 2 || ValuesAscend(ks))
    ensures FoundAll(ks, v)
  {
    hide StrCmp, BinSearch, Probe, Hit;
    if |ks| <= 2 {
      SmallIsRight(ks, ByValue(v));
    } else {
      AscendingSearchable(ks, v);
      SearchableContiguous(ks, ByValue(v));
      BinSearchFirst(ks, ByValue(v), 0, |ks| - 1);
    }
  }

  lemma {:induction false} Needed(ks: seq<Key>)
    requires |ks| > 2 && AllFound(ks)
    ensures ValuesAscend(ks)
  {
    hide StrCmp, BinSearch, Probe, Hit, AllFound;
    var last := |ks| - 1;
    assert Window(ks, 0, last, false, false);
    forall i, j | 0 <= i < j < |ks|
      ensures AtMostVal(ks[i], ks[j])
    {
      WindowAscends(ks, 0, last, false, false, i, j);
    }
  }
}
