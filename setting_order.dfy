/** The order in which the pick-list shows mapped settings: the comparator
    that the settings list is sorted with, and a stable insertion sort that
    says what sorting with it produces. */
module SettingOrder {
  import opened Settings
  import opened LocaleOrder

  /** The sort comparator: duplicate-flagged settings before the others,
      and by source name inside each of the two groups. */
  function Compare(a: MappedSetting, b: MappedSetting): (r: int)
    ensures a.isDuplicate && !b.isDuplicate ==> r < 0
    ensures !a.isDuplicate && b.isDuplicate ==> r > 0
    ensures a.isDuplicate == b.isDuplicate ==>
      (r <= 0 <==> LocaleCompare(a.sublime.name, b.sublime.name) <= 0)
    ensures r == 0 <==> a.isDuplicate == b.isDuplicate && a.sublime.name == b.sublime.name
  {
    if a.isDuplicate && b.isDuplicate then
      LocaleCompare(a.sublime.name, b.sublime.name)
    else if a.isDuplicate then
      -1
    else if b.isDuplicate then
      1
    else
      LocaleCompare(a.sublime.name, b.sublime.name)
  }

  /** The comparator is antisymmetric in sign. */
  lemma CompareAntisymmetric(a: MappedSetting, b: MappedSetting)
    ensures Compare(b, a) == -Compare(a, b)
  {
    LocaleCompareAntisymmetric(a.sublime.name, b.sublime.name);
  }

  /** The comparator is transitive, so it is a total preorder: a consistent
      comparison function for the sort. */
  lemma CompareTransitive(a: MappedSetting, b: MappedSetting, c: MappedSetting)
    requires Compare(a, b) <= 0 && Compare(b, c) <= 0
    ensures Compare(a, c) <= 0
  {
    if a.isDuplicate == b.isDuplicate == c.isDuplicate {
      LocaleCompareTransitive(a.sublime.name, b.sublime.name, c.sublime.name);
    }
  }

  /** Every element sorts no later than every element after it. */
  ghost predicate Sorted(s: seq<MappedSetting>) {
    forall i, j :: 0 <= i < j < |s| ==> Compare(s[i], s[j]) <= 0
  }

  /** Every duplicate-flagged setting comes before every other setting. */
  ghost predicate DuplicatesFirst(s: seq<MappedSetting>) {
    forall i, j :: 0 <= i < j < |s| && s[j].isDuplicate ==> s[i].isDuplicate
  }

  /** Inside each group, source names are in non-decreasing order. */
  ghost predicate NamesOrderedInGroups(s: seq<MappedSetting>) {
    forall i, j :: 0 <= i < j < |s| && s[i].isDuplicate == s[j].isDuplicate ==>
      LocaleCompare(s[i].sublime.name, s[j].sublime.name) <= 0
  }

  /** Sorted by the comparator means exactly: duplicates first, and names in
      order within the duplicates and within the rest. */
  lemma SortedIffGrouped(s: seq<MappedSetting>)
    ensures Sorted(s) <==> DuplicatesFirst(s) && NamesOrderedInGroups(s)
  {
    if Sorted(s) {
      forall i, j | 0 <= i < j < |s| && s[j].isDuplicate ensures s[i].isDuplicate {
        assert Compare(s[i], s[j]) <= 0;
      }
    }
  }

  /** Inserts `x` into `s` right after the last element that sorts no later
      than `x`, scanning from the end: the step an in-place insertion sort
      takes when it moves the next element left past every element greater
      than it. */
  function Insert(s: seq<MappedSetting>, x: MappedSetting): (r: seq<MappedSetting>)
    ensures |r| == |s| + 1
    decreases |s|
  {
    if s == [] || Compare(s[|s| - 1], x) <= 0 then
      s + [x]
    else
      Insert(s[..|s| - 1], x) + [s[|s| - 1]]
  }

  /** Stable sort by the comparator, as insertion sort from the left. */
  function StableSort(s: seq<MappedSetting>): (r: seq<MappedSetting>)
    ensures |r| == |s|
    decreases |s|
  {
    if s == [] then
      []
    else
      Insert(StableSort(s[..|s| - 1]), s[|s| - 1])
  }

  /** Inserting adds `x` and loses nothing. */
  lemma {:induction false} InsertPermutes(s: seq<MappedSetting>, x: MappedSetting)
    ensures multiset(Insert(s, x)) == multiset(s) + multiset{x}
    decreases |s|
  {
    if s != [] && Compare(s[|s| - 1], x) > 0 {
      InsertPermutes(s[..|s| - 1], x);
      assert s == s[..|s| - 1] + [s[|s| - 1]];
    }
  }

  /** The stable sort is a permutation: nothing is added, lost or altered. */
  lemma {:induction false} StableSortPermutes(s: seq<MappedSetting>)
    ensures multiset(StableSort(s)) == multiset(s)
    decreases |s|
  {
    if s != [] {
      StableSortPermutes(s[..|s| - 1]);
      InsertPermutes(StableSort(s[..|s| - 1]), s[|s| - 1]);
      assert s == s[..|s| - 1] + [s[|s| - 1]];
    }
  }

  /** Appending an element that sorts no earlier than everything in a
      sorted list keeps it sorted. */
  lemma SortedAppend(t: seq<MappedSetting>, x: MappedSetting)
    requires Sorted(t)
    requires forall k :: 0 <= k < |t| ==> Compare(t[k], x) <= 0
    ensures Sorted(t + [x])
  {
    var r := t + [x];
    forall i, j | 0 <= i < j < |r| ensures Compare(r[i], r[j]) <= 0 {
      assert r[i] == t[i];
      if j < |t| {
        assert r[j] == t[j];
      }
    }
  }

  /** Sorting one more element of a list inserts it into the sorted prefix. */
  lemma StableSortSnoc(s: seq<MappedSetting>, i: nat)
    requires i < |s|
    ensures StableSort(s[..i + 1]) == Insert(StableSort(s[..i]), s[i])
  {
    assert s[..i + 1][..i] == s[..i];
  }

  lemma {:induction false} InsertSorted(s: seq<MappedSetting>, x: MappedSetting)
    requires Sorted(s)
    ensures Sorted(Insert(s, x))
    decreases |s|
  {
    if s == [] {
    } else if Compare(s[|s| - 1], x) <= 0 {
      forall k | 0 <= k < |s| ensures Compare(s[k], x) <= 0 {
        if k < |s| - 1 {
          CompareTransitive(s[k], s[|s| - 1], x);
        }
      }
      SortedAppend(s, x);
    } else {
      var init, last := s[..|s| - 1], s[|s| - 1];
      var t := Insert(init, x);
      InsertSorted(init, x);
      InsertPermutes(init, x);
      CompareAntisymmetric(last, x);
      forall k | 0 <= k < |t| ensures Compare(t[k], last) <= 0 {
        assert t[k] in multiset(t);
        if t[k] != x {
          assert t[k] in multiset(init);
          var m :| 0 <= m < |init| && init[m] == t[k];
          assert s[m] == t[k];
        }
      }
      SortedAppend(t, last);
    }
  }

  /** The stable sort's result is sorted by the comparator. */
  lemma {:induction false} StableSortSorted(s: seq<MappedSetting>)
    ensures Sorted(StableSort(s))
    decreases |s|
  {
    if s != [] {
      StableSortSorted(s[..|s| - 1]);
      InsertSorted(StableSort(s[..|s| - 1]), s[|s| - 1]);
    }
  }

  /** A list already in order is left exactly as it is, ties included: the
      sort is stable and idempotent. */
  lemma {:induction false} StableSortOfSorted(s: seq<MappedSetting>)
    requires Sorted(s)
    ensures StableSort(s) == s
    decreases |s|
  {
    if s != [] {
      var init, last := s[..|s| - 1], s[|s| - 1];
      assert Sorted(init) by {
        forall i, j | 0 <= i < j < |init| ensures Compare(init[i], init[j]) <= 0 {
          assert init[i] == s[i] && init[j] == s[j];
        }
      }
      StableSortOfSorted(init);
      assert init != [] ==> Compare(init[|init| - 1], last) <= 0;
      assert Insert(init, last) == init + [last];
      assert s == init + [last];
    }
  }

  /** The elements of `s` that tie with `e` under the comparator, in their
      order in `s`. */
  function TiesWith(s: seq<MappedSetting>, e: MappedSetting): (r: seq<MappedSetting>)
    ensures |r| <= |s|
    ensures forall k :: 0 <= k < |r| ==> Compare(r[k], e) == 0
    decreases |s|
  {
    if s == [] then
      []
    else
      TiesWith(s[..|s| - 1], e) + (if Compare(s[|s| - 1], e) == 0 then [s[|s| - 1]] else [])
  }

  /** Inserting `x` adds it after every element that ties with it and
      leaves the order of the other ties alone. */
  lemma {:induction false} InsertKeepsTies(s: seq<MappedSetting>, x: MappedSetting, e: MappedSetting)
    ensures TiesWith(Insert(s, x), e) ==
            TiesWith(s, e) + (if Compare(x, e) == 0 then [x] else [])
    decreases |s|
  {
    var tx := if Compare(x, e) == 0 then [x] else [];
    if s == [] || Compare(s[|s| - 1], x) <= 0 {
      assert (s + [x])[..|s|] == s;
    } else {
      var init, last := s[..|s| - 1], s[|s| - 1];
      var tl := if Compare(last, e) == 0 then [last] else [];
      InsertKeepsTies(init, x, e);
      var t := Insert(init, x);
      assert (t + [last])[..|t|] == t;
      assert TiesWith(t + [last], e) == TiesWith(init, e) + tx + tl;
      // `last` sorts strictly after `x`, so the two cannot both tie with `e`.
      assert tx == [] || tl == [];
      assert TiesWith(s, e) == TiesWith(init, e) + tl;
    }
  }

  /** Stability: for every `e`, the elements that tie with `e` come out of
      the sort in the order they went in. */
  lemma {:induction false} StableSortKeepsTies(s: seq<MappedSetting>, e: MappedSetting)
    ensures TiesWith(StableSort(s), e) == TiesWith(s, e)
    decreases |s|
  {
    if s != [] {
      StableSortKeepsTies(s[..|s| - 1], e);
      InsertKeepsTies(StableSort(s[..|s| - 1]), s[|s| - 1], e);
    }
  }

  lemma StableSortIdempotent(s: seq<MappedSetting>)
    ensures StableSort(StableSort(s)) == StableSort(s)
  {
    StableSortSorted(s);
    StableSortOfSorted(StableSort(s));
  }
}
