/*
 * Toc.Sort of internal/pages/sort_toc.go: the sections of a Toc are lifted
 * into a list, ordered by section order, and each section's entries are
 * ordered by entry order. Both passes are the same non-adjacent exchange
 * sort, which is not stable: items with equal orders may change places.
 */
module TocSort {
  import opened Pages

  predicate SortedBy<T>(s: seq<T>, key: T -> int) {
    forall i, j :: 0 <= i < j < |s| ==> key(s[i]) <= key(s[j])
  }

  function SectionOrder(s: OrderedTocSection): int {
    s.section.order
  }

  function EntryOrder(e: TOCEntry): int {
    e.order
  }

  function Swap<T>(s: seq<T>, i: nat, j: nat): (r: seq<T>)
    requires i < |s| && j < |s|
    ensures |r| == |s|
  {
    s[i := s[j]][j := s[i]]
  }

  // ---------------------------------------------------------------------------
  // The exchange sort, as a function: for each i, every later j is compared
  // with i, and the two are swapped when s[i] orders after s[j].
  // ---------------------------------------------------------------------------

  function InnerPass<T>(s: seq<T>, i: nat, j: nat, key: T -> int): (r: seq<T>)
    requires i < j <= |s|
    ensures |r| == |s|
    decreases |s| - j
  {
    if j == |s| then s
    else InnerPass(if key(s[i]) > key(s[j]) then Swap(s, i, j) else s, i, j + 1, key)
  }

  function OuterPass<T>(s: seq<T>, i: nat, key: T -> int): (r: seq<T>)
    requires i <= |s|
    ensures |r| == |s|
    decreases |s| - i
  {
    if i == |s| then s
    else OuterPass(InnerPass(s, i, i + 1, key), i + 1, key)
  }

  function ExchangeSorted<T>(s: seq<T>, key: T -> int): seq<T> {
    OuterPass(s, 0, key)
  }

  /**
   * The exchange sort of the Go code: the result is the functional exchange
   * sort, it is ordered by `key`, and it is a permutation of the input.
   */
  method ExchangeSort<T>(s: seq<T>, key: T -> int) returns (r: seq<T>)
    ensures r == ExchangeSorted(s, key)
    ensures SortedBy(r, key)
    ensures multiset(r) == multiset(s)
  {
    r := s;
    var i := 0;
    while i < |r|
      invariant 0 <= i <= |r| == |s|
      invariant OuterPass(r, i, key) == ExchangeSorted(s, key)
      invariant multiset(r) == multiset(s)
      invariant forall a, b :: 0 <= a < b < i ==> key(r[a]) <= key(r[b])
      invariant forall a, b :: 0 <= a < i <= b < |r| ==> key(r[a]) <= key(r[b])
      decreases |r| - i
    {
      var r' := ExchangeWithLater(r, i, key);
      OuterStep(r, r', i, key);
      r := r';
      i := i + 1;
    }
  }

  /** After the inner pass for `i`, the first `i + 1` items are in order and before every later one. */
  lemma OuterStep<T>(r: seq<T>, r': seq<T>, i: nat, key: T -> int)
    requires i < |r| == |r'|
    requires r'[..i] == r[..i]
    requires forall a, b :: 0 <= a < b < i ==> key(r[a]) <= key(r[b])
    requires forall a, b :: 0 <= a < i <= b < |r'| ==> key(r'[a]) <= key(r'[b])
    requires forall b :: i < b < |r'| ==> key(r'[i]) <= key(r'[b])
    ensures forall a, b :: 0 <= a < b < i + 1 ==> key(r'[a]) <= key(r'[b])
    ensures forall a, b :: 0 <= a < i + 1 <= b < |r'| ==> key(r'[a]) <= key(r'[b])
  {
    forall a, b | 0 <= a < b < i + 1
      ensures key(r'[a]) <= key(r'[b])
    {
      if b < i {
        assert r'[a] == r'[..i][a] == r[..i][a] == r[a];
        assert r'[b] == r'[..i][b] == r[..i][b] == r[b];
      }
    }
  }

  /**
   * The inner loop for one position `i`: each later item is compared with
   * the one at `i` and swapped in when it orders strictly before it. Items
   * before `i` stay put, and afterwards the item at `i` orders before every
   * later one.
   */
  method ExchangeWithLater<T>(s: seq<T>, i: nat, key: T -> int) returns (r: seq<T>)
    requires i < |s|
    requires forall a, b :: 0 <= a < i <= b < |s| ==> key(s[a]) <= key(s[b])
    ensures r == InnerPass(s, i, i + 1, key)
    ensures multiset(r) == multiset(s)
    ensures |r| == |s| && r[..i] == s[..i]
    ensures forall a, b :: 0 <= a < i <= b < |r| ==> key(r[a]) <= key(r[b])
    ensures forall b :: i < b < |r| ==> key(r[i]) <= key(r[b])
  {
    r := s;
    var j := i + 1;
    while j < |r|
      invariant i < j <= |r| == |s|
      invariant InnerPass(r, i, j, key) == InnerPass(s, i, i + 1, key)
      invariant multiset(r) == multiset(s)
      invariant r[..i] == s[..i]
      invariant forall a, b :: 0 <= a < i <= b < |r| ==> key(r[a]) <= key(r[b])
      invariant forall b :: i < b < j ==> key(r[i]) <= key(r[b])
      decreases |r| - j
    {
      ExchangeStep(r, s, i, j, key);
      r := if key(r[i]) > key(r[j]) then Swap(r, i, j) else r;
      j := j + 1;
    }
  }

  /** One comparison of the inner loop keeps every invariant of that loop, for one more position. */
  lemma ExchangeStep<T>(r: seq<T>, s: seq<T>, i: nat, j: nat, key: T -> int)
    requires i < j < |r| == |s|
    requires multiset(r) == multiset(s)
    requires r[..i] == s[..i]
    requires forall a, b :: 0 <= a < i <= b < |r| ==> key(r[a]) <= key(r[b])
    requires forall b :: i < b < j ==> key(r[i]) <= key(r[b])
    ensures var r' := if key(r[i]) > key(r[j]) then Swap(r, i, j) else r;
      && InnerPass(r, i, j, key) == InnerPass(r', i, j + 1, key)
      && multiset(r') == multiset(s)
      && r'[..i] == s[..i]
      && (forall a, b :: 0 <= a < i <= b < |r'| ==> key(r'[a]) <= key(r'[b]))
      && (forall b :: i < b < j + 1 ==> key(r'[i]) <= key(r'[b]))
  {
    if key(r[i]) > key(r[j]) {
      var r' := Swap(r, i, j);
      SwapKeepsPrefixBelow(r, i, j, key);
      assert r'[..i] == r[..i];
      assert multiset(r') == multiset(r) by { SwapPermutes(r, i, j); }
      forall b | i < b < j + 1
        ensures key(r'[i]) <= key(r'[b])
      {
        if b < j {
          assert r'[b] == r[b];
        }
      }
    }
  }

  /** Swapping two positions only permutes. */
  lemma SwapPermutes<T>(s: seq<T>, i: nat, j: nat)
    requires i < j < |s|
    ensures multiset(Swap(s, i, j)) == multiset(s)
  {
  }

  /** Swapping two items at or after `i` keeps every item before `i` ordered before them. */
  lemma SwapKeepsPrefixBelow<T>(s: seq<T>, i: nat, j: nat, key: T -> int)
    requires i < j < |s|
    requires forall a, b :: 0 <= a < i <= b < |s| ==> key(s[a]) <= key(s[b])
    ensures forall a, b :: 0 <= a < i <= b < |s| ==> key(Swap(s, i, j)[a]) <= key(Swap(s, i, j)[b])
  {
  }

  /**
   * Equal orders are not kept in input order: of two entries with order 1
   * ahead of one with order 0, the first is swapped to the end.
   */
  lemma ExchangeSortIsNotStable()
    ensures
      var a := TOCEntry("a", "a.md", 1);
      var b := TOCEntry("b", "b.md", 1);
      var c := TOCEntry("c", "c.md", 0);
      ExchangeSorted([a, b, c], EntryOrder) == [c, b, a]
  {
    var a := TOCEntry("a", "a.md", 1);
    var b := TOCEntry("b", "b.md", 1);
    var c := TOCEntry("c", "c.md", 0);
    assert InnerPass([a, b, c], 0, 1, EntryOrder) == [c, b, a] by {
      assert InnerPass([a, b, c], 0, 3, EntryOrder) == [a, b, c];
      assert Swap([a, b, c], 0, 2) == [c, b, a];
      assert InnerPass([a, b, c], 0, 2, EntryOrder) == InnerPass([c, b, a], 0, 3, EntryOrder);
    }
    assert InnerPass([c, b, a], 1, 2, EntryOrder) == [c, b, a];
    assert OuterPass([c, b, a], 2, EntryOrder) == [c, b, a];
  }

  // ---------------------------------------------------------------------------
  // Toc.Sort
  // ---------------------------------------------------------------------------

  /** The first loop of Toc.Sort: each section of the Toc, in range order, lifted with its name. */
  function Lift(toc: Toc, keys: seq<string>): (r: seq<OrderedTocSection>)
    requires forall i :: 0 <= i < |keys| ==> keys[i] in toc
    ensures SectionNames(r) == keys
    ensures forall i :: 0 <= i < |r| ==> r[i].name in toc && r[i].section == toc[r[i].name]
    ensures IsEnumeration(keys, toc.Keys) ==> IsEnumeration(SectionNames(r), toc.Keys)
  {
    seq(|keys|, i requires 0 <= i < |keys| => OrderedTocSection(keys[i], toc[keys[i]]))
  }

  /** A section whose entries have been put through the exchange sort by entry order. */
  function WithSortedEntries(s: OrderedTocSection): OrderedTocSection {
    s.(section := s.section.(entries := ExchangeSorted(s.section.entries, EntryOrder)))
  }

  /** What Toc.Sort returns when its range visits the sections in the order `keys`. */
  function SortedToc(toc: Toc, keys: seq<string>): seq<OrderedTocSection>
    requires forall i :: 0 <= i < |keys| ==> keys[i] in toc
  {
    var bySection := ExchangeSorted(Lift(toc, keys), SectionOrder);
    seq(|bySection|, i requires 0 <= i < |bySection| => WithSortedEntries(bySection[i]))
  }

  /**
   * Toc.Sort: every section of the Toc appears exactly once, under its own
   * name and order, the sections are ordered by section order, and each
   * section's entries are a reordering of its own entries sorted by entry order.
   */
  method SortToc(toc: Toc, keys: seq<string>) returns (ordered: seq<OrderedTocSection>)
    requires IsEnumeration(keys, toc.Keys)
    ensures ordered == SortedToc(toc, keys)
    ensures IsEnumeration(SectionNames(ordered), toc.Keys)
    ensures SortedBy(ordered, SectionOrder)
    ensures forall i :: 0 <= i < |ordered| ==>
      var name := ordered[i].name;
      && name in toc
      && ordered[i].section.order == toc[name].order
      && multiset(ordered[i].section.entries) == multiset(toc[name].entries)
      && SortedBy(ordered[i].section.entries, EntryOrder)
  {
    var lifted := Lift(toc, keys);
    var bySection := ExchangeSort(lifted, SectionOrder);
    ReorderedSections(toc, keys, bySection);
    ordered := SortEachSection(bySection);
    assert SectionNames(ordered) == SectionNames(bySection);
  }

  /** The last loop of Toc.Sort: each section's entries are sorted in place, nothing else moves. */
  method SortEachSection(bySection: seq<OrderedTocSection>) returns (ordered: seq<OrderedTocSection>)
    ensures |ordered| == |bySection|
    ensures forall k :: 0 <= k < |ordered| ==>
      && ordered[k] == WithSortedEntries(bySection[k])
      && ordered[k].name == bySection[k].name
      && ordered[k].section.order == bySection[k].section.order
      && multiset(ordered[k].section.entries) == multiset(bySection[k].section.entries)
      && SortedBy(ordered[k].section.entries, EntryOrder)
  {
    ordered := bySection;
    var i := 0;
    while i < |ordered|
      invariant 0 <= i <= |ordered| == |bySection|
      invariant forall k :: 0 <= k < i ==>
        && ordered[k] == WithSortedEntries(bySection[k])
        && multiset(ordered[k].section.entries) == multiset(bySection[k].section.entries)
        && SortedBy(ordered[k].section.entries, EntryOrder)
      invariant forall k :: i <= k < |ordered| ==> ordered[k] == bySection[k]
      decreases |ordered| - i
    {
      var entries := ExchangeSort(ordered[i].section.entries, EntryOrder);
      ordered := ordered[i := ordered[i].(section := ordered[i].section.(entries := entries))];
      i := i + 1;
    }
  }

  /**
   * A reordering of the lifted sections still lists every section once, each
   * under its own name.
   */
  lemma ReorderedSections(toc: Toc, keys: seq<string>, bySection: seq<OrderedTocSection>)
    requires IsEnumeration(keys, toc.Keys)
    requires multiset(bySection) == multiset(Lift(toc, keys))
    ensures IsEnumeration(SectionNames(bySection), toc.Keys)
    ensures forall i :: 0 <= i < |bySection| ==>
      bySection[i].name in toc && bySection[i].section == toc[bySection[i].name]
  {
    var lifted := Lift(toc, keys);
    LiftedDistinct(toc, keys);
    PermutationKeepsDistinct(lifted, bySection);
    OwnSectionsPermuted(toc, lifted, bySection);
    NamesPermuted(lifted, bySection);
    var names := SectionNames(bySection);
    forall i, j | 0 <= i < j < |names|
      ensures names[i] != names[j]
    {
    }
  }

  /** Lifting an enumeration gives pairwise different sections, since their names differ. */
  lemma LiftedDistinct(toc: Toc, keys: seq<string>)
    requires IsEnumeration(keys, toc.Keys)
    ensures Distinct(Lift(toc, keys))
  {
    var lifted := Lift(toc, keys);
    var names := SectionNames(lifted);
    forall i, j | 0 <= i < j < |lifted|
      ensures lifted[i] != lifted[j]
    {
      assert names[i] == keys[i] && names[j] == keys[j];
    }
  }

  /** A reordering keeps each section paired with its own name's section. */
  lemma OwnSectionsPermuted(toc: Toc, lifted: seq<OrderedTocSection>, bySection: seq<OrderedTocSection>)
    requires forall i :: 0 <= i < |lifted| ==> lifted[i].name in toc && lifted[i].section == toc[lifted[i].name]
    requires multiset(bySection) == multiset(lifted)
    ensures forall i :: 0 <= i < |bySection| ==>
      bySection[i].name in toc && bySection[i].section == toc[bySection[i].name]
  {
    forall i | 0 <= i < |bySection|
      ensures bySection[i].name in toc && bySection[i].section == toc[bySection[i].name]
    {
      assert bySection[i] in multiset(lifted);
      var j :| 0 <= j < |lifted| && lifted[j] == bySection[i];
    }
  }

  /** A reordering still carries every name of the original list. */
  lemma NamesPermuted(lifted: seq<OrderedTocSection>, bySection: seq<OrderedTocSection>)
    requires multiset(bySection) == multiset(lifted)
    ensures forall k :: k in SectionNames(lifted) ==> k in SectionNames(bySection)
  {
    var from := SectionNames(lifted);
    var to := SectionNames(bySection);
    forall k | k in from
      ensures k in to
    {
      var j :| 0 <= j < |from| && from[j] == k;
      assert lifted[j] in multiset(bySection);
      var i :| 0 <= i < |bySection| && bySection[i] == lifted[j];
      assert to[i] == k;
    }
  }

  /** A reordering of a list without repeats has no repeats. */
  lemma PermutationKeepsDistinct<T>(a: seq<T>, b: seq<T>)
    requires Distinct(a)
    requires multiset(a) == multiset(b)
    ensures Distinct(b)
  {
    forall i, j | 0 <= i < j < |b|
      ensures b[i] != b[j]
    {
      if b[i] == b[j] {
        RepeatCountsTwice(b, i, j);
        DistinctCountsOnce(a, b[i]);
        assert false;
      }
    }
  }

  lemma {:induction false} DistinctCountsOnce<T>(a: seq<T>, x: T)
    requires Distinct(a)
    ensures multiset(a)[x] <= 1
    decreases |a|
  {
    if a != [] {
      assert a == [a[0]] + a[1..];
      DistinctCountsOnce(a[1..], x);
      if a[0] == x {
        assert x !in a[1..];
      }
    }
  }

  lemma RepeatCountsTwice<T>(b: seq<T>, i: nat, j: nat)
    requires i < j < |b| && b[i] == b[j]
    ensures multiset(b)[b[i]] >= 2
  {
    assert b == b[..i] + [b[i]] + b[i + 1..j] + [b[j]] + b[j + 1..];
  }

  // ---------------------------------------------------------------------------
  // The version "9" Toc of the sort test
  // ---------------------------------------------------------------------------

  function VersionNine(): Toc {
    map[
      "SectionTwo" := TOCSection(10, [
        TOCEntry("DocumentOne", "DocumentOne.md", 2),
        TOCEntry("DocumentTwo", "DocumentTwo.md", 1)]),
      "SectionThree" := TOCSection(15, [
        TOCEntry("DocumentSix", "DocumentSix.md", 18),
        TOCEntry("DocumentFive", "DocumentFive.md", 9)]),
      "SectionOne" := TOCSection(5, [
        TOCEntry("DocumentThree", "DocumentThree.md", 16),
        TOCEntry("DocumentFour", "DocumentFour.md", 12)])
    ]
  }

  /**
   * Whatever order the range visits the sections in, the version "9" Toc
   * sorts to SectionOne, SectionTwo, SectionThree, with the entries of each
   * section in entry order.
   */
  method SortVersionNine(toc: Toc, keys: seq<string>) returns (ordered: seq<OrderedTocSection>)
    requires toc == VersionNine()
    requires IsEnumeration(keys, toc.Keys)
    ensures SectionNames(ordered) == ["SectionOne", "SectionTwo", "SectionThree"]
    ensures Names(ordered[0].section.entries) == ["DocumentFour", "DocumentThree"]
    ensures Names(ordered[1].section.entries) == ["DocumentTwo", "DocumentOne"]
    ensures Names(ordered[2].section.entries) == ["DocumentFive", "DocumentSix"]
  {
    ordered := SortToc(toc, keys);
    VersionNineSections(toc);
    ThreeSectionsInOrder(ordered, toc, "SectionOne", "SectionTwo", "SectionThree");
    NineEntriesInOrder(ordered, toc);
  }

  /** The three sections of the version 9 fixture, with strictly increasing orders. */
  lemma VersionNineSections(toc: Toc)
    requires toc == VersionNine()
    ensures toc.Keys == {"SectionOne", "SectionTwo", "SectionThree"}
    ensures toc["SectionOne"].order < toc["SectionTwo"].order < toc["SectionThree"].order
  {
  }

  lemma NineEntriesInOrder(ordered: seq<OrderedTocSection>, toc: Toc)
    requires toc == VersionNine()
    requires SectionNames(ordered) == ["SectionOne", "SectionTwo", "SectionThree"]
    requires forall i :: 0 <= i < |ordered| ==>
      var name := ordered[i].name;
      && name in toc
      && multiset(ordered[i].section.entries) == multiset(toc[name].entries)
      && SortedBy(ordered[i].section.entries, EntryOrder)
    ensures Names(ordered[0].section.entries) == ["DocumentFour", "DocumentThree"]
    ensures Names(ordered[1].section.entries) == ["DocumentTwo", "DocumentOne"]
    ensures Names(ordered[2].section.entries) == ["DocumentFive", "DocumentSix"]
  {
    assert ordered[0].name == "SectionOne";
    TwoSorted(ordered[0].section.entries, toc["SectionOne"].entries);
    assert ordered[1].name == "SectionTwo";
    TwoSorted(ordered[1].section.entries, toc["SectionTwo"].entries);
    assert ordered[2].name == "SectionThree";
    TwoSorted(ordered[2].section.entries, toc["SectionThree"].entries);
  }

  /**
   * Three sections with different orders have one sorted arrangement: a list
   * that names each of them once and is sorted by order is that arrangement.
   */
  lemma ThreeSectionsInOrder(ordered: seq<OrderedTocSection>, toc: Toc, n1: string, n2: string, n3: string)
    requires toc.Keys == {n1, n2, n3}
    requires toc[n1].order < toc[n2].order < toc[n3].order
    requires IsEnumeration(SectionNames(ordered), toc.Keys)
    requires SortedBy(ordered, SectionOrder)
    requires forall i :: 0 <= i < |ordered| ==>
      ordered[i].name in toc && ordered[i].section.order == toc[ordered[i].name].order
    ensures SectionNames(ordered) == [n1, n2, n3]
  {
    var names := SectionNames(ordered);
    var i1 :| 0 <= i1 < |names| && names[i1] == n1;
    var i2 :| 0 <= i2 < |names| && names[i2] == n2;
    var i3 :| 0 <= i3 < |names| && names[i3] == n3;
    assert i1 == 0 by {
      assert SectionOrder(ordered[0]) <= SectionOrder(ordered[i1]);
    }
    assert 1 <= i2 && SectionOrder(ordered[1]) <= SectionOrder(ordered[i2]);
    assert i2 == 1;
    assert 2 <= i3 && SectionOrder(ordered[2]) <= SectionOrder(ordered[i3]);
    assert i3 == 2;
    assert |toc.Keys| == 3;
    DistinctWithin(names, toc.Keys);
    assert names == [names[0], names[1], names[2]];
  }

  /** A list without repeats drawn from a set is no longer than the set is large. */
  lemma {:induction false} DistinctWithin(s: seq<string>, from: set<string>)
    requires Distinct(s)
    requires forall i :: 0 <= i < |s| ==> s[i] in from
    ensures |s| <= |from|
    decreases |s|
  {
    if s != [] {
      DistinctWithin(s[1..], from - {s[0]});
    }
  }

  /** Two entries with different orders have one sorted arrangement. */
  lemma TwoSorted(s: seq<TOCEntry>, t: seq<TOCEntry>)
    requires |t| == 2 && t[0].order != t[1].order
    requires multiset(s) == multiset(t)
    requires SortedBy(s, EntryOrder)
    ensures s == if t[0].order < t[1].order then t else [t[1], t[0]]
  {
    assert |s| == |multiset(s)| == 2;
    assert s == [s[0], s[1]] && t == [t[0], t[1]];
    assert s[0] in multiset(t) && s[1] in multiset(t);
  }
}
