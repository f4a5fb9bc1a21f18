/*
 * The merge stage of the book builder (internal/book/book.go): each version's
 * own table of contents is merged over the shared one, section by section,
 * and each version's documents are overlaid on the shared documents.
 *
 * A Go `range` over a map is modelled by an explicit enumeration of its keys
 * (`IsEnumeration`), or, inside methods, by `Pages.Enumerate`.
 */
module Book {
  import opened Pages

  // ---------------------------------------------------------------------------
  // Entry merge (the loop over a version section's entries)
  // ---------------------------------------------------------------------------

  /** Position `i` holds the first occurrence of `name`. */
  predicate IsFirstNamed(names: seq<string>, i: int, name: string) {
    0 <= i < |names| && names[i] == name && forall j :: 0 <= j < i ==> names[j] != name
  }

  /** The scan for a matching shared entry: the index of the first entry called `name`. */
  function FirstIndexOf(names: seq<string>, name: string): (r: Option<nat>)
    ensures r.Some? ==> IsFirstNamed(names, r.value, name)
    ensures r.None? <==> name !in names
  {
    if |names| == 0 then None
    else if names[0] == name then Some(0)
    else
      match FirstIndexOf(names[1..], name)
      case None => None
      case Some(i) => Some(i + 1)
  }

  /**
   * One version entry merged into the entries built so far: it replaces the
   * first entry with the same name, in place, or else is appended.
   */
  function ReplaceOrAppend(entries: seq<TOCEntry>, e: TOCEntry): (r: seq<TOCEntry>)
    ensures e.name in Names(entries) ==> |r| == |entries| && Names(r) == Names(entries)
    ensures e.name in Names(entries) ==>
      forall j :: 0 <= j < |entries| ==>
        r[j] == if IsFirstNamed(Names(entries), j, e.name) then e else entries[j]
    ensures e.name !in Names(entries) ==> r == entries + [e]
  {
    match FirstIndexOf(Names(entries), e.name)
    case Some(k) => entries[k := e]
    case None => entries + [e]
  }

  /**
   * The entries of a section present in both the seeded Toc and the version:
   * the seeded entries, then each version entry in turn replaces or appends.
   * No seeded entry is dropped, and each keeps its position and its name.
   */
  function MergeEntries(existing: seq<TOCEntry>, versioned: seq<TOCEntry>): (r: seq<TOCEntry>)
    ensures |existing| <= |r|
    ensures Names(r)[..|existing|] == Names(existing)
    decreases |versioned|
  {
    if |versioned| == 0 then existing
    else MergeEntries(ReplaceOrAppend(existing, versioned[0]), versioned[1..])
  }

  lemma NamesTail(s: seq<TOCEntry>)
    requires |s| > 0
    ensures Names(s[1..]) == Names(s)[1..]
    ensures Names(s) == [s[0].name] + Names(s[1..])
  {
  }

  /** Every entry of a merged list is a seeded entry or the version's entry. */
  lemma ReplaceOrAppendDrawsFrom(entries: seq<TOCEntry>, e: TOCEntry)
    ensures forall x :: x in ReplaceOrAppend(entries, e) ==> x in entries || x == e
  {
    var r := ReplaceOrAppend(entries, e);
    forall x | x in r
      ensures x in entries || x == e
    {
      var j :| 0 <= j < |r| && r[j] == x;
      if j < |entries| {
        if e.name in Names(entries) {
          assert r[j] == e || r[j] == entries[j];
        } else {
          assert r[j] == entries[j];
        }
      }
    }
  }

  /** A seeded entry whose name the version never uses comes through unchanged, in place. */
  lemma {:induction false} MergeLeavesUnmentioned(existing: seq<TOCEntry>, versioned: seq<TOCEntry>)
    ensures forall i :: 0 <= i < |existing| && existing[i].name !in Names(versioned) ==>
      MergeEntries(existing, versioned)[i] == existing[i]
    decreases |versioned|
  {
    if |versioned| > 0 {
      var e' := ReplaceOrAppend(existing, versioned[0]);
      MergeLeavesUnmentioned(e', versioned[1..]);
      NamesTail(versioned);
      forall i | 0 <= i < |existing| && existing[i].name !in Names(versioned)
        ensures MergeEntries(existing, versioned)[i] == existing[i]
      {
        assert existing[i].name != versioned[0].name;
        assert Names(existing)[i] == existing[i].name;
        assert e'[i] == existing[i];
        assert Names(e')[..|existing|] == Names(existing);
        assert e'[i].name !in Names(versioned[1..]);
      }
    }
  }

  /** The merge invents nothing: every entry is a seeded entry or a version entry. */
  lemma {:induction false} MergeDrawsFrom(existing: seq<TOCEntry>, versioned: seq<TOCEntry>)
    ensures forall x :: x in MergeEntries(existing, versioned) ==> x in existing || x in versioned
    decreases |versioned|
  {
    if |versioned| > 0 {
      var e' := ReplaceOrAppend(existing, versioned[0]);
      MergeDrawsFrom(e', versioned[1..]);
      ReplaceOrAppendDrawsFrom(existing, versioned[0]);
      assert versioned == [versioned[0]] + versioned[1..];
    }
  }

  /** No version name is dropped: each is present in the merged list. */
  lemma {:induction false} MergeCoversVersionNames(existing: seq<TOCEntry>, versioned: seq<TOCEntry>)
    ensures forall v :: v in versioned ==> v.name in Names(MergeEntries(existing, versioned))
    decreases |versioned|
  {
    if |versioned| > 0 {
      var v0 := versioned[0];
      var e' := ReplaceOrAppend(existing, v0);
      var r := MergeEntries(existing, versioned);
      MergeCoversVersionNames(e', versioned[1..]);
      assert v0.name in Names(e') by {
        if v0.name !in Names(existing) {
          assert Names(e')[|existing|] == v0.name;
        }
      }
      assert Names(r)[..|e'|] == Names(e');
      assert v0.name in Names(r);
      assert versioned == [v0] + versioned[1..];
    }
  }

  /**
   * A version that repeats a name keeps only its last entry of that name: the
   * second replaces the first in the slot the first appended.
   */
  lemma RepeatedNameKeepsLast(x1: TOCEntry, x2: TOCEntry)
    requires x1.name == x2.name
    ensures MergeEntries([], [x1, x2]) == [x2]
  {
    var e' := ReplaceOrAppend([], x1);
    assert e' == [x1];
    assert Names(e') == [x2.name];
    assert FirstIndexOf(Names(e'), x2.name) == Some(0);
    assert ReplaceOrAppend(e', x2) == [x2];
    assert [x1, x2][1..] == [x2];
    assert MergeEntries([], [x1, x2]) == MergeEntries(e', [x2]);
  }

  lemma NameAbsentMeansEntryAbsent(s: seq<TOCEntry>, x: TOCEntry)
    requires x.name !in Names(s)
    ensures x !in s
  {
  }

  /** The entries after the seeded ones are version entries under names the seeded list does not have. */
  lemma {:induction false} MergeAppendsNewNames(existing: seq<TOCEntry>, versioned: seq<TOCEntry>)
    ensures forall i :: |existing| <= i < |MergeEntries(existing, versioned)| ==>
      MergeEntries(existing, versioned)[i] in versioned &&
      MergeEntries(existing, versioned)[i].name !in Names(existing)
    decreases |versioned|
  {
    if |versioned| > 0 {
      var v0 := versioned[0];
      var e' := ReplaceOrAppend(existing, v0);
      var r := MergeEntries(existing, versioned);
      assert r == MergeEntries(e', versioned[1..]);
      MergeAppendsNewNames(e', versioned[1..]);
      MergeDrawsFrom(existing, versioned);
      assert Names(e')[..|existing|] == Names(existing);
      assert Names(r)[..|e'|] == Names(e');
      forall i | |existing| <= i < |r|
        ensures r[i] in versioned && r[i].name !in Names(existing)
      {
        if i >= |e'| {
          InTail(versioned, r[i]);
          NameNotInPrefix(Names(e'), |existing|, r[i].name);
        } else {
          AppendedIsNew(existing, v0, e', r, i);
          NameAbsentMeansEntryAbsent(existing, r[i]);
        }
      }
    }
  }

  lemma InTail<T>(s: seq<T>, x: T)
    requires |s| > 0 && x in s[1..]
    ensures x in s
  {
    var j :| 0 <= j < |s[1..]| && s[1..][j] == x;
    assert s[j + 1] == x;
  }

  lemma NameNotInPrefix(names: seq<string>, k: nat, n: string)
    requires k <= |names| && n !in names
    ensures n !in names[..k]
  {
  }

  /** The entry a single step appends is that version entry, under a name the seeded list lacks. */
  lemma AppendedIsNew(existing: seq<TOCEntry>, v0: TOCEntry, e': seq<TOCEntry>, r: seq<TOCEntry>, i: nat)
    requires e' == ReplaceOrAppend(existing, v0)
    requires |existing| <= i < |e'| <= |r|
    requires Names(r)[..|e'|] == Names(e')
    ensures r[i].name == v0.name && v0.name !in Names(existing)
  {
    assert e' == existing + [v0] && i == |existing|;
    assert Names(r)[i] == r[i].name;
    assert Names(e')[i] == v0.name;
  }

  /** Each name after the seeded entries appears there once. */
  lemma {:induction false} MergeAppendsOnce(existing: seq<TOCEntry>, versioned: seq<TOCEntry>)
    ensures Distinct(Names(MergeEntries(existing, versioned))[|existing|..])
    decreases |versioned|
  {
    if |versioned| > 0 {
      var v0 := versioned[0];
      var e' := ReplaceOrAppend(existing, v0);
      var r := MergeEntries(existing, versioned);
      assert r == MergeEntries(e', versioned[1..]);
      MergeAppendsOnce(e', versioned[1..]);
      MergeAppendsNewNames(e', versioned[1..]);
      assert Names(r)[..|e'|] == Names(e');
      var n := Names(r);
      if |e'| == |existing| + 1 {
        assert n[|existing|] == Names(e')[|existing|];
        forall i | |e'| <= i < |n|
          ensures n[i] != n[|existing|]
        {
          assert n[i] == r[i].name;
        }
      }
      DistinctTailExtend(n, |existing|, |e'|);
    }
  }

  /** A distinct suffix stays distinct when extended by one name it does not contain. */
  lemma DistinctTailExtend(n: seq<string>, k: nat, m: nat)
    requires k <= m <= |n| && m <= k + 1
    requires Distinct(n[m..])
    requires m == k + 1 ==> forall i :: m <= i < |n| ==> n[i] != n[k]
    ensures Distinct(n[k..])
  {
    forall a, b | 0 <= a < b < |n[k..]|
      ensures n[k..][a] != n[k..][b]
    {
      if m == k + 1 && a == 0 {
        assert n[k..][b] == n[k + b];
      } else {
        assert n[k..][a] == n[m..][k + a - m];
        assert n[k..][b] == n[m..][k + b - m];
      }
    }
  }

  // ---------------------------------------------------------------------------
  // A closed form of the entry merge, for versions whose entry names are distinct
  // ---------------------------------------------------------------------------

  /** The version's entry for `name`: its first entry with that name. */
  function Lookup(versioned: seq<TOCEntry>, name: string): (r: Option<TOCEntry>)
    ensures r.Some? <==> name in Names(versioned)
    ensures r.Some? ==> r.value in versioned && r.value.name == name
  {
    match FirstIndexOf(Names(versioned), name)
    case Some(p) => Some(versioned[p])
    case None => None
  }

  /** Entry `i` of the seeded list after the override: replaced only if it is the first of its name. */
  function OverlayAt(existing: seq<TOCEntry>, versioned: seq<TOCEntry>, i: int): TOCEntry
    requires 0 <= i < |existing|
  {
    if IsFirstNamed(Names(existing), i, existing[i].name) then
      match Lookup(versioned, existing[i].name)
      case Some(v) => v
      case None => existing[i]
    else existing[i]
  }

  /** The seeded entries, each first occurrence of a name the version redefines replaced by the version's entry. */
  function Overlay(existing: seq<TOCEntry>, versioned: seq<TOCEntry>): (r: seq<TOCEntry>)
    ensures |r| == |existing|
  {
    seq(|existing|, i requires 0 <= i < |existing| => OverlayAt(existing, versioned, i))
  }

  /** The version entries whose names are not among `names`, in their original order. */
  function Unmatched(versioned: seq<TOCEntry>, names: seq<string>): seq<TOCEntry>
  {
    if |versioned| == 0 then []
    else (if versioned[0].name in names then [] else [versioned[0]]) + Unmatched(versioned[1..], names)
  }

  lemma {:induction false} UnmatchedCongruent(versioned: seq<TOCEntry>, a: seq<string>, b: seq<string>)
    requires forall i :: 0 <= i < |versioned| ==> (versioned[i].name in a <==> versioned[i].name in b)
    ensures Unmatched(versioned, a) == Unmatched(versioned, b)
    decreases |versioned|
  {
    if |versioned| > 0 {
      UnmatchedCongruent(versioned[1..], a, b);
    }
  }

  lemma LookupTail(versioned: seq<TOCEntry>, name: string)
    requires |versioned| > 0 && versioned[0].name != name
    ensures Lookup(versioned, name) == Lookup(versioned[1..], name)
  {
    NamesTail(versioned);
  }

  lemma LookupHead(versioned: seq<TOCEntry>)
    requires |versioned| > 0
    ensures Lookup(versioned, versioned[0].name) == Some(versioned[0])
  {
  }

  /**
   * When the version names each entry once, the merged entries are the seeded
   * entries with their redefined entries replaced in place, followed by the
   * version entries with new names in the version's own order.
   */
  lemma {:induction false} MergeEntriesClosedForm(existing: seq<TOCEntry>, versioned: seq<TOCEntry>)
    requires Distinct(Names(versioned))
    ensures MergeEntries(existing, versioned) == Overlay(existing, versioned) + Unmatched(versioned, Names(existing))
    decreases |versioned|
  {
    if |versioned| == 0 {
      assert Overlay(existing, versioned) == existing;
    } else {
      var v0 := versioned[0];
      var rest := versioned[1..];
      var e' := ReplaceOrAppend(existing, v0);
      DistinctNamesTail(versioned);
      MergeEntriesClosedForm(e', rest);
      assert MergeEntries(existing, versioned) == MergeEntries(e', rest);
      ClosedFormStep(existing, versioned);
    }
  }

  /** One step of the merge keeps the closed form. */
  lemma ClosedFormStep(existing: seq<TOCEntry>, versioned: seq<TOCEntry>)
    requires |versioned| > 0 && Distinct(Names(versioned))
    ensures
      Overlay(ReplaceOrAppend(existing, versioned[0]), versioned[1..])
        + Unmatched(versioned[1..], Names(ReplaceOrAppend(existing, versioned[0])))
      == Overlay(existing, versioned) + Unmatched(versioned, Names(existing))
  {
    DistinctNamesTail(versioned);
    if versioned[0].name in Names(existing) {
      ClosedFormReplace(existing, versioned);
    } else {
      ClosedFormAppend(existing, versioned);
    }
  }

  lemma ClosedFormAppend(existing: seq<TOCEntry>, versioned: seq<TOCEntry>)
    requires |versioned| > 0 && Distinct(Names(versioned))
    requires versioned[0].name !in Names(existing)
    requires versioned[0].name !in Names(versioned[1..])
    ensures
      Overlay(ReplaceOrAppend(existing, versioned[0]), versioned[1..])
        + Unmatched(versioned[1..], Names(ReplaceOrAppend(existing, versioned[0])))
      == Overlay(existing, versioned) + Unmatched(versioned, Names(existing))
  {
    var v0 := versioned[0];
    var rest := versioned[1..];
    var e' := ReplaceOrAppend(existing, v0);
    assert e' == existing + [v0];
    var o := Overlay(existing, versioned);
    var u := Unmatched(rest, Names(existing));
    OverlayAfterAppend(existing, versioned);
    UnmatchedAfterAppend(existing, versioned);
    assert Overlay(e', rest) == o + [v0];
    assert Unmatched(rest, Names(e')) == u;
    assert Unmatched(versioned, Names(existing)) == [v0] + u;
    AppendAssoc(o, [v0], u);
  }

  lemma ClosedFormReplace(existing: seq<TOCEntry>, versioned: seq<TOCEntry>)
    requires |versioned| > 0 && Distinct(Names(versioned))
    requires versioned[0].name in Names(existing)
    requires versioned[0].name !in Names(versioned[1..])
    ensures
      Overlay(ReplaceOrAppend(existing, versioned[0]), versioned[1..])
        + Unmatched(versioned[1..], Names(ReplaceOrAppend(existing, versioned[0])))
      == Overlay(existing, versioned) + Unmatched(versioned, Names(existing))
  {
    OverlayAfterReplace(existing, versioned);
    UnmatchedSkipsKnown(versioned, Names(existing));
    ReplaceKeepsNames(existing, versioned[0]);
  }

  lemma ReplaceKeepsNames(existing: seq<TOCEntry>, e: TOCEntry)
    requires e.name in Names(existing)
    ensures Names(ReplaceOrAppend(existing, e)) == Names(existing)
  {
  }

  /** A version entry whose name is already known contributes nothing to the unmatched entries. */
  lemma UnmatchedSkipsKnown(versioned: seq<TOCEntry>, names: seq<string>)
    requires |versioned| > 0 && versioned[0].name in names
    ensures Unmatched(versioned, names) == Unmatched(versioned[1..], names)
  {
    assert Unmatched(versioned, names) == [] + Unmatched(versioned[1..], names);
  }

  lemma UnmatchedAfterAppend(existing: seq<TOCEntry>, versioned: seq<TOCEntry>)
    requires |versioned| > 0
    requires versioned[0].name !in Names(existing)
    requires versioned[0].name !in Names(versioned[1..])
    ensures Unmatched(versioned[1..], Names(existing + [versioned[0]])) == Unmatched(versioned[1..], Names(existing))
  {
    var v0 := versioned[0];
    var rest := versioned[1..];
    NamesAppend(existing, [v0]);
    forall i | 0 <= i < |rest|
      ensures rest[i].name in Names(existing + [v0]) <==> rest[i].name in Names(existing)
    {
      assert Names(rest)[i] == rest[i].name;
    }
    UnmatchedCongruent(rest, Names(existing + [v0]), Names(existing));
  }

  lemma DistinctNamesTail(versioned: seq<TOCEntry>)
    requires |versioned| > 0 && Distinct(Names(versioned))
    ensures versioned[0].name !in Names(versioned[1..])
    ensures Distinct(Names(versioned[1..]))
  {
    NamesTail(versioned);
  }

  lemma OverlayAfterReplace(existing: seq<TOCEntry>, versioned: seq<TOCEntry>)
    requires |versioned| > 0 && Distinct(Names(versioned))
    requires versioned[0].name in Names(existing)
    requires versioned[0].name !in Names(versioned[1..])
    ensures Overlay(ReplaceOrAppend(existing, versioned[0]), versioned[1..]) == Overlay(existing, versioned)
  {
    var v0 := versioned[0];
    var rest := versioned[1..];
    var e' := ReplaceOrAppend(existing, v0);
    forall j | 0 <= j < |existing|
      ensures OverlayAt(e', rest, j) == OverlayAt(existing, versioned, j)
    {
      var n := existing[j].name;
      assert Names(existing)[j] == n && Names(e')[j] == e'[j].name;
      if IsFirstNamed(Names(existing), j, n) {
        if n == v0.name {
          assert e'[j] == v0;
          LookupHead(versioned);
        } else {
          assert e'[j] == existing[j];
          LookupTail(versioned, n);
        }
      }
    }
  }

  lemma OverlayAfterAppend(existing: seq<TOCEntry>, versioned: seq<TOCEntry>)
    requires |versioned| > 0 && Distinct(Names(versioned))
    requires versioned[0].name !in Names(existing)
    requires versioned[0].name !in Names(versioned[1..])
    ensures Overlay(ReplaceOrAppend(existing, versioned[0]), versioned[1..]) == Overlay(existing, versioned) + [versioned[0]]
  {
    var v0 := versioned[0];
    var rest := versioned[1..];
    var e' := ReplaceOrAppend(existing, v0);
    assert e' == existing + [v0];
    NamesAppend(existing, [v0]);
    forall j | 0 <= j < |existing|
      ensures OverlayAt(e', rest, j) == OverlayAt(existing, versioned, j)
    {
      var n := existing[j].name;
      assert Names(existing)[j] == n;
      assert forall k :: 0 <= k < |existing| ==> Names(e')[k] == Names(existing)[k];
      assert IsFirstNamed(Names(e'), j, n) == IsFirstNamed(Names(existing), j, n);
      LookupTail(versioned, n);
    }
    assert IsFirstNamed(Names(e'), |existing|, v0.name);
    assert OverlayAt(e', rest, |existing|) == v0;
  }

  // ---------------------------------------------------------------------------
  // Section merge (addSharedSections, addVersionedSections, buildVersionEntries)
  // ---------------------------------------------------------------------------

  /** A section present in both Tocs: the version's order wins and the entries are merged. */
  function MergeSection(seeded: TOCSection, version: TOCSection): (r: TOCSection)
    ensures r.order == version.order
    ensures |seeded.entries| <= |r.entries|
    ensures Names(r.entries)[..|seeded.entries|] == Names(seeded.entries)
  {
    TOCSection(version.order, MergeEntries(seeded.entries, version.entries))
  }

  /** Copies `src[k]` into `dst` for each key `k` of the enumeration, in order. */
  function CopyInto<V>(dst: map<string, V>, src: map<string, V>, keys: seq<string>): (r: map<string, V>)
    requires forall i :: 0 <= i < |keys| ==> keys[i] in src
    ensures r.Keys == dst.Keys + set k | k in keys
    ensures forall k :: k in keys ==> r[k] == src[k]
    ensures forall k :: k in dst && k !in keys ==> r[k] == dst[k]
    decreases |keys|
  {
    if |keys| == 0 then dst
    else
      KeysCons(keys);
      CopyInto(dst[keys[0] := src[keys[0]]], src, keys[1..])
  }

  /**
   * Seeds the Toc being built with a new section for each shared section,
   * holding the shared order and a copy of the shared entries.
   */
  function AddSharedSections(shared: Toc, keys: seq<string>, toc: Toc): (r: Toc)
    requires forall i :: 0 <= i < |keys| ==> keys[i] in shared
    ensures r.Keys == toc.Keys + set k | k in keys
    ensures forall k :: k in keys ==> r[k] == shared[k]
    ensures forall k :: k in toc && k !in keys ==> r[k] == toc[k]
    decreases |keys|
  {
    if |keys| == 0 then toc
    else
      var section := shared[keys[0]];
      KeysCons(keys);
      AddSharedSections(shared, keys[1..], toc[keys[0] := TOCSection(section.order, section.entries)])
  }

  /**
   * The version's sections merged into the seeded Toc, in enumeration order:
   * a section already present is replaced by its merge with the version's
   * section, and any other version section is inserted as given.
   */
  function AddVersionedSections(versioned: Toc, keys: seq<string>, toc: Toc): (r: Toc)
    requires forall i :: 0 <= i < |keys| ==> keys[i] in versioned
    requires Distinct(keys)
    ensures r.Keys == toc.Keys + set k | k in keys
    ensures forall k :: k in keys && k in toc ==> r[k] == MergeSection(toc[k], versioned[k])
    ensures forall k :: k in keys && k !in toc ==> r[k] == versioned[k]
    ensures forall k :: k in toc && k !in keys ==> r[k] == toc[k]
    decreases |keys|
  {
    if |keys| == 0 then toc
    else
      KeysCons(keys);
      AddVersionedSections(versioned, keys[1..], AddVersionedSection(toc, keys[0], versioned[keys[0]]))
  }

  /** One step of the merge loop: the section `v` of the version merged into `toc`. */
  function AddVersionedSection(toc: Toc, v: string, section: TOCSection): (r: Toc)
    ensures r.Keys == toc.Keys + {v}
    ensures v in toc ==> r[v] == MergeSection(toc[v], section)
    ensures v !in toc ==> r[v] == section
    ensures forall k :: k in toc && k != v ==> r[k] == toc[k]
  {
    if v in toc then toc[v := MergeSection(toc[v], section)] else toc[v := section]
  }

  /**
   * addVersionedSections as the Go code is written: for a section already
   * present the merged order and entries go into the loop's copy of the map
   * value, which is never stored back, so the Toc keeps the seeded section.
   */
  function AddVersionedSectionsAsWritten(versioned: Toc, keys: seq<string>, toc: Toc): (r: Toc)
    requires forall i :: 0 <= i < |keys| ==> keys[i] in versioned
    ensures r.Keys == toc.Keys + set k | k in keys
    ensures forall k :: k in toc ==> r[k] == toc[k]
    ensures forall k :: k in keys && k !in toc ==> r[k] == versioned[k]
    decreases |keys|
  {
    if |keys| == 0 then toc
    else
      var v := keys[0];
      var toc' := if v in toc then toc else toc[v := versioned[v]];
      KeysCons(keys);
      AddVersionedSectionsAsWritten(versioned, keys[1..], toc')
  }

  /**
   * The effective Toc of one version: every shared section, every version
   * section, and for a section in both the merge of the two.
   */
  predicate IsMergeOf(r: Toc, shared: Toc, versioned: Toc) {
    && r.Keys == shared.Keys + versioned.Keys
    && (forall k :: k in shared && k !in versioned ==> r[k] == shared[k])
    && (forall k :: k in versioned && k !in shared ==> r[k] == versioned[k])
    && (forall k :: k in shared && k in versioned ==> r[k] == MergeSection(shared[k], versioned[k]))
  }

  /**
   * The effective Toc of one version as the Go code computes it: every shared
   * section unchanged, and the version's sections the shared Toc lacks.
   */
  predicate IsAsWrittenMergeOf(r: Toc, shared: Toc, versioned: Toc) {
    && r.Keys == shared.Keys + versioned.Keys
    && (forall k :: k in shared ==> r[k] == shared[k])
    && (forall k :: k in versioned && k !in shared ==> r[k] == versioned[k])
  }

  /** Which per-version merge a build uses: the code as written, or the corrected one. */
  datatype MergeRule = AsWritten | Corrected

  predicate IsMergeBy(rule: MergeRule, r: Toc, shared: Toc, versioned: Toc) {
    match rule
    case AsWritten => IsAsWrittenMergeOf(r, shared, versioned)
    case Corrected => IsMergeOf(r, shared, versioned)
  }

  /** The merged Toc of one version, whatever order the two maps are ranged over in. */
  function BuildVersionEntries(shared: Toc, sharedKeys: seq<string>, versioned: Toc, versionKeys: seq<string>): (r: Toc)
    requires IsEnumeration(sharedKeys, shared.Keys)
    requires IsEnumeration(versionKeys, versioned.Keys)
    ensures IsMergeOf(r, shared, versioned)
  {
    var seeded := AddSharedSections(shared, sharedKeys, map[]);
    EnumerationCovers(sharedKeys, shared.Keys);
    EnumerationCovers(versionKeys, versioned.Keys);
    assert seeded == shared;
    AddVersionedSections(versioned, versionKeys, seeded)
  }

  /** The merged Toc of one version as the Go code computes it: shared sections are never updated. */
  function BuildVersionEntriesAsWritten(shared: Toc, sharedKeys: seq<string>, versioned: Toc, versionKeys: seq<string>): (r: Toc)
    requires IsEnumeration(sharedKeys, shared.Keys)
    requires IsEnumeration(versionKeys, versioned.Keys)
    ensures IsAsWrittenMergeOf(r, shared, versioned)
  {
    var seeded := AddSharedSections(shared, sharedKeys, map[]);
    EnumerationCovers(sharedKeys, shared.Keys);
    EnumerationCovers(versionKeys, versioned.Keys);
    assert seeded == shared;
    AddVersionedSectionsAsWritten(versioned, versionKeys, seeded)
  }

  lemma EnumerationCovers(keys: seq<string>, s: set<string>)
    requires IsEnumeration(keys, s)
    ensures (set k | k in keys) == s
  {
  }

  /** The merge is determined by the two Tocs alone: the enumeration orders cannot change it. */
  lemma MergeIsUnique(a: Toc, b: Toc, shared: Toc, versioned: Toc)
    requires IsMergeOf(a, shared, versioned) && IsMergeOf(b, shared, versioned)
    ensures a == b
  {
  }

  /** The as-written merge is likewise determined by the two Tocs alone. */
  lemma AsWrittenMergeIsUnique(a: Toc, b: Toc, shared: Toc, versioned: Toc)
    requires IsAsWrittenMergeOf(a, shared, versioned) && IsAsWrittenMergeOf(b, shared, versioned)
    ensures a == b
  {
  }

  /**
   * The two merges agree exactly when no section the shared Toc and the
   * version both have is changed by merging: then the lost update is harmless.
   */
  lemma AsWrittenAgreesIff(r: Toc, shared: Toc, versioned: Toc)
    requires IsMergeOf(r, shared, versioned)
    ensures IsAsWrittenMergeOf(r, shared, versioned) <==>
      forall k :: k in shared && k in versioned ==> MergeSection(shared[k], versioned[k]) == shared[k]
  {
  }

  /**
   * As written, a version entry under a new name in a section the shared Toc
   * already has is lost; the corrected merge keeps it.
   */
  lemma AsWrittenDropsNewEntries(
    shared: Toc, sharedKeys: seq<string>, versioned: Toc, versionKeys: seq<string>, k: string, v: TOCEntry)
    requires IsEnumeration(sharedKeys, shared.Keys)
    requires IsEnumeration(versionKeys, versioned.Keys)
    requires k in shared && k in versioned
    requires v in versioned[k].entries && v.name !in Names(shared[k].entries)
    ensures v.name !in Names(BuildVersionEntriesAsWritten(shared, sharedKeys, versioned, versionKeys)[k].entries)
    ensures v.name in Names(BuildVersionEntries(shared, sharedKeys, versioned, versionKeys)[k].entries)
  {
    MergeCoversVersionNames(shared[k].entries, versioned[k].entries);
  }

  /**
   * The shared "Brighter Configuration" section of the book test data and a
   * version adding "Document Four" to it: as written the version's entry and
   * order are lost.
   */
  lemma AsWrittenExample()
    ensures
      var one := TOCEntry("Document One", "DocumentOne.md", 0);
      var two := TOCEntry("Document Two", "DocumentTwo.md", 2);
      var four := TOCEntry("Document Four", "DocumentFour.md", 0);
      var shared := map["Brighter Configuration" := TOCSection(1, [one, two])];
      var version := map["Brighter Configuration" := TOCSection(1, [four])];
      var keys := ["Brighter Configuration"];
      && BuildVersionEntriesAsWritten(shared, keys, version, keys)["Brighter Configuration"].entries == [one, two]
      && BuildVersionEntries(shared, keys, version, keys)["Brighter Configuration"].entries == [one, two, four]
  {
    var one := TOCEntry("Document One", "DocumentOne.md", 0);
    var two := TOCEntry("Document Two", "DocumentTwo.md", 2);
    var four := TOCEntry("Document Four", "DocumentFour.md", 0);
    assert Names([one, two]) == ["Document One", "Document Two"];
    assert ReplaceOrAppend([one, two], four) == [one, two, four];
    assert MergeEntries([one, two], [four]) == [one, two, four];
  }

  // ---------------------------------------------------------------------------
  // Versions of the book (MakeVersions) and the merged Toc of every version (buildEntries)
  // ---------------------------------------------------------------------------

  /** Where a version's documents are published: `<root>/contents/<version>`. */
  function VersionDestPath(rootDestPath: string, version: string): string {
    rootDestPath + "/" + ContentDirName + "/" + version
  }

  /**
   * `v` is the book version of `source`: same identifier, published under
   * `<root>/contents/<version>`, holding the shared documents and the
   * version's own, the version's document winning on a name both have.
   */
  predicate IsBookVersionOf(v: Version, source: Version, shared: Shared, rootDestPath: string) {
    && v.version == source.version
    && v.destPath == rootDestPath + "/contents/" + source.version
    && v.docs.Keys == shared.docs.Keys + source.docs.Keys
    && (forall name :: name in source.docs ==> v.docs[name] == source.docs[name])
    && (forall name :: name in shared.docs && name !in source.docs ==> v.docs[name] == shared.docs[name])
  }

  /** The body of the loop of MakeVersions for one source version. */
  method MakeBookVersion(rootDestPath: string, shared: Shared, version: Version) returns (v: Version)
    ensures IsBookVersionOf(v, version, shared, rootDestPath)
  {
    var sharedOrder := Enumerate(shared.docs.Keys);
    var ownOrder := Enumerate(version.docs.Keys);
    EnumerationCovers(sharedOrder, shared.docs.Keys);
    EnumerationCovers(ownOrder, version.docs.Keys);
    var docs := CopyInto(CopyInto(map[], shared.docs, sharedOrder), version.docs, ownOrder);
    v := Version(VersionDestPath(rootDestPath, version.version), docs, None, version.version, map[]);
  }

  /** One book version per source version, under the same key. */
  method MakeVersions(rootDestPath: string, shared: Shared, versions: map<string, Version>)
    returns (r: map<string, Version>)
    ensures r.Keys == versions.Keys
    ensures forall key :: key in versions ==> IsBookVersionOf(r[key], versions[key], shared, rootDestPath)
  {
    r := map[];
    var rest := versions.Keys;
    while rest != {}
      invariant rest <= versions.Keys
      invariant r.Keys == versions.Keys - rest
      invariant forall key :: key in r ==> IsBookVersionOf(r[key], versions[key], shared, rootDestPath)
      decreases rest
    {
      var key :| key in rest;
      var v := MakeBookVersion(rootDestPath, shared, versions[key]);
      r := r[key := v];
      rest := rest - {key};
    }
  }

  /** No other source version carries the identifier of the one under `key`. */
  predicate OnlyKeyFor(versions: map<string, Version>, key: string)
    requires key in versions
  {
    forall other :: other in versions && versions[other].version == versions[key].version ==> other == key
  }

  /**
   * buildEntries: the merged Toc of every version, keyed by its version
   * identifier, with each version merged by `rule`. `sharedToc` and `decoded`
   * are what the YAML decoder produced for the shared TOC file and for each
   * version's TOC file; a missing one stands for a file that could not be
   * read or decoded, which fails the build.
   */
  method BuildSummary(rule: MergeRule, sharedToc: Option<Toc>, versions: map<string, Version>, decoded: map<string, Toc>)
    returns (r: Option<VersionedToc>)
    ensures r.None? <==> sharedToc.None? || exists key :: key in versions && key !in decoded
    ensures r.Some? ==> r.value.Keys == set key | key in versions :: versions[key].version
    ensures r.Some? ==> forall v :: v in r.value ==>
      exists key :: key in versions && versions[key].version == v && IsMergeBy(rule, r.value[v], sharedToc.value, decoded[key])
    ensures r.Some? ==> forall key :: key in versions && OnlyKeyFor(versions, key) ==>
      IsMergeBy(rule, r.value[versions[key].version], sharedToc.value, decoded[key])
  {
    if sharedToc.None? {
      return None;
    }
    var shared := sharedToc.value;
    var summary: VersionedToc := map[];
    ghost var from: map<string, string> := map[];
    var rest := versions.Keys;
    while rest != {}
      invariant rest <= versions.Keys
      invariant forall key :: key in versions && key !in rest ==> key in decoded
      invariant summary.Keys == from.Keys
      invariant forall key :: key in versions && key !in rest ==> versions[key].version in summary
      invariant forall v :: v in from ==>
        from[v] in versions && from[v] !in rest && versions[from[v]].version == v && from[v] in decoded
          && IsMergeBy(rule, summary[v], shared, decoded[from[v]])
      decreases rest
    {
      var key :| key in rest;
      if key !in decoded {
        return None;
      }
      var merged := MergeVersionBy(rule, shared, decoded[key]);
      summary := summary[versions[key].version := merged];
      from := from[versions[key].version := key];
      rest := rest - {key};
    }
    r := Some(summary);
    SummaryFromVersions(rule, summary, from, shared, versions, decoded);
  }

  /** buildEntries with the corrected per-version merge. */
  method BuildEntries(sharedToc: Option<Toc>, versions: map<string, Version>, decoded: map<string, Toc>)
    returns (r: Option<VersionedToc>)
    ensures r.None? <==> sharedToc.None? || exists key :: key in versions && key !in decoded
    ensures r.Some? ==> r.value.Keys == set key | key in versions :: versions[key].version
    ensures r.Some? ==> forall v :: v in r.value ==>
      exists key :: key in versions && versions[key].version == v && IsMergeOf(r.value[v], sharedToc.value, decoded[key])
    ensures r.Some? ==> forall key :: key in versions && OnlyKeyFor(versions, key) ==>
      IsMergeOf(r.value[versions[key].version], sharedToc.value, decoded[key])
  {
    r := BuildSummary(Corrected, sharedToc, versions, decoded);
  }

  /** buildEntries as the Go code is written: each version's shared sections come through unchanged. */
  method BuildEntriesAsWritten(sharedToc: Option<Toc>, versions: map<string, Version>, decoded: map<string, Toc>)
    returns (r: Option<VersionedToc>)
    ensures r.None? <==> sharedToc.None? || exists key :: key in versions && key !in decoded
    ensures r.Some? ==> r.value.Keys == set key | key in versions :: versions[key].version
    ensures r.Some? ==> forall v :: v in r.value ==>
      exists key :: key in versions && versions[key].version == v && IsAsWrittenMergeOf(r.value[v], sharedToc.value, decoded[key])
    ensures r.Some? ==> forall key :: key in versions && OnlyKeyFor(versions, key) ==>
      IsAsWrittenMergeOf(r.value[versions[key].version], sharedToc.value, decoded[key])
  {
    r := BuildSummary(AsWritten, sharedToc, versions, decoded);
  }

  /** buildVersionEntries for one version with the corrected merge, ranging over both maps in whatever order they come. */
  method MergeVersion(shared: Toc, versioned: Toc) returns (merged: Toc)
    ensures IsMergeOf(merged, shared, versioned)
  {
    var sharedKeys := Enumerate(shared.Keys);
    var versionKeys := Enumerate(versioned.Keys);
    merged := BuildVersionEntries(shared, sharedKeys, versioned, versionKeys);
  }

  /** buildVersionEntries for one version as the Go code is written, in whatever order the maps are ranged over. */
  method MergeVersionAsWritten(shared: Toc, versioned: Toc) returns (merged: Toc)
    ensures IsAsWrittenMergeOf(merged, shared, versioned)
  {
    var sharedKeys := Enumerate(shared.Keys);
    var versionKeys := Enumerate(versioned.Keys);
    merged := BuildVersionEntriesAsWritten(shared, sharedKeys, versioned, versionKeys);
  }

  method MergeVersionBy(rule: MergeRule, shared: Toc, versioned: Toc) returns (merged: Toc)
    ensures IsMergeBy(rule, merged, shared, versioned)
  {
    match rule
    case AsWritten => merged := MergeVersionAsWritten(shared, versioned);
    case Corrected => merged := MergeVersion(shared, versioned);
  }

  /**
   * A summary whose every Toc is recorded as merged from some source version
   * holds, for each version identifier, the merge of a version carrying it,
   * and for an identifier only one version carries, that version's merge.
   */
  lemma SummaryFromVersions(rule: MergeRule, summary: VersionedToc, from: map<string, string>, shared: Toc,
                            versions: map<string, Version>, decoded: map<string, Toc>)
    requires forall key :: key in versions ==> key in decoded
    requires summary.Keys == from.Keys
    requires forall key :: key in versions ==> versions[key].version in summary
    requires forall v :: v in from ==>
      from[v] in versions && versions[from[v]].version == v && from[v] in decoded
        && IsMergeBy(rule, summary[v], shared, decoded[from[v]])
    ensures summary.Keys == set key | key in versions :: versions[key].version
    ensures forall v :: v in summary ==>
      exists key :: key in versions && versions[key].version == v && IsMergeBy(rule, summary[v], shared, decoded[key])
    ensures forall key :: key in versions && OnlyKeyFor(versions, key) ==>
      IsMergeBy(rule, summary[versions[key].version], shared, decoded[key])
  {
    forall v | v in summary
      ensures exists key :: key in versions && versions[key].version == v && IsMergeBy(rule, summary[v], shared, decoded[key])
    {
      var key := from[v];
      assert key in versions && versions[key].version == v && IsMergeBy(rule, summary[v], shared, decoded[key]);
    }
    forall key | key in versions && OnlyKeyFor(versions, key)
      ensures IsMergeBy(rule, summary[versions[key].version], shared, decoded[key])
    {
      var v := versions[key].version;
      assert v in summary;
      assert from[v] == key;
    }
  }
}
