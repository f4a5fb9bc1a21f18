/*
 * The shared value types of the book builder: table-of-contents entries and
 * sections, discovered documents and versions, and the ordered projections
 * that the summary renderer walks.
 *
 * Go's structs are reference-free values here, so the "fresh copy" the Go code
 * makes of a shared entry slice is simply the same value: no merged Toc can
 * alias, and later mutate, the shared Toc it was seeded from.
 */
module Pages {

  /** Name of the directory, under the book root, that holds one folder per version. */
  const ContentDirName: string := "contents"

  datatype Option<T> = None | Some(value: T)

  /** One document line of a table of contents. */
  datatype TOCEntry = TOCEntry(name: string, file: string, order: int)

  /** A section: its sort order and its entries in declaration order. */
  datatype TOCSection = TOCSection(order: int, entries: seq<TOCEntry>)

  /** A table of contents: section name to section. */
  type Toc = map<string, TOCSection>

  /** One merged Toc per version identifier. */
  type VersionedToc = map<string, Toc>

  /** A section lifted out of its Toc, carrying its key as a name. */
  datatype OrderedTocSection = OrderedTocSection(name: string, section: TOCSection)

  /** The sorted projection of one version. */
  datatype OrderedVersionTocs = OrderedVersionTocs(version: string, order: int, sections: seq<OrderedTocSection>)

  /** A discovered file: the folder it lives in, the version it belongs to, its file name. */
  datatype Doc = Doc(sourcePath: string, version: string, name: string)

  /** A discovered image file (the Go Asset always has What == Image here). */
  datatype Asset = Asset(sourcePath: string, version: string, name: string)

  /** A version of the book, as discovered in the source tree or as laid out in the book. */
  datatype Version = Version(
    destPath: string,
    docs: map<string, Doc>,
    toc: Option<Doc>,
    version: string,
    images: map<string, Asset>)

  /** The documents shared by every version. */
  datatype Shared = Shared(docs: map<string, Doc>, toc: Option<Doc>, images: map<string, Asset>)

  predicate Distinct<T(==)>(s: seq<T>) {
    forall i, j :: 0 <= i < j < |s| ==> s[i] != s[j]
  }

  /** `keys` lists every member of `s` exactly once: one possible order of a Go map range. */
  predicate IsEnumeration(keys: seq<string>, s: set<string>) {
    && Distinct(keys)
    && (forall i :: 0 <= i < |keys| ==> keys[i] in s)
    && (forall k :: k in s ==> k in keys)
  }

  /** Splits the members of a non-empty key list into its head and the members of its tail. */
  lemma KeysCons(keys: seq<string>)
    requires |keys| > 0
    ensures (set k | k in keys) == {keys[0]} + (set k | k in keys[1..])
    ensures Distinct(keys) ==> keys[0] !in keys[1..] && Distinct(keys[1..])
  {
    assert keys == [keys[0]] + keys[1..];
  }

  /** The names of a list of entries, position by position. */
  function Names(entries: seq<TOCEntry>): (r: seq<string>)
    ensures |r| == |entries|
    ensures forall i :: 0 <= i < |entries| ==> r[i] == entries[i].name
  {
    seq(|entries|, i requires 0 <= i < |entries| => entries[i].name)
  }

  /** The names of a list of ordered sections, position by position. */
  function SectionNames(s: seq<OrderedTocSection>): (r: seq<string>)
    ensures |r| == |s|
    ensures forall i :: 0 <= i < |s| ==> r[i] == s[i].name
  {
    seq(|s|, i requires 0 <= i < |s| => s[i].name)
  }

  lemma AppendAssoc<T>(a: seq<T>, b: seq<T>, c: seq<T>)
    ensures (a + b) + c == a + (b + c)
  {
  }

  lemma NamesAppend(a: seq<TOCEntry>, b: seq<TOCEntry>)
    ensures Names(a + b) == Names(a) + Names(b)
  {
  }

  /** Runs the body of a Go `range` over a map in an unspecified order: some enumeration of `s`. */
  method Enumerate(s: set<string>) returns (keys: seq<string>)
    ensures IsEnumeration(keys, s)
  {
    keys := [];
    var rest := s;
    while rest != {}
      invariant rest <= s
      invariant Distinct(keys)
      invariant forall i :: 0 <= i < |keys| ==> keys[i] in s && keys[i] !in rest
      invariant forall k :: k in s ==> k in rest || k in keys
      decreases rest
    {
      var k :| k in rest;
      keys := keys + [k];
      rest := rest - {k};
    }
  }
}
