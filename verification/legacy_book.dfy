/*
 * The earlier merge of internal/book.go, where a Toc maps a section name
 * straight to its entry list (no section order). Unlike the current merge it
 * stores the merged list back into the map.
 *
 * Its TOCEntry carries `Indent` where the current one carries `Order`; the
 * merge only compares names, so the same three-field Pages.TOCEntry is used.
 */
module LegacyBook {
  import opened Pages
  import Book

  /** A Toc of the earlier model: section name to entries. */
  type EntryToc = map<string, seq<TOCEntry>>

  /** addSharedEntries: each shared section's entry list is put into the configuration as is. */
  function AddSharedEntries(shared: EntryToc, keys: seq<string>, configuration: EntryToc): (r: EntryToc)
    requires forall i :: 0 <= i < |keys| ==> keys[i] in shared
    ensures r.Keys == configuration.Keys + set k | k in keys
    ensures forall k :: k in keys ==> r[k] == shared[k]
    ensures forall k :: k in configuration && k !in keys ==> r[k] == configuration[k]
  {
    Book.CopyInto(configuration, shared, keys)
  }

  /**
   * The merge loop of addVersionedEntries: a section already in the
   * configuration gets the merged entry list stored back under its name, any
   * other version section is inserted as given.
   */
  function AddVersionedEntries(versioned: EntryToc, keys: seq<string>, configuration: EntryToc): (r: EntryToc)
    requires forall i :: 0 <= i < |keys| ==> keys[i] in versioned
    requires Distinct(keys)
    ensures r.Keys == configuration.Keys + set k | k in keys
    ensures forall k :: k in keys && k in configuration ==> r[k] == Book.MergeEntries(configuration[k], versioned[k])
    ensures forall k :: k in keys && k !in configuration ==> r[k] == versioned[k]
    ensures forall k :: k in configuration && k !in keys ==> r[k] == configuration[k]
    decreases |keys|
  {
    if |keys| == 0 then configuration
    else
      KeysCons(keys);
      AddVersionedEntries(versioned, keys[1..], AddVersionedEntry(configuration, keys[0], versioned[keys[0]]))
  }

  /** One step of the merge loop: the entries of section `s` merged into the configuration. */
  function AddVersionedEntry(configuration: EntryToc, s: string, entries: seq<TOCEntry>): (r: EntryToc)
    ensures r.Keys == configuration.Keys + {s}
    ensures s in configuration ==> r[s] == Book.MergeEntries(configuration[s], entries)
    ensures s !in configuration ==> r[s] == entries
    ensures forall k :: k in configuration && k != s ==> r[k] == configuration[k]
  {
    if s in configuration then configuration[s := Book.MergeEntries(configuration[s], entries)]
    else configuration[s := entries]
  }

  /** The entry lists of a Toc, without the section orders. */
  function EntriesOf(toc: Toc): (r: EntryToc)
    ensures r.Keys == toc.Keys
    ensures forall k :: k in toc ==> r[k] == toc[k].entries
  {
    map k | k in toc :: toc[k].entries
  }

  /**
   * The earlier merge, which stores its result back, computes exactly the
   * entries of the corrected section merge.
   */
  lemma LegacyAgreesWithCorrectedMerge(versioned: Toc, keys: seq<string>, toc: Toc)
    requires forall i :: 0 <= i < |keys| ==> keys[i] in versioned
    requires Distinct(keys)
    ensures AddVersionedEntries(EntriesOf(versioned), keys, EntriesOf(toc))
      == EntriesOf(Book.AddVersionedSections(versioned, keys, toc))
  {
  }
}
