# Rewind book builder — a Dafny model

Rewind turns a folder of GitBook sources into a versioned book. Its source
folder holds a `shared` folder and one folder per version. Each of these holds
markdown documents, a `.toc.yaml` table of contents and a static folder of
images. The builder does four things:

- **Discover the sources.** It walks the source folder and classifies every
  entry (`internal/sources/sources.go`).
- **Build each version.** It overlays the version's documents on the shared
  documents. It then merges the version's table of contents into the shared
  one, section by section, and entry by entry within a section
  (`internal/book/book.go`; the earlier variant is in `internal/book.go`).
- **Order each merged table of contents.** It orders the sections by their
  order, then the entries of each section by theirs (`internal/pages/sort_toc.go`).
- **Render the summary.** It writes `SUMMARY.md`: a `##` title per version, a
  `###` title per section, and one indented list item per entry, linking to
  `/contents/<version>/<file>` with spaces written as `%20`
  (`internal/book/markdownGenerator.go`).

The model is pure. Maps and sequences are values. Where the Go code ranges
over a map, the model takes the enumeration order as a parameter: a sequence
listing every key once (`Pages.IsEnumeration`). Inside methods the order comes
from `Pages.Enumerate` or from a `:|` choice of the next key. Every property is
proved for every enumeration order.

Modules:

- `Pages`: the shared types.
- `Book`: the merge, versions and per-version tables of contents.
- `LegacyBook`: the earlier merge.
- `TocSort`: the ordering.
- `Markdown`: the summary renderer.
- `Sources`: source discovery over a directory tree value.

Two points about the code itself:

- The exchange sorts of `Toc.Sort` are not stable. Entries with equal orders
  can come out in a different relative order, as `TocSort.ExchangeSortIsNotStable`
  shows. Only sortedness and permutation are claimed.
- internal/book/book_test.go:234 and internal/book.go:205 show that a
  version's entries are meant to override and extend the shared ones. The
  current merge does not do this for a section both sides have (see
  Findings). The model carries both: the as-written members
  (`Book.AddVersionedSectionsAsWritten`, `Book.BuildVersionEntriesAsWritten`,
  `Book.MergeVersionAsWritten`, `Book.BuildEntriesAsWritten`) follow the
  code, and their corrected twins carry the intended behaviour.

## Model

| member | source | states |
|---|---|---|
| Book.FirstIndexOf | internal/book/book.go:240-246 | The scan over the entries built so far finds the first entry with the version entry's name. It finds nothing exactly when no entry has that name. |
| Book.ReplaceOrAppend | internal/book/book.go:238-251 | If a version entry's name is present, it replaces only the first entry with that name, at the same index. The length and all names are unchanged. If the name is absent, the entry is appended at the end. |
| Book.MergeEntries | internal/book/book.go:230-252 | The merged list is never shorter than the seeded list and starts with the seeded names at their original positions. A seeded entry the version redefines is replaced in its slot, so the seeded names and slots survive, not necessarily the seeded entries. |
| Book.MergeLeavesUnmentioned | internal/book/book.go:238-251 | A seeded entry whose name the version never uses comes through unchanged, at its index. |
| Book.MergeDrawsFrom | internal/book/book.go:230-252 | Every merged entry is a seeded entry or a version entry. Nothing is invented. |
| Book.MergeCoversVersionNames | internal/book/book.go:237-252 | Every version entry's name appears in the merged list. No version name is lost, though when a version repeats a name only its last entry of that name survives (`Book.RepeatedNameKeepsLast`). |
| Book.RepeatedNameKeepsLast | internal/book/book.go:237-252 | A version listing two entries under one name, merged into an empty section, leaves only the second: it replaces the first in place. |
| Book.MergeAppendsNewNames | internal/book/book.go:248-251 | Every entry after the seeded ones is a version entry whose name the seeded list lacks. |
| Book.MergeAppendsOnce | internal/book/book.go:248-251 | The names appended after the seeded entries are pairwise distinct. |
| Book.MergeEntriesClosedForm | internal/book/book.go:230-252 | When the version names each entry once, the merge is an independent reference definition. The seeded entries come first, each redefined one replaced in place. Then come the version entries with new names, in the version's order. |
| Book.MergeSection | internal/book/book.go:224-254 | For a section in both tables, the version's order wins. The seeded entries keep their names and positions at the front. |
| Book.AddSharedSections | internal/book/book.go:186-200 | The Toc gains exactly the shared section keys. Each new section has the shared order and an element-wise equal copy of the shared entries. Other keys are untouched. |
| Book.AddVersionedSections | internal/book/book.go:218-261 | This is the corrected merge loop. A version section already present becomes the merge of the two sections. An absent one is inserted verbatim. Sections the version does not name are untouched. The key set is the union. |
| Book.AddVersionedSectionsAsWritten | internal/book/book.go:218-261 | This is the merge loop as written. A section already present keeps its seeded value. A new version section is inserted verbatim. The key set is the union. |
| Book.BuildVersionEntries | internal/book/book.go:173-184 | Corrected twin of `Book.BuildVersionEntriesAsWritten` (see Findings). The per-version Toc is the merge of the shared Toc and the version's Toc (`IsMergeOf`): each key of either side, with the section merge for keys on both sides. |
| Book.MergeVersion | internal/book/book.go:173-184 | Corrected twin of `Book.MergeVersionAsWritten` (see Findings). For whatever order the two maps are ranged over in, the merged Toc of one version is the merge of the shared Toc with the version's Toc (`IsMergeOf`). |
| Book.BuildVersionEntriesAsWritten | internal/book/book.go:173-184 | As written (`IsAsWrittenMergeOf`), every shared section comes through unchanged, and only sections that are new to the version come from the version. The key set is the union. |
| Book.MergeVersionAsWritten | internal/book/book.go:173-184 | For whatever order the two maps are ranged over in, the Toc the code builds for one version is the as-written merge: every shared section unchanged, plus the version's new sections. |
| Book.AsWrittenMergeIsUnique | internal/book/book.go:173-184 | Any two Tocs that are as-written merges of the same shared and version Tocs are equal, so the map iteration order cannot change the code's result either. |
| Book.AsWrittenAgreesIff | internal/book/book.go:222-255 | The code's result equals the corrected merge exactly when, for every section both Tocs have, merging the version's section into the shared one would leave the shared section unchanged. |
| Book.MergeIsUnique | internal/book/book.go:219-222 | Any two Tocs merged from the same shared and version Tocs are equal. So the map iteration order cannot change the result. |
| Book.AsWrittenDropsNewEntries | internal/book/book.go:222-255 | A version entry with a new name, in a section the shared Toc already has, is missing from the as-written result but present in the corrected one. |
| Book.AsWrittenExample | internal/book/book.go:222-255 | Concrete case: shared "Brighter Configuration" [Document One, Document Two], and a version adding Document Four. As written the section keeps two entries. The corrected merge gives three. |
| Book.MakeBookVersion | internal/book/book.go:90-104 | One book version carries the source version's identifier and the destination `<root>/contents/<version>`. Its documents are every shared name and every version name, and on a name both hold, the version's document wins over the shared one. |
| Book.MakeVersions | internal/book/book.go:87-108 | There is one book version per source version, under the same key. Its destination is `<root>/contents/<version>`. Its documents are the union of the shared and version documents, and the version's own document wins on a shared name. |
| Book.BuildEntriesAsWritten | internal/book/book.go:137-154 | Building fails exactly when the shared TOC or some version's TOC is missing. Otherwise there is one Toc per version identifier, and each is the as-written merge of the shared Toc with that version's Toc: shared sections unchanged, plus the version's new sections. |
| Book.BuildEntries | internal/book/book.go:137-154 | Corrected twin of `Book.BuildEntriesAsWritten` (see Findings). Building fails exactly when the shared TOC or some version's TOC is missing. Otherwise there is one merged Toc per version identifier, and each is the merge of the shared Toc with that version's Toc. |
| LegacyBook.AddSharedEntries | internal/book.go:153-158 | Every shared section key is copied into the configuration unchanged. Other keys are untouched. |
| LegacyBook.AddVersionedEntries | internal/book.go:176-212 | For a section in both, the merged entries are stored back under that key. A version section not present is inserted verbatim. Other sections are untouched. |
| LegacyBook.LegacyAgreesWithCorrectedMerge | internal/book.go:180-206 | The earlier merge, which stores its result back, yields exactly the entries of the corrected current merge. |
| TocSort.Lift | internal/pages/sort_toc.go:5-11 | Collecting keeps the range order, and every collected section holds its own name's section of the Toc. When the range visits every key once, the collected names list every section of the Toc exactly once. |
| TocSort.ExchangeWithLater | internal/pages/sort_toc.go:15-19 | One inner pass puts a minimum of the remaining items at position i. It keeps the items before i, and keeps everything before i at most everything after it. It only permutes. |
| TocSort.ExchangeSort | internal/pages/sort_toc.go:14-20 | The non-adjacent exchange sort returns a nondecreasing sequence that is a permutation of its input. |
| TocSort.ExchangeSortIsNotStable | internal/pages/sort_toc.go:14-20 | Equal keys are not kept in input order: [a:1, b:1, c:0] becomes [c, b, a]. |
| TocSort.ReorderedSections | internal/pages/sort_toc.go:14-20 | After the section pass the names still list every Toc key once, and each section is still the Toc's section for its name. |
| TocSort.SortEachSection | internal/pages/sort_toc.go:23-31 | Each section keeps its name and order. Its entries become a nondecreasing permutation of its own entries, so no entry moves between sections. |
| TocSort.SortToc | internal/pages/sort_toc.go:3-34 | The result has exactly one section per Toc key, ordered by section order. Each section has the Toc's order and a sorted permutation of the Toc's entries for that key. |
| TocSort.SortVersionNine | internal/pages/sort_toc_test.go:21-64 | For the version 9 fixture and any enumeration order, the sections come out SectionOne, SectionTwo, SectionThree. The entries come out DocumentFour before DocumentThree, DocumentTwo before DocumentOne, and DocumentFive before DocumentSix. |
| Markdown.RepeatTwoSpaces | internal/book/markdownGenerator.go:75 | Repeating two spaces n times gives exactly 2n spaces. |
| Markdown.EscapeSpaces | internal/book/markdownGenerator.go:66 | The escaped text contains no space. It equals its input when the input has no space, and it never shrinks. |
| Markdown.UnescapeEscapeSpaces | internal/book/markdownGenerator.go:65-66 | For text without `%`, replacing each `%20` by a space recovers the original, so escaping loses nothing. |
| Markdown.LinkPath | internal/book/markdownGenerator.go:63-68 | A link path never contains a space. |
| Markdown.LinkPathParts | internal/book/markdownGenerator.go:63-68 | The link path is `/contents/`, then the version with spaces escaped, then `/`, then the file name with spaces escaped. |
| Markdown.ListItemShape | internal/book/markdownGenerator.go:70-76 | A list item is 2 × indent spaces, then `* `, then `[desc](url)`. |
| Markdown.TitleShape | internal/book/markdownGenerator.go:78-80 | A title of level n is n `#` characters, one space, then the content. |
| Markdown.TitleLevels | internal/book/markdownGenerator.go:46-54 | A version title starts with `## ` and a section title with `### `. |
| Markdown.ListItemIsEntryLine | internal/book/markdownGenerator.go:56-60 | The item written for an entry is that entry's line in the line-based reference grammar, indented by its order. |
| Markdown.WriteTOCsLines | internal/book/markdownGenerator.go:56-61 | Writing a section's entries appends exactly one reference line per entry, in input order, each ending in a newline. |
| Markdown.WriteSectionsLines | internal/book/markdownGenerator.go:26-31 | Each section appends its `###` title, a blank line, its entry lines, then a blank line, in input order. |
| Markdown.GenerateSummaryLines | internal/book/markdownGenerator.go:21-33 | The buffer grows by exactly the reference lines of the summary: per version, its `##` title and a blank line, then its sections. Nothing is reordered and the earlier buffer is kept. |
| Markdown.SummaryIsUnlines | internal/book/markdownGenerator.go:15-33 | A fresh generator's summary text is exactly the reference lines joined with newlines. |
| Markdown.SummaryAppend | internal/book/markdownGenerator.go:23-32 | The summary of two runs of versions is the concatenation of their summaries. The buffer only ever appends. |
| Markdown.SummaryLinesAppend | internal/book/markdownGenerator.go:23-32 | The reference lines of concatenated versions are the concatenation of their lines. |
| Markdown.GeneratorTestCalls | internal/book/markdownGenerator_test.go:5-33 | The generator test is commented out in its entirety, so nothing in the repository runs it. Its call sequence on a fresh generator leaves exactly the test's reference lines in the buffer. |
| Markdown.TestLinesExpected | internal/book/markdownGenerator_test.go:35 | The reference lines of that commented-out test are its expected text, line by line: the `## v9.0.0` and `###` titles, blank lines, and the three two-space-indented links. |
| Sources.AnySuffix | internal/sources/sources.go:226-233 | The extension loop answers true exactly when some listed extension is a suffix of the name. |
| Sources.IsImageFile | internal/sources/sources.go:223-234 | A name is an image exactly when it ends with .png, .jpg, .jpeg, .gif, .bmp or .svg. |
| Sources.MarkDownFileChars | internal/sources/sources.go:236-238 | A name is a markdown document exactly when its last three characters are `.`, `m` and `d`, in that letter case. |
| Sources.MarkDownIsNotImage | internal/sources/sources.go:223-238 | No name is both a markdown document and an image, so the two tests never claim the same file. |
| Sources.ImageExtensionCaseSensitive | internal/sources/sources.go:223-238 | The suffix tests are case sensitive: `logo.png` is an image, `logo.PNG` is not, and `README.MD` is not markdown. |
| Sources.SpecialNamesAreNotContent | internal/sources/sources.go:84-89 | `.toc.yaml` is neither a markdown document nor an image, and `.gitbook.yaml` is not a document. |
| Sources.FindImagesIn | internal/sources/sources.go:109-120 | It succeeds exactly when every nested image folder can be read. Then the new keys are exactly the image files of the listing and of its image folders, each tagged with the version. |
| Sources.FindImagesOf | internal/sources/sources.go:102-124 | An unreadable image folder is the error for its path. Otherwise it behaves as the walk of its listing. |
| Sources.AddDocEntry | internal/sources/sources.go:85-95 | One listing entry fails only as a static folder whose images cannot be read. A `.md` file adds exactly its own name as a document. The `.toc.yaml` file becomes the TOC and otherwise the TOC is kept. Earlier documents and images survive unless replaced by a document or image carrying this folder's tag. |
| Sources.FindDocsIn | internal/sources/sources.go:84-97 | It succeeds exactly when every static folder below can be read. The documents are keyed by the `.md` file names, each with the folder path and tag. The TOC is the `.toc.yaml` file if there is one. The image keys are exactly the images found under the static folders, each tagged. |
| Sources.FindDocsOf | internal/sources/sources.go:77-100 | An unreadable folder is the error for its path. Otherwise the documents are exactly its `.md` files, the TOC is present exactly when `.toc.yaml` is there, and the image keys are exactly the images under its static folder. |
| Sources.FindVersion | internal/sources/sources.go:202-220 | A version's identifier is its folder name. Its documents are its `.md` files, tagged with that name, at `<root>/<name>`. Its TOC is `.toc.yaml` at `<root>/<name>` tagged with that name when the file is there, and absent otherwise. Its image keys are the static folder's images, tagged with the name. |
| Sources.FindShared | internal/sources/sources.go:181-197 | The shared documents are the shared folder's `.md` files, tagged "Shared". Its TOC is `.toc.yaml` at `<root>/shared` tagged "Shared" when the file is there, and absent otherwise. Its image keys are the static folder's images, tagged "Shared". It fails exactly when a folder it reads cannot be read. |
| Sources.ClassifyRoot | internal/sources/sources.go:43-67 | First match wins: the `.gitbook.yaml` entry is the GitBook file and `README.md` is the README, file or folder. A folder `shared` is the shared folder. Any other folder except `summary` is a version. Everything else is skipped. |
| Sources.AddRootEntry | internal/sources/sources.go:44-66 | One root entry fails only as a shared or version folder that cannot be walked. A version folder adds exactly its name as a version, holding what findVersion found. The GitBook file sets GitBook to the doc `.gitbook.yaml` at the root path with no version, the README file likewise sets README, and otherwise both are kept. The shared folder's findShared result becomes the shared part, and otherwise the shared part is kept. |
| Sources.FindFromListing | internal/sources/sources.go:43-67 | The version keys are exactly the version folders' names, and each version's identifier equals its key. GitBook is the doc `.gitbook.yaml` at the root path, with no version, when the listing holds that file, and is kept otherwise; README likewise with `README.md`. When there is a shared folder, the shared part is what findShared yields for it; otherwise it is kept. The walk fails exactly when a shared or version folder cannot be walked. |
| Sources.FindFromPath | internal/sources/sources.go:34-70 | An unreadable root is the error for the root path. Otherwise the root path is recorded, the versions are exactly the version folders under their names, GitBook is the doc `.gitbook.yaml` at the root path, with no version, when the root holds that file, and absent otherwise; README likewise with `README.md`. The shared part is findShared's result for the shared folder, or empty when there is none. |
| Sources.ExampleBookFound | internal/sources/sources.go:43-67 | Concrete case: a root with the GitBook file, a README, version 9.0.0, shared and an unreadable `summary`. It succeeds with the single version 9.0.0, its one document and its TOC, because `summary` is never read. GitBook and README are the docs `.gitbook.yaml` and `README.md` at the root path. |

## Left out

- File copying, folder creation, temporary work folders and publishing (`copyFile`, `Publish`, `ClearWorkDir`, `MakeTOC`) are pure I/O.
- YAML decoding of the `.toc.yaml` files is a foreign library. `Book.BuildEntries` and `Book.BuildEntriesAsWritten` take the decoded tables of contents as inputs, and a missing one stands for a read or decode failure.
- `log.Print` and `log.Fatal` are left out. `log.Fatal` exits the process, and the model treats that as the same failure the code returns next.
- Writing the rendered summary to the file, and that write's error, are left out. The model's summary is the generator's buffer.
- Version-level ordering (`VersionedToc.Sort`) is not part of this model. Its code is not among the modelled files.
- TocSort.SortToc: Go's swaps also reorder the entry slices of the sections in the Toc itself, because the collected sections share those slices. With values there is no sharing, so this side effect is not modelled.
- Go's map iteration order is arbitrary. It is a parameter, and every property holds for all orders.
- Sources: `os.ReadDir` is replaced by a directory tree value. A folder that cannot be read carries a flag, and its read is the error the Go code returns. The listing order is taken as given; Go sorts it by file name.
- Sources: the static folder and image folder names are defined outside the modelled files, so they are parameters (`Sources.Folders`).
- Sources: a document's `os.DirEntry` is represented by its name.
- Sources.FindImagesIn: an image's source path, the image folder it was found in, is not stated. The contracts give each image's name, that it is an image file, and its tag.
- Sources.FindFromListing: on an error the Go code returns with the `Sources` value partly filled in. The model returns only the error.
- LegacyBook: the earlier entry type has `Indent` where the current one has `Order`. The merge only compares names, so the same entry type serves both.
- Markdown: a negative entry order panics in `strings.Repeat`, so the renderer requires orders of at least zero.
- Markdown.TestLinesExpected: states the expected text of the generator test line by line, with each link written as `Link(name, url)`, rather than as one string literal.

## Findings

| source | as written | input that shows it | evidently intended | confidence | as-written member | corrected member |
|---|---|---|---|---|---|---|
| internal/book/book.go:222-255 | For a section both Tocs have, the version's order and merged entries go to the range copy `j`. That copy is never stored back into the map, so the shared section is kept as is. | A shared "Brighter Configuration" section [Document One, Document Two], with version 10 adding Document Four to it. As written the section stays [Document One, Document Two]. | The version's order wins and the merged list [Document One, Document Two, Document Four] is stored back. The earlier merge at internal/book.go:205 does this, and internal/book/book_test.go:234 expects it. | not executed | Book.AddVersionedSectionsAsWritten, Book.BuildVersionEntriesAsWritten, Book.MergeVersionAsWritten, Book.BuildEntriesAsWritten | Book.AddVersionedSections, Book.BuildVersionEntries, Book.MergeVersion, Book.BuildEntries |
