/*
 * Source discovery of internal/sources/sources.go: the book's source folder is
 * walked once; its top-level entries are classified (the GitBook file, the
 * README, the shared folder, one folder per version) and each shared or
 * version folder is searched for markdown documents, its table of contents and
 * the images under its static folder.
 *
 * The file system is a value: a folder lists its entries in the order the
 * directory read returns them, and a folder that cannot be read is marked so;
 * reading it is then the error that the Go code returns.
 */
module Sources {
  import opened Pages

  const GitBookFileName: string := ".gitbook.yaml"
  const TocFileName: string := ".toc.yaml"
  const SharedFolderName: string := "shared"
  const SummaryFolderName: string := "summary"
  const SharedVersion: string := "Shared"
  const ReadMeFileName: string := "README.md"
  const MarkDownExtension: string := ".md"
  const ImageExtensions: seq<string> := [".png", ".jpg", ".jpeg", ".gif", ".bmp", ".svg"]

  /** A directory entry: a file, or a folder with its listing (unless it cannot be read). */
  datatype Entry =
    | File(name: string)
    | Dir(name: string, readable: bool, children: seq<Entry>)

  /**
   * The names of the folder that holds images inside a version or shared
   * folder, and of the nested image folders below it. Their values are
   * defined outside the modelled files, so they are parameters here.
   */
  datatype Folders = Folders(staticFolder: string, imageFolder: string)

  /** The directory read of `path` failed. */
  datatype Error = ReadDirFailed(path: string)

  datatype Result<T> = Ok(value: T) | Err(error: Error)

  /** The root folder: where it is, and the GitBook and README files found in it. */
  datatype Root = Root(sourcePath: string, gitBook: Option<Doc>, readMe: Option<Doc>)

  /** What FindFromPath collects. */
  datatype Sources = Sources(root: Root, shared: Shared, versions: map<string, Version>)

  /** The documents, table of contents and images found in one shared or version folder. */
  datatype Found = Found(docs: map<string, Doc>, toc: Option<Doc>, images: map<string, Asset>)

  // ---------------------------------------------------------------------------
  // File name tests
  // ---------------------------------------------------------------------------

  /** strings.HasSuffix. */
  predicate HasSuffix(s: string, suffix: string) {
    |suffix| <= |s| && s[|s| - |suffix|..] == suffix
  }

  /** The loop of isImageFile over the extensions, first to last. */
  function AnySuffix(name: string, extensions: seq<string>): (r: bool)
    ensures r <==> exists i :: 0 <= i < |extensions| && HasSuffix(name, extensions[i])
    decreases |extensions|
  {
    if extensions == [] then false
    else if HasSuffix(name, extensions[0]) then true
    else AnySuffix(name, extensions[1..])
  }

  /** isImageFile: the name ends with one of the image extensions, letter case included. */
  function IsImageFile(name: string): (r: bool)
    ensures r <==> exists ext :: ext in ImageExtensions && HasSuffix(name, ext)
  {
    AnySuffix(name, ImageExtensions)
  }

  /** isMarkDownFile. */
  predicate IsMarkDownFile(name: string) {
    HasSuffix(name, MarkDownExtension)
  }

  /** A name is a markdown document exactly when its last three characters are '.', 'm' and 'd', letter case included. */
  lemma MarkDownFileChars(name: string)
    ensures IsMarkDownFile(name) <==>
      |name| >= 3 && name[|name| - 3] == '.' && name[|name| - 2] == 'm' && name[|name| - 1] == 'd'
  {
    if IsMarkDownFile(name) {
      assert name[|name| - 3..] == ".md";
    }
  }

  /** A markdown document is never taken for an image. */
  lemma MarkDownIsNotImage(name: string)
    requires IsMarkDownFile(name)
    ensures !IsImageFile(name)
  {
    MarkDownFileChars(name);
    EndingInDIsNotImage(name);
  }

  /** No image extension ends in 'd'. */
  lemma EndingInDIsNotImage(name: string)
    requires |name| > 0 && name[|name| - 1] == 'd'
    ensures !IsImageFile(name)
  {
    forall ext | ext in ImageExtensions
      ensures !HasSuffix(name, ext)
    {
      LastCharRulesOut(name, ext);
    }
  }

  /** The file names that the folder walk treats specially are neither documents nor images. */
  lemma SpecialNamesAreNotContent()
    ensures !IsMarkDownFile(TocFileName) && !IsImageFile(TocFileName)
    ensures !IsMarkDownFile(GitBookFileName)
  {
    assert TocFileName[|TocFileName| - 1] == 'l';
    assert GitBookFileName[|GitBookFileName| - 1] == 'l';
    forall ext | ext in ImageExtensions
      ensures !HasSuffix(TocFileName, ext)
    {
      assert TocFileName[|TocFileName| - 1] == 'l';
    }
  }

  /** The extension test is case sensitive: an upper-case extension is not an image. */
  lemma ImageExtensionCaseSensitive()
    ensures IsImageFile("logo.png")
    ensures !IsImageFile("logo.PNG")
    ensures !IsMarkDownFile("README.MD")
  {
    assert HasSuffix("logo.png", ".png");
    assert "logo.PNG"[|"logo.PNG"| - 1] == 'G';
    assert "README.MD"[|"README.MD"| - 1] == 'D';
  }

  // ---------------------------------------------------------------------------
  // Images
  // ---------------------------------------------------------------------------

  /** The names of the image files a walk of the image folders finds. */
  function ImageNamesIn(listing: seq<Entry>, folders: Folders): set<string>
    decreases listing
  {
    if listing == [] then {}
    else
      var e := listing[0];
      var here :=
        if e.File? && IsImageFile(e.name) then {e.name}
        else if e.Dir? && e.name == folders.imageFolder then ImageNamesOf(e, folders)
        else {};
      here + ImageNamesIn(listing[1..], folders)
  }

  function ImageNamesOf(dir: Entry, folders: Folders): set<string>
    requires dir.Dir?
    decreases dir
  {
    ImageNamesIn(dir.children, folders)
  }

  /** Every image folder a walk of the listing descends into can be read. */
  predicate ImagesReadableIn(listing: seq<Entry>, folders: Folders)
    decreases listing
  {
    listing == [] ||
    ((listing[0].Dir? && listing[0].name == folders.imageFolder ==> ImagesReadableOf(listing[0], folders))
     && ImagesReadableIn(listing[1..], folders))
  }

  predicate ImagesReadableOf(dir: Entry, folders: Folders)
    requires dir.Dir?
    decreases dir
  {
    dir.readable && ImagesReadableIn(dir.children, folders)
  }

  /**
   * The loop of findVersionedImages / findSharedImages over one listing: an
   * image file is recorded under its name, a nested image folder is searched
   * in turn, anything else is skipped.
   */
  function FindImagesIn(path: string, listing: seq<Entry>, tag: string, folders: Folders, images: map<string, Asset>)
    : (r: Result<map<string, Asset>>)
    ensures r.Ok? <==> ImagesReadableIn(listing, folders)
    ensures r.Ok? ==> r.value.Keys == images.Keys + ImageNamesIn(listing, folders)
    ensures r.Ok? ==> forall k :: k in r.value ==>
      (k in images && r.value[k] == images[k]) || (IsImageFile(k) && r.value[k].version == tag)
    decreases listing
  {
    if listing == [] then Ok(images)
    else
      var e := listing[0];
      if e.File? then
        var next := if IsImageFile(e.name) then images[e.name := Asset(path, tag, e.name)] else images;
        FindImagesIn(path, listing[1..], tag, folders, next)
      else if e.name == folders.imageFolder then
        match FindImagesOf(path + "/" + e.name, e, tag, folders, images)
        case Err(err) => Err(err)
        case Ok(next) => FindImagesIn(path, listing[1..], tag, folders, next)
      else
        FindImagesIn(path, listing[1..], tag, folders, images)
  }

  /** findVersionedImages / findSharedImages: read the folder at `path`, then walk its listing. */
  function FindImagesOf(path: string, dir: Entry, tag: string, folders: Folders, images: map<string, Asset>)
    : (r: Result<map<string, Asset>>)
    requires dir.Dir?
    ensures r.Ok? <==> ImagesReadableOf(dir, folders)
    ensures r.Ok? ==> r.value.Keys == images.Keys + ImageNamesOf(dir, folders)
    ensures r.Ok? ==> forall k :: k in r.value ==>
      (k in images && r.value[k] == images[k]) || (IsImageFile(k) && r.value[k].version == tag)
    ensures !dir.readable ==> r == Err(ReadDirFailed(path))
    decreases dir
  {
    if !dir.readable then Err(ReadDirFailed(path))
    else FindImagesIn(path, dir.children, tag, folders, images)
  }

  // ---------------------------------------------------------------------------
  // Documents of one shared or version folder
  // ---------------------------------------------------------------------------

  /** The names of the markdown files directly in a listing (folders do not count). */
  function DocNames(listing: seq<Entry>): (r: set<string>)
    ensures forall n :: n in r <==> exists i :: 0 <= i < |listing| && listing[i].File? && listing[i].name == n && IsMarkDownFile(n)
  {
    set i | 0 <= i < |listing| && listing[i].File? && IsMarkDownFile(listing[i].name) :: listing[i].name
  }

  /** The image names found under the static folders directly in a listing. */
  function StaticImageNames(listing: seq<Entry>, folders: Folders): set<string>
    decreases |listing|
  {
    if listing == [] then {}
    else
      (if listing[0].Dir? && listing[0].name == folders.staticFolder then ImageNamesOf(listing[0], folders) else {})
      + StaticImageNames(listing[1..], folders)
  }

  /** Some file directly in the listing is the table of contents. */
  predicate HasTocFile(listing: seq<Entry>) {
    exists i :: 0 <= i < |listing| && listing[i].File? && listing[i].name == TocFileName
  }

  /** Every static folder directly in the listing, and every image folder below it, can be read. */
  predicate DocsReadableIn(listing: seq<Entry>, folders: Folders) {
    forall i :: 0 <= i < |listing| && listing[i].Dir? && listing[i].name == folders.staticFolder ==>
      ImagesReadableOf(listing[i], folders)
  }

  /** A shared or version folder, and every folder its walk descends into, can be read. */
  predicate FolderReadable(dir: Entry, folders: Folders)
    requires dir.Dir?
  {
    dir.readable && DocsReadableIn(dir.children, folders)
  }

  /**
   * One entry of the loop of findVersionedDocs / findSharedDocs: the
   * table-of-contents file becomes the folder's TOC, another markdown file
   * becomes a document, the static folder is searched for images, anything
   * else is skipped. The document and the TOC record the folder path and the
   * tag (the version name, or "Shared").
   */
  function AddDocEntry(path: string, e: Entry, tag: string, folders: Folders, acc: Found): (r: Result<Found>)
    ensures r.Ok? <==> (e.Dir? && e.name == folders.staticFolder ==> ImagesReadableOf(e, folders))
    ensures r.Ok? ==> r.value.docs.Keys == acc.docs.Keys + (if e.File? && IsMarkDownFile(e.name) then {e.name} else {})
    ensures r.Ok? ==> forall k :: k in r.value.docs ==>
      (k in acc.docs && r.value.docs[k] == acc.docs[k]) || r.value.docs[k] == Doc(path, tag, k)
    ensures r.Ok? ==> r.value.toc == if e.File? && e.name == TocFileName then Some(Doc(path, tag, TocFileName)) else acc.toc
    ensures r.Ok? ==> r.value.images.Keys == acc.images.Keys + StaticImageNames([e], folders)
    ensures r.Ok? ==> forall k :: k in r.value.images ==>
      (k in acc.images && r.value.images[k] == acc.images[k]) || (IsImageFile(k) && r.value.images[k].version == tag)
  {
    SpecialNamesAreNotContent();
    if e.File? then
      if e.name == TocFileName then Ok(acc.(toc := Some(Doc(path, tag, e.name))))
      else if IsMarkDownFile(e.name) then Ok(acc.(docs := acc.docs[e.name := Doc(path, tag, e.name)]))
      else Ok(acc)
    else if e.name == folders.staticFolder then
      match FindImagesOf(path + "/" + e.name, e, tag, folders, acc.images)
      case Err(err) => Err(err)
      case Ok(images) => Ok(acc.(images := images))
    else
      Ok(acc)
  }

  /** The loop of findVersionedDocs / findSharedDocs over a listing, stopping at the first read failure. */
  function FindDocsIn(path: string, listing: seq<Entry>, tag: string, folders: Folders, acc: Found): (r: Result<Found>)
    ensures r.Ok? <==> DocsReadableIn(listing, folders)
    ensures r.Ok? ==> r.value.docs.Keys == acc.docs.Keys + DocNames(listing)
    ensures r.Ok? ==> forall k :: k in r.value.docs ==>
      (k in acc.docs && r.value.docs[k] == acc.docs[k]) || r.value.docs[k] == Doc(path, tag, k)
    ensures r.Ok? ==> r.value.toc == if HasTocFile(listing) then Some(Doc(path, tag, TocFileName)) else acc.toc
    ensures r.Ok? ==> r.value.images.Keys == acc.images.Keys + StaticImageNames(listing, folders)
    ensures r.Ok? ==> forall k :: k in r.value.images ==>
      (k in acc.images && r.value.images[k] == acc.images[k]) || (IsImageFile(k) && r.value.images[k].version == tag)
    decreases |listing|
  {
    if listing == [] then Ok(acc)
    else
      DocsCons(listing, folders);
      match AddDocEntry(path, listing[0], tag, folders, acc)
      case Err(err) => Err(err)
      case Ok(next) =>
        var r := FindDocsIn(path, listing[1..], tag, folders, next);
        if r.Err? then r
        else
          var here := if listing[0].File? && IsMarkDownFile(listing[0].name) then {listing[0].name} else {};
          KeysStep(acc.docs.Keys, next.docs.Keys, r.value.docs.Keys, here, DocNames(listing[1..]));
          KeysStep(acc.images.Keys, next.images.Keys, r.value.images.Keys,
                   StaticImageNames([listing[0]], folders), StaticImageNames(listing[1..], folders));
          OverwriteStep(acc.docs, next.docs, r.value.docs, (k, d) => d == Doc(path, tag, k));
          OverwriteStep(acc.images, next.images, r.value.images, (k, a: Asset) => IsImageFile(k) && a.version == tag);
          r
  }

  /** Two walks in a row add the keys of the first and then those of the second. */
  lemma KeysStep(acc: set<string>, next: set<string>, r: set<string>, here: set<string>, rest: set<string>)
    requires next == acc + here
    requires r == next + rest
    ensures r == acc + (here + rest)
  {
  }

  /**
   * Two walks in a row: what either walk writes satisfies `written`, so after
   * both every key holds its first value or a written one.
   */
  lemma OverwriteStep<V>(acc: map<string, V>, next: map<string, V>, r: map<string, V>, written: (string, V) -> bool)
    requires forall k :: k in next ==> (k in acc && next[k] == acc[k]) || written(k, next[k])
    requires forall k :: k in r ==> (k in next && r[k] == next[k]) || written(k, r[k])
    ensures forall k :: k in r ==> (k in acc && r[k] == acc[k]) || written(k, r[k])
  {
  }

  /** What the first entry of a listing contributes to the documents, the TOC and the readability of the rest. */
  lemma DocsCons(listing: seq<Entry>, folders: Folders)
    requires |listing| > 0
    ensures DocNames(listing) ==
      (if listing[0].File? && IsMarkDownFile(listing[0].name) then {listing[0].name} else {}) + DocNames(listing[1..])
    ensures HasTocFile(listing) <==>
      (listing[0].File? && listing[0].name == TocFileName) || HasTocFile(listing[1..])
    ensures DocsReadableIn(listing, folders) <==>
      (listing[0].Dir? && listing[0].name == folders.staticFolder ==> ImagesReadableOf(listing[0], folders))
      && DocsReadableIn(listing[1..], folders)
    ensures StaticImageNames(listing, folders) == StaticImageNames([listing[0]], folders) + StaticImageNames(listing[1..], folders)
  {
    assert [listing[0]][1..] == [];
    var rest := listing[1..];
    assert forall i :: 0 <= i < |rest| ==> rest[i] == listing[i + 1];
    assert listing == [listing[0]] + rest;
  }

  /** Reading the folder itself, then walking it; a folder that cannot be read is the error. */
  function FindDocsOf(path: string, dir: Entry, tag: string, folders: Folders): (r: Result<Found>)
    requires dir.Dir?
    ensures !dir.readable ==> r == Err(ReadDirFailed(path))
    ensures r.Ok? <==> FolderReadable(dir, folders)
    ensures r.Ok? ==> r.value.docs.Keys == DocNames(dir.children)
    ensures r.Ok? ==> forall k :: k in r.value.docs ==> r.value.docs[k] == Doc(path, tag, k)
    ensures r.Ok? ==> r.value.toc == if HasTocFile(dir.children) then Some(Doc(path, tag, TocFileName)) else None
    ensures r.Ok? ==> r.value.images.Keys == StaticImageNames(dir.children, folders)
    ensures r.Ok? ==> forall k :: k in r.value.images ==> IsImageFile(k) && r.value.images[k].version == tag
  {
    if !dir.readable then Err(ReadDirFailed(path))
    else FindDocsIn(path, dir.children, tag, folders, Found(map[], None, map[]))
  }

  /** findVersion: the folder's documents, tagged with the folder name as the version. */
  function FindVersion(root: string, dir: Entry, folders: Folders): (r: Result<Version>)
    requires dir.Dir?
    ensures !dir.readable ==> r == Err(ReadDirFailed(root + "/" + dir.name))
    ensures r.Ok? <==> FolderReadable(dir, folders)
    ensures r.Ok? ==> r.value.version == dir.name && r.value.destPath == ""
    ensures r.Ok? ==> r.value.toc == if HasTocFile(dir.children) then Some(Doc(root + "/" + dir.name, dir.name, TocFileName)) else None
    ensures r.Ok? ==> forall k :: k in r.value.docs ==> r.value.docs[k] == Doc(root + "/" + dir.name, dir.name, k)
    ensures r.Ok? ==> r.value.docs.Keys == DocNames(dir.children)
    ensures r.Ok? ==> r.value.images.Keys == StaticImageNames(dir.children, folders)
    ensures r.Ok? ==> forall k :: k in r.value.images ==> IsImageFile(k) && r.value.images[k].version == dir.name
  {
    match FindDocsOf(root + "/" + dir.name, dir, dir.name, folders)
    case Err(err) => Err(err)
    case Ok(found) => Ok(Version("", found.docs, found.toc, dir.name, found.images))
  }

  /** findShared: the shared folder's documents, tagged "Shared". */
  function FindShared(root: string, dir: Entry, folders: Folders): (r: Result<Shared>)
    requires dir.Dir?
    ensures !dir.readable ==> r == Err(ReadDirFailed(root + "/" + dir.name))
    ensures r.Ok? <==> FolderReadable(dir, folders)
    ensures r.Ok? ==> r.value.toc == if HasTocFile(dir.children) then Some(Doc(root + "/" + dir.name, SharedVersion, TocFileName)) else None
    ensures r.Ok? ==> forall k :: k in r.value.docs ==> r.value.docs[k] == Doc(root + "/" + dir.name, SharedVersion, k)
    ensures r.Ok? ==> r.value.docs.Keys == DocNames(dir.children)
    ensures r.Ok? ==> r.value.images.Keys == StaticImageNames(dir.children, folders)
    ensures r.Ok? ==> forall k :: k in r.value.images ==> IsImageFile(k) && r.value.images[k].version == SharedVersion
  {
    match FindDocsOf(root + "/" + dir.name, dir, SharedVersion, folders)
    case Err(err) => Err(err)
    case Ok(found) => Ok(Shared(found.docs, found.toc, found.images))
  }

  // ---------------------------------------------------------------------------
  // The root folder
  // ---------------------------------------------------------------------------

  /** What a top-level entry is taken for; the first test that matches wins. */
  datatype RootItem = GitBookFile | ReadMeFile | SharedFolder | VersionFolder | Skipped

  function ClassifyRoot(e: Entry): (r: RootItem)
    ensures r == GitBookFile <==> e.name == GitBookFileName
    ensures r == ReadMeFile <==> e.name == ReadMeFileName
    ensures r == SharedFolder <==> e.Dir? && e.name == SharedFolderName
    ensures r == VersionFolder <==>
      e.Dir? && e.name !in {GitBookFileName, ReadMeFileName, SharedFolderName, SummaryFolderName}
  {
    if e.name == GitBookFileName then GitBookFile
    else if e.name == ReadMeFileName then ReadMeFile
    else if e.Dir? && e.name == SharedFolderName then SharedFolder
    else if e.Dir? && e.name != SummaryFolderName then VersionFolder
    else Skipped
  }

  /** The names of the top-level entries taken for version folders. */
  function VersionNames(listing: seq<Entry>): set<string> {
    set i | 0 <= i < |listing| && ClassifyRoot(listing[i]) == VersionFolder :: listing[i].name
  }

  /** Some top-level entry has the given classification. */
  predicate HasItem(listing: seq<Entry>, item: RootItem) {
    exists i :: 0 <= i < |listing| && ClassifyRoot(listing[i]) == item
  }

  /** Every shared and version folder of the root listing can be walked without a read failure. */
  predicate RootReadable(listing: seq<Entry>, folders: Folders) {
    forall i :: 0 <= i < |listing| && (ClassifyRoot(listing[i]) == SharedFolder || ClassifyRoot(listing[i]) == VersionFolder) ==>
      FolderReadable(listing[i], folders)
  }

  /** `v` is what findVersion yields for a version folder named `k` of the listing. */
  predicate FoundVersion(root: string, listing: seq<Entry>, folders: Folders, k: string, v: Version) {
    exists i :: 0 <= i < |listing| && listing[i].Dir? && ClassifyRoot(listing[i]) == VersionFolder
      && listing[i].name == k && FindVersion(root, listing[i], folders) == Ok(v)
  }

  /** `s` is what findShared yields for a shared folder of the listing. */
  predicate FoundShared(root: string, listing: seq<Entry>, folders: Folders, s: Shared) {
    exists i :: 0 <= i < |listing| && listing[i].Dir? && ClassifyRoot(listing[i]) == SharedFolder
      && FindShared(root, listing[i], folders) == Ok(s)
  }

  /** What the first entry of the root listing contributes, and what the rest of the listing still shows. */
  lemma RootCons(root: string, listing: seq<Entry>, folders: Folders)
    requires |listing| > 0
    ensures VersionNames(listing) ==
      (if ClassifyRoot(listing[0]) == VersionFolder then {listing[0].name} else {}) + VersionNames(listing[1..])
    ensures forall item :: HasItem(listing, item) <==> ClassifyRoot(listing[0]) == item || HasItem(listing[1..], item)
    ensures RootReadable(listing, folders) <==>
      ((ClassifyRoot(listing[0]) == SharedFolder || ClassifyRoot(listing[0]) == VersionFolder) ==> FolderReadable(listing[0], folders))
      && RootReadable(listing[1..], folders)
    ensures forall k, v :: FoundVersion(root, listing[1..], folders, k, v) ==> FoundVersion(root, listing, folders, k, v)
    ensures listing[0].Dir? && ClassifyRoot(listing[0]) == VersionFolder && FindVersion(root, listing[0], folders).Ok? ==>
      FoundVersion(root, listing, folders, listing[0].name, FindVersion(root, listing[0], folders).value)
    ensures forall s :: FoundShared(root, listing[1..], folders, s) ==> FoundShared(root, listing, folders, s)
    ensures listing[0].Dir? && ClassifyRoot(listing[0]) == SharedFolder && FindShared(root, listing[0], folders).Ok? ==>
      FoundShared(root, listing, folders, FindShared(root, listing[0], folders).value)
  {
    var rest := listing[1..];
    assert forall i :: 0 <= i < |rest| ==> rest[i] == listing[i + 1];
    assert listing == [listing[0]] + rest;
    forall k, v | FoundVersion(root, rest, folders, k, v)
      ensures FoundVersion(root, listing, folders, k, v)
    {
      var i :| 0 <= i < |rest| && rest[i].Dir? && ClassifyRoot(rest[i]) == VersionFolder
        && rest[i].name == k && FindVersion(root, rest[i], folders) == Ok(v);
      assert listing[i + 1] == rest[i];
    }
    forall s | FoundShared(root, rest, folders, s)
      ensures FoundShared(root, listing, folders, s)
    {
      var i :| 0 <= i < |rest| && rest[i].Dir? && ClassifyRoot(rest[i]) == SharedFolder
        && FindShared(root, rest[i], folders) == Ok(s);
      assert listing[i + 1] == rest[i];
    }
  }

  /**
   * One entry of the loop of FindFromPath: the GitBook file and the README
   * are recorded, the shared folder is read by findShared, any other folder
   * except the summary folder is read by findVersion, and a read failure
   * stops the walk.
   */
  function AddRootEntry(root: string, e: Entry, folders: Folders, acc: Sources): (r: Result<Sources>)
    ensures r.Ok? <==> ((ClassifyRoot(e) == SharedFolder || ClassifyRoot(e) == VersionFolder) ==> FolderReadable(e, folders))
    ensures r.Ok? ==> r.value.versions.Keys == acc.versions.Keys + (if ClassifyRoot(e) == VersionFolder then {e.name} else {})
    ensures r.Ok? ==> forall k :: k in r.value.versions ==>
      (k in acc.versions && r.value.versions[k] == acc.versions[k])
      || (ClassifyRoot(e) == VersionFolder && k == e.name && FindVersion(root, e, folders) == Ok(r.value.versions[k]))
    ensures r.Ok? ==> (r.value.root.gitBook ==
      if ClassifyRoot(e) == GitBookFile then Some(Doc(root, "", GitBookFileName)) else acc.root.gitBook)
    ensures r.Ok? ==> (r.value.root.readMe ==
      if ClassifyRoot(e) == ReadMeFile then Some(Doc(root, "", ReadMeFileName)) else acc.root.readMe)
    ensures r.Ok? ==> r.value.root.sourcePath == acc.root.sourcePath
    ensures r.Ok? && ClassifyRoot(e) == SharedFolder ==> FindShared(root, e, folders) == Ok(r.value.shared)
    ensures r.Ok? && ClassifyRoot(e) != SharedFolder ==> r.value.shared == acc.shared
  {
    match ClassifyRoot(e)
    case GitBookFile => Ok(acc.(root := acc.root.(gitBook := Some(Doc(root, "", e.name)))))
    case ReadMeFile => Ok(acc.(root := acc.root.(readMe := Some(Doc(root, "", e.name)))))
    case SharedFolder =>
      (match FindShared(root, e, folders)
       case Err(err) => Err(err)
       case Ok(shared) => Ok(acc.(shared := shared)))
    case VersionFolder =>
      (match FindVersion(root, e, folders)
       case Err(err) => Err(err)
       case Ok(version) => Ok(acc.(versions := acc.versions[e.name := version])))
    case Skipped => Ok(acc)
  }

  /** The loop of FindFromPath over the root listing, in listing order. */
  function FindFromListing(root: string, listing: seq<Entry>, folders: Folders, acc: Sources): (r: Result<Sources>)
    ensures r.Ok? ==> r.value.versions.Keys == acc.versions.Keys + VersionNames(listing)
    ensures r.Ok? ==> forall k :: k in r.value.versions ==>
      (k in acc.versions && r.value.versions[k] == acc.versions[k]) || FoundVersion(root, listing, folders, k, r.value.versions[k])
    ensures r.Ok? ==> (r.value.root.gitBook ==
      if HasItem(listing, GitBookFile) then Some(Doc(root, "", GitBookFileName)) else acc.root.gitBook)
    ensures r.Ok? ==> (r.value.root.readMe ==
      if HasItem(listing, ReadMeFile) then Some(Doc(root, "", ReadMeFileName)) else acc.root.readMe)
    ensures r.Ok? ==> r.value.root.sourcePath == acc.root.sourcePath
    ensures r.Ok? && HasItem(listing, SharedFolder) ==> FoundShared(root, listing, folders, r.value.shared)
    ensures r.Ok? && !HasItem(listing, SharedFolder) ==> r.value.shared == acc.shared
    ensures r.Ok? <==> RootReadable(listing, folders)
    decreases |listing|
  {
    if listing == [] then Ok(acc)
    else
      RootCons(root, listing, folders);
      match AddRootEntry(root, listing[0], folders, acc)
      case Err(err) => Err(err)
      case Ok(next) =>
        var r := FindFromListing(root, listing[1..], folders, next);
        if r.Err? then r
        else
          var here := if ClassifyRoot(listing[0]) == VersionFolder then {listing[0].name} else {};
          KeysStep(acc.versions.Keys, next.versions.Keys, r.value.versions.Keys, here, VersionNames(listing[1..]));
          r
  }

  /**
   * FindFromPath: read the root folder, then classify its entries. On success
   * the versions are exactly the version folders, each under its own name.
   */
  function FindFromPath(root: string, dir: Entry, folders: Folders): (r: Result<Sources>)
    requires dir.Dir?
    ensures !dir.readable ==> r == Err(ReadDirFailed(root))
    ensures r.Ok? ==> r.value.root.sourcePath == root
    ensures r.Ok? ==> r.value.versions.Keys == VersionNames(dir.children)
    ensures r.Ok? ==> forall k :: k in r.value.versions ==> FoundVersion(root, dir.children, folders, k, r.value.versions[k])
    ensures r.Ok? ==> forall k :: k in r.value.versions ==> r.value.versions[k].version == k
    ensures r.Ok? ==> (r.value.root.gitBook ==
      if HasItem(dir.children, GitBookFile) then Some(Doc(root, "", GitBookFileName)) else None)
    ensures r.Ok? ==> (r.value.root.readMe ==
      if HasItem(dir.children, ReadMeFile) then Some(Doc(root, "", ReadMeFileName)) else None)
    ensures r.Ok? && HasItem(dir.children, SharedFolder) ==> FoundShared(root, dir.children, folders, r.value.shared)
    ensures r.Ok? && !HasItem(dir.children, SharedFolder) ==> r.value.shared == Shared(map[], None, map[])
    ensures r.Ok? <==> dir.readable && RootReadable(dir.children, folders)
  {
    if !dir.readable then Err(ReadDirFailed(root))
    else
      var empty := Sources(Root(root, None, None), Shared(map[], None, map[]), map[]);
      FindFromListing(root, dir.children, folders, empty)
  }

  // ---------------------------------------------------------------------------
  // A small book
  // ---------------------------------------------------------------------------

  /** The folder of version 9.0.0: a table of contents, one document and a file that is neither. */
  function VersionFolderNine(): Entry {
    Dir("9.0.0", true, [File(TocFileName), File("Intro.md"), File("notes.txt")])
  }

  /** A book root: the GitBook file, the README, one version, the shared folder and an unreadable summary folder. */
  function ExampleRoot(): Entry {
    Dir("book", true, [File(GitBookFileName), File(ReadMeFileName), VersionFolderNine(),
                       Dir(SharedFolderName, true, [File("Shared.md")]), Dir(SummaryFolderName, false, [])])
  }

  /**
   * Walking the small book finds the one version, under its folder name, with
   * its table of contents and its one document; the summary folder is never
   * read, so its read failure does not matter.
   */
  lemma ExampleBookFound(folders: Folders, book: Entry)
    requires book == ExampleRoot()
    ensures var r := FindFromPath("book", book, folders);
      && r.Ok?
      && r.value.versions.Keys == {"9.0.0"}
      && r.value.versions["9.0.0"].docs.Keys == {"Intro.md"}
      && r.value.versions["9.0.0"].toc.Some?
      && r.value.root.gitBook == Some(Doc("book", "", ".gitbook.yaml"))
      && r.value.root.readMe == Some(Doc("book", "", "README.md"))
  {
    var listing := book.children;
    ExampleRootReadable(folders, listing);
    ExampleVersionNames(listing);
    var r := FindFromPath("book", book, folders);
    assert FoundVersion("book", listing, folders, "9.0.0", r.value.versions["9.0.0"]);
    var i :| 0 <= i < |listing| && listing[i].Dir? && ClassifyRoot(listing[i]) == VersionFolder
      && listing[i].name == "9.0.0" && FindVersion("book", listing[i], folders) == Ok(r.value.versions["9.0.0"]);
    assert i == 2;
    ExampleNineDocs(listing[2].children);
    assert HasItem(listing, GitBookFile) by {
      assert ClassifyRoot(listing[0]) == GitBookFile;
    }
    assert HasItem(listing, ReadMeFile) by {
      assert ClassifyRoot(listing[1]) == ReadMeFile;
    }
  }

  lemma ExampleRootReadable(folders: Folders, listing: seq<Entry>)
    requires listing == ExampleRoot().children
    ensures RootReadable(listing, folders)
  {
    assert DocsReadableIn(listing[2].children, folders);
    assert DocsReadableIn(listing[3].children, folders);
    assert ClassifyRoot(listing[4]) == Skipped;
  }

  lemma ExampleVersionNames(listing: seq<Entry>)
    requires listing == ExampleRoot().children
    ensures VersionNames(listing) == {"9.0.0"}
    ensures forall i :: 0 <= i < |listing| && ClassifyRoot(listing[i]) == VersionFolder ==> i == 2
  {
    assert ClassifyRoot(listing[2]) == VersionFolder;
    assert forall i :: 0 <= i < |listing| && i != 2 ==> ClassifyRoot(listing[i]) != VersionFolder;
  }

  lemma ExampleNineDocs(nine: seq<Entry>)
    requires nine == VersionFolderNine().children
    ensures DocNames(nine) == {"Intro.md"}
    ensures HasTocFile(nine)
  {
    assert |nine| == 3;
    assert IsMarkDownFile(nine[1].name) by { assert nine[1].name[|nine[1].name| - 3..] == ".md"; }
    assert !IsMarkDownFile(nine[2].name) by { LastCharRulesOut(nine[2].name, MarkDownExtension); }
    assert !IsMarkDownFile(nine[0].name) by { LastCharRulesOut(nine[0].name, MarkDownExtension); }
    forall n
      ensures n in DocNames(nine) <==> n == "Intro.md"
    {
      if n in DocNames(nine) {
        var i :| 0 <= i < |nine| && nine[i].File? && nine[i].name == n && IsMarkDownFile(n);
        assert i == 1;
      }
    }
    assert nine[0].File? && nine[0].name == TocFileName;
  }

  /** A name whose last letter differs from the suffix's last letter does not end with it. */
  lemma LastCharRulesOut(name: string, suffix: string)
    requires |name| > 0 && |suffix| > 0 && name[|name| - 1] != suffix[|suffix| - 1]
    ensures !HasSuffix(name, suffix)
  {
  }
}
