/**
 * The H5P content entity and the life cycle of its files: during a request
 * the stored archive is dumped into a working directory
 * `<H5P_TEMP_DIR>/<contentId>`, H5P changes files there, and at the end the
 * directory is packed into `<H5P_TEMP_DIR>/<contentId>.zip`, imported as the
 * new stored resource and cleaned up. The metadata operations are the
 * field updates H5P triggers when it saves a content.
 */
module ContentModel {
  import opened Paths
  import opened Archives
  import opened Storage

  /** The library a content uses, as far as this model needs it. */
  datatype Library = Library(libraryId: int, machineName: string, majorVersion: int, minorVersion: int, fullscreen: bool)

  datatype Account = Account(identifier: string)

  /** A `DateTime`, as the clock hands it in. */
  type Instant = int

  /** The metadata array H5P passes; `None` is a key that is missing or null (what `isset` rejects). */
  datatype Metadata = Metadata(title: Option<string>, params: Option<string>, disable: Option<int>)

  /** `toAssocArray()`: the array `H5PCore::filterParameters` expects. */
  datatype ContentArray = ContentArray(
    id: int, title: string, library: Library, slug: string, disable: int,
    embedType: string, params: string, filtered: string)

  /** Every persistent field of a content except its zipped content file. */
  datatype Record = Record(
    contentId: int, library: Library, account: Account, createdAt: Instant, updatedAt: Instant,
    title: string, parameters: string, filtered: string, slug: string, embedType: string, disable: int,
    contentType: Option<string>, author: Option<string>, license: Option<string>,
    keywords: Option<string>, description: Option<string>, exportFile: Option<Handle>)

  function AssocArray(r: Record): ContentArray
  {
    ContentArray(r.contentId, r.title, r.library, r.slug, r.disable, r.embedType, r.parameters, r.filtered)
  }

  // ---------------------------------------------------------------- metadata

  /**
   * `createFromMetadata`: the record it builds, or `None` where a setter
   * receives null for a missing key and throws a TypeError. The id is the
   * one the database assigns; `embedType` is what `H5PCore::determineEmbedType`
   * yields for the library.
   */
  function FromMetadata(id: int, md: Metadata, library: Library, account: Account, now: Instant, embedType: string): (r: Option<Record>)
    ensures r.Some? <==> md.title.Some? && md.params.Some? && md.disable.Some?
    ensures r.Some? ==> r.value.slug == "" && r.value.filtered == "" && r.value.createdAt == now && r.value.updatedAt == now
  {
    if md.title.Some? && md.params.Some? && md.disable.Some? then
      Some(Record(id, library, account, now, now, md.title.value, md.params.value, "", "", embedType, md.disable.value,
                  None, None, None, None, None, None))
    else None
  }

  /**
   * `updateFromMetadata`: the update time is set first; a missing title then
   * throws, leaving only that change; otherwise title and library are set,
   * the filtered parameters are reset, and parameters and disable flags are
   * overwritten only when present.
   */
  function UpdatedRecord(r: Record, md: Metadata, library: Library, now: Instant): Record
  {
    var stamped := r.(updatedAt := now);
    if md.title.None? then stamped
    else stamped.(
      title := md.title.value,
      filtered := "",
      library := library,
      parameters := if md.params.Some? then md.params.value else r.parameters,
      disable := if md.disable.Some? then md.disable.value else r.disable)
  }

  /** The update sets exactly title, library, filtered text and update time, plus parameters and disable flags where given. */
  lemma UpdateFromMetadataEffect(r: Record, md: Metadata, library: Library, now: Instant)
    requires md.title.Some?
    ensures var u := UpdatedRecord(r, md, library, now);
      && u.title == md.title.value && u.library == library && u.filtered == "" && u.updatedAt == now
      && (md.params.Some? ==> u.parameters == md.params.value)
      && (md.params.None? ==> u.parameters == r.parameters)
      && (md.disable.Some? ==> u.disable == md.disable.value)
      && (md.disable.None? ==> u.disable == r.disable)
      && u.(title := r.title, library := r.library, filtered := r.filtered, updatedAt := r.updatedAt,
            parameters := r.parameters, disable := r.disable) == r
  {
  }

  /** With the title missing only the update time moves. */
  lemma UpdateWithoutTitleOnlyStamps(r: Record, md: Metadata, library: Library, now: Instant)
    requires md.title.None?
    ensures UpdatedRecord(r, md, library, now) == r.(updatedAt := now)
  {
  }

  /** Applying the same metadata twice is the same as applying it once. */
  lemma UpdateIdempotent(r: Record, md: Metadata, library: Library, now: Instant)
    ensures UpdatedRecord(UpdatedRecord(r, md, library, now), md, library, now) == UpdatedRecord(r, md, library, now)
  {
  }

  /** Updating a freshly created content with the metadata it was created from, at the same time, changes nothing. */
  lemma CreateThenUpdateAgrees(id: int, md: Metadata, library: Library, account: Account, now: Instant, embedType: string)
    requires FromMetadata(id, md, library, account, now, embedType).Some?
    ensures var r := FromMetadata(id, md, library, account, now, embedType).value;
      UpdatedRecord(r, md, library, now) == r
  {
  }

  /** The array handed to the parameter filter carries the metadata the content was created from. */
  lemma CreatedAssocArray(id: int, md: Metadata, library: Library, account: Account, now: Instant, embedType: string)
    requires FromMetadata(id, md, library, account, now, embedType).Some?
    ensures AssocArray(FromMetadata(id, md, library, account, now, embedType).value)
            == ContentArray(id, md.title.value, library, "", md.disable.value, embedType, md.params.value, "")
  {
  }

  // ---------------------------------------------------------------- paths

  /** `buildContentFileTempPath()`: the working directory, a direct child of the temporary directory named by the id. */
  function WorkDir(tempDir: Path, contentId: int): (r: Path)
    ensures Child(tempDir, r)
    ensures RelativePath(tempDir, r) == IntToString(contentId)
  {
    RelativePathOfJoin(tempDir, IntToString(contentId));
    Join(tempDir, IntToString(contentId))
  }

  /** The staging archive `<H5P_TEMP_DIR>/<contentId>.zip` of the repack. */
  function StagingZip(tempDir: Path, contentId: int): (r: Path)
    ensures Child(tempDir, r)
    ensures RelativePath(tempDir, r) == IntToString(contentId) + ".zip"
  {
    RelativePathOfJoin(tempDir, IntToString(contentId) + ".zip");
    Join(tempDir, IntToString(contentId) + ".zip")
  }

  /** Different contents never share a working directory. */
  lemma WorkDirInjective(tempDir: Path, a: int, b: int)
    requires WorkDir(tempDir, a) == WorkDir(tempDir, b)
    ensures a == b
  {
    IntToStringInjective(a, b);
  }

  /**
   * No content's staging archive is any content's working directory or lies
   * inside one, so packing a working directory never picks up an archive.
   */
  lemma StagingOutsideWorkDirs(tempDir: Path, a: int, b: int)
    ensures StagingZip(tempDir, a) != WorkDir(tempDir, b)
    ensures !Under(WorkDir(tempDir, b), StagingZip(tempDir, a))
  {
    var z := StagingZip(tempDir, a);
    var w := WorkDir(tempDir, b);
    var zn := IntToString(a) + ".zip";
    assert zn[|zn| - 4] == '.' && '.' !in IntToString(b);
    assert zn != IntToString(b);
    if |z| > |w| + 1 {
      assert z[|tempDir| + 1..] == zn;
      assert z[|w|] == zn[|w| - |tempDir| - 1];
    }
  }

  // ---------------------------------------------------------------- dump

  /**
   * The tree after `dumpContentFileToTemporaryDirectory` when it does its
   * work: the working directory is created (the call throws where that is
   * impossible), and the stored archive, if there is one, is extracted into
   * it. A handle with no stored data (the copy throws) or data that is no
   * archive (`open` fails) extracts nothing.
   */
  function Dumped(t: Tree, w: Path, zipped: Option<Handle>, stored: map<Handle, Blob>): Tree
  {
    if !MkdirSucceeds(t, w) then t
    else
      var made := AfterMkdir(t, w);
      if zipped.Some? && zipped.value in stored && stored[zipped.value].Zip? then
        Extracted(made, w, stored[zipped.value].entries)
      else made
  }

  /** A dump always leaves the working directory in place, whether or not there is an archive to extract. */
  lemma DumpCreatesWorkDir(t: Tree, tempDir: Path, contentId: int, zipped: Option<Handle>, stored: map<Handle, Blob>)
    requires MkdirSucceeds(t, WorkDir(tempDir, contentId))
    ensures IsDir(Dumped(t, WorkDir(tempDir, contentId), zipped, stored), WorkDir(tempDir, contentId))
  {
    var w := WorkDir(tempDir, contentId);
    assert IsDir(AfterMkdir(t, w), w) by {
      MakeDirsKeepsFiles(t, w);
      assert w in AncestorsOrSelf(w);
    }
    if zipped.Some? && zipped.value in stored && stored[zipped.value].Zip? {
      ExtractedKeepsDest(AfterMkdir(t, w), w, stored[zipped.value].entries);
    }
  }

  /** Without a zipped content file the dump writes no file. */
  lemma DumpWithoutContentFileWritesNothing(t: Tree, w: Path, stored: map<Handle, Blob>)
    ensures Files(Dumped(t, w, None, stored)) == Files(t)
  {
    MakeDirsKeepsFiles(t, w);
  }

  // ---------------------------------------------------------------- repack

  /**
   * How the repack decides that the working directory holds nothing: as
   * written it lists the directory's top level only; `FilesBelow` counts the
   * files anywhere below it.
   */
  datatype EmptinessTest = TopLevelListing | FilesBelow

  predicate NothingToPack(test: EmptinessTest, t: Tree, w: Path)
  {
    !IsDir(t, w) ||
    match test
    case TopLevelListing => !HasEntries(t, w)
    case FilesBelow => FilesUnder(t, w) == map[]
  }

  function Without(stored: map<Handle, Blob>, zipped: Option<Handle>): map<Handle, Blob>
  {
    if zipped.Some? then stored - {zipped.value} else stored
  }

  /**
   * The whole effect of `createZippedContentFileFromTemporaryDirectory` on
   * the tree, the resource store and the content's handle, from `t0`,
   * `stored0`, `next0`, `zipped0` to `t`, `stored`, `next`, `zipped`;
   * `packed` is the archive the loop built. Empty directories on the
   * working directory's path are removed first; where that walk reaches a
   * regular file it throws, and nothing else happens. With nothing to pack, the old resource
   * is deleted and the handle cleared. Otherwise the files are packed into
   * the staging archive, the old resource is deleted, and the archive is
   * imported. The import throws when no archive file was written (no entry,
   * or the staging path is a directory); the handle then keeps its old,
   * deleted value and nothing is cleaned up. After a successful import the
   * handle is the new resource and the staging archive and working
   * directory are removed.
   */
  ghost predicate Repacked(
    test: EmptinessTest, w: Path, z: Path,
    t0: Tree, stored0: map<Handle, Blob>, next0: Handle, zipped0: Option<Handle>,
    t: Tree, stored: map<Handle, Blob>, next: Handle, zipped: Option<Handle>, packed: seq<Entry>)
  {
    var t1 := Pruned(t0, w);
    if PruneThrows(t0, w) then
      t == t1 && stored == stored0 && next == next0 && zipped == zipped0 && packed == []
    else if NothingToPack(test, t1, w) then
      t == t1 && stored == Without(stored0, zipped0) && next == next0 && zipped == None && packed == []
    else
      PackedAndImported(w, z, t1, stored0, next0, zipped0, t, stored, next, zipped, packed)
  }

  /** The repack past the emptiness test, from the pruned tree `t1` on. */
  ghost predicate PackedAndImported(
    w: Path, z: Path,
    t1: Tree, stored0: map<Handle, Blob>, next0: Handle, zipped0: Option<Handle>,
    t: Tree, stored: map<Handle, Blob>, next: Handle, zipped: Option<Handle>, packed: seq<Entry>)
  {
    var openOk := CanOpen(t1, z, true);
    var t2 := if openOk then Closed(t1, z, packed) else t1;
    (if openOk then PackOf(t1, w, [], packed) && DistinctNames(packed) else packed == [])
    && if openOk && packed != [] then
         stored == Without(stored0, zipped0)[next0 := Zip(packed)] && next == next0 + 1
         && zipped == Some(next0) && t == RemoveTree(t2 - {z}, w)
       else
         stored == Without(stored0, zipped0) && next == next0 && zipped == zipped0 && t == t2
  }

  /** With nothing to pack the previous resource is deleted, the handle cleared and nothing imported. */
  lemma RepackOfEmptyClearsHandle(
    test: EmptinessTest, w: Path, z: Path,
    t0: Tree, stored0: map<Handle, Blob>, next0: Handle, zipped0: Option<Handle>,
    t: Tree, stored: map<Handle, Blob>, next: Handle, zipped: Option<Handle>, packed: seq<Entry>)
    requires Repacked(test, w, z, t0, stored0, next0, zipped0, t, stored, next, zipped, packed)
    requires !PruneThrows(t0, w) && NothingToPack(test, Pruned(t0, w), w)
    ensures zipped == None && next == next0
    ensures zipped0.Some? ==> zipped0.value !in stored
    ensures forall h :: h in stored <==> h in stored0 && Some(h) != zipped0
    ensures Files(t) == Files(t0)
  {
    PrunedRemovesOnlyPathDirs(t0, w);
  }

  /**
   * Where removing the empty directories throws on a regular file, the
   * repack stops: the store and the handle are untouched and no file has
   * changed, though empty directories met before the file are gone.
   */
  lemma RepackThatThrowsKeepsResource(
    test: EmptinessTest, w: Path, z: Path,
    t0: Tree, stored0: map<Handle, Blob>, next0: Handle, zipped0: Option<Handle>,
    t: Tree, stored: map<Handle, Blob>, next: Handle, zipped: Option<Handle>, packed: seq<Entry>)
    requires Repacked(test, w, z, t0, stored0, next0, zipped0, t, stored, next, zipped, packed)
    requires PruneThrows(t0, w)
    ensures zipped == zipped0 && stored == stored0 && next == next0
    ensures Files(t) == Files(t0)
    ensures forall q :: q in t0 && q !in t ==> q in AncestorsOrSelf(w) && t0[q].Dir?
  {
    PrunedRemovesOnlyPathDirs(t0, w);
  }

  /**
   * A repack of a working directory with something in it builds an archive
   * with exactly one entry per file below it, named by its path relative to
   * the directory and holding its contents.
   */
  lemma RepackPacksEveryFile(
    test: EmptinessTest, w: Path, z: Path,
    t0: Tree, stored0: map<Handle, Blob>, next0: Handle, zipped0: Option<Handle>,
    t: Tree, stored: map<Handle, Blob>, next: Handle, zipped: Option<Handle>, packed: seq<Entry>)
    requires Repacked(test, w, z, t0, stored0, next0, zipped0, t, stored, next, zipped, packed)
    requires !NothingToPack(test, Pruned(t0, w), w) && CanOpen(Pruned(t0, w), z, true)
    ensures |packed| == |FilesUnder(t0, w)|
    ensures forall i :: 0 <= i < |packed| ==>
              IsFile(t0, Join(w, packed[i].name)) && t0[Join(w, packed[i].name)].blob == packed[i].blob
    ensures forall p :: IsFile(t0, p) && Under(w, p) ==>
              exists i :: 0 <= i < |packed| && packed[i] == Entry(RelativePath(w, p), t0[p].blob)
  {
    var t1 := Pruned(t0, w);
    PrunedRemovesOnlyPathDirs(t0, w);
    PrunedKeepsNonEmpty(t0, w);
    assert t1 == t0;
    PackEntryPerFile(t1, w, packed);
  }

  /**
   * A repack that imports its archive deletes the previous resource, stores
   * the archive under the new handle the content now holds, and removes the
   * staging archive and the working directory.
   */
  lemma RepackReplacesResource(
    test: EmptinessTest, w: Path, z: Path,
    t0: Tree, stored0: map<Handle, Blob>, next0: Handle, zipped0: Option<Handle>,
    t: Tree, stored: map<Handle, Blob>, next: Handle, zipped: Option<Handle>, packed: seq<Entry>)
    requires Repacked(test, w, z, t0, stored0, next0, zipped0, t, stored, next, zipped, packed)
    requires next != next0
    ensures zipped == Some(next0) && stored[next0] == Zip(packed) && packed != []
    ensures zipped0.Some? && zipped0.value != next0 ==> zipped0.value !in stored
    ensures z !in t && w !in t && FilesUnder(t, w) == map[]
  {
  }

  /**
   * Round trip: after a repack that imported its archive, the next
   * request's dump writes back exactly the files the working directory held
   * before the repack, under the same paths with the same contents.
   */
  lemma RepackThenDumpRestoresFiles(
    test: EmptinessTest, w: Path, z: Path,
    t0: Tree, stored0: map<Handle, Blob>, next0: Handle, zipped0: Option<Handle>,
    t: Tree, stored: map<Handle, Blob>, next: Handle, zipped: Option<Handle>, packed: seq<Entry>)
    requires Repacked(test, w, z, t0, stored0, next0, zipped0, t, stored, next, zipped, packed)
    requires next != next0
    requires MkdirSucceeds(t, w)
    ensures FilesUnder(Dumped(t, w, zipped, stored), w) == FilesUnder(t0, w)
  {
    var t1 := Pruned(t0, w);
    assert zipped == Some(next0) && stored[next0] == Zip(packed) && PackOf(t1, w, [], packed);
    assert FilesUnder(t, w) == map[];
    PrunedRemovesOnlyPathDirs(t0, w);
    DumpOfPack(t0, t1, t, w, next0, stored, packed);
  }

  lemma DumpOfPack(t0: Tree, t1: Tree, t: Tree, w: Path, h: Handle, stored: map<Handle, Blob>, packed: seq<Entry>)
    requires Files(t1) == Files(t0)
    requires forall q :: q in t1 ==> q in t0 && t1[q] == t0[q]
    requires PackOf(t1, w, [], packed)
    requires h in stored && stored[h] == Zip(packed)
    requires FilesUnder(t, w) == map[]
    requires MkdirSucceeds(t, w)
    ensures FilesUnder(Dumped(t, w, Some(h), stored), w) == FilesUnder(t0, w)
  {
    assert FilesUnder(t1, w) == FilesUnder(t0, w) by {
      assert forall p :: p in FilesUnder(t0, w) ==> p in Files(t1);
    }
    MakeDirsKeepsFiles(t, w);
    PackThenExtract(t1, w, packed, AfterMkdir(t, w));
  }

  /** The content's handle refers to stored data, or there is none. */
  predicate HandleLive(zipped: Option<Handle>, stored: map<Handle, Blob>)
  {
    zipped.None? || zipped.value in stored
  }

  /**
   * With the files-below test, a repack whose staging path is not a
   * directory never turns a handle to stored data into one pointing at
   * deleted data.
   */
  lemma CorrectedRepackKeepsHandleLive(
    w: Path, z: Path,
    t0: Tree, stored0: map<Handle, Blob>, next0: Handle, zipped0: Option<Handle>,
    t: Tree, stored: map<Handle, Blob>, next: Handle, zipped: Option<Handle>, packed: seq<Entry>)
    requires Repacked(FilesBelow, w, z, t0, stored0, next0, zipped0, t, stored, next, zipped, packed)
    requires !IsDir(t0, z) && HandleLive(zipped0, stored0)
    ensures HandleLive(zipped, stored)
  {
    var t1 := Pruned(t0, w);
    if !PruneThrows(t0, w) && !NothingToPack(FilesBelow, t1, w) {
      PrunedRemovesOnlyPathDirs(t0, w);
      PackingFilesKeepsHandleLive(w, z, t1, stored0, next0, zipped0, t, stored, next, zipped, packed);
    }
  }

  /** Past the emptiness test, with a file to pack and an openable staging path, the import happens. */
  lemma PackingFilesKeepsHandleLive(
    w: Path, z: Path,
    t1: Tree, stored0: map<Handle, Blob>, next0: Handle, zipped0: Option<Handle>,
    t: Tree, stored: map<Handle, Blob>, next: Handle, zipped: Option<Handle>, packed: seq<Entry>)
    requires PackedAndImported(w, z, t1, stored0, next0, zipped0, t, stored, next, zipped, packed)
    requires FilesUnder(t1, w) != map[] && !IsDir(t1, z)
    ensures zipped == Some(next0) && next0 in stored
  {
    assert CanOpen(t1, z, true);
    var p :| p in FilesUnder(t1, w);
    assert Restored(w, packed) == FilesUnder(t1, w);
    if packed == [] {
      assert false;
    }
  }

  /** A working directory of content 1 under `/tmp` holding one empty subdirectory and no file. */
  function EmptySubdirectoryTree(): Tree
  {
    map["/tmp" := Dir, "/tmp/1" := Dir, "/tmp/1/images" := Dir]
  }

  /** In that tree the working directory survives pruning, has an entry, and holds no file. */
  lemma EmptySubdirectoryTreeShape()
    ensures WorkDir("/tmp", 1) == "/tmp/1" && StagingZip("/tmp", 1) == "/tmp/1.zip"
    ensures Pruned(EmptySubdirectoryTree(), "/tmp/1") == EmptySubdirectoryTree()
    ensures !NothingToPack(TopLevelListing, EmptySubdirectoryTree(), "/tmp/1")
    ensures CanOpen(EmptySubdirectoryTree(), "/tmp/1.zip", true)
    ensures FilesUnder(EmptySubdirectoryTree(), "/tmp/1") == map[]
  {
    var t0 := EmptySubdirectoryTree();
    assert IntToString(1) == "1";
    assert Child("/tmp/1", "/tmp/1/images");
    assert HasEntries(t0, "/tmp/1");
  }

  /**
   * As written, that working directory passes the top-level emptiness test,
   * so the stored resource is deleted, an archive without entries is never
   * written, the import throws, and the content keeps a handle to data that
   * no longer exists.
   */
  lemma EmptySubdirectoryLeavesDanglingHandle(
    t: Tree, stored: map<Handle, Blob>, next: Handle, zipped: Option<Handle>, packed: seq<Entry>)
    requires Repacked(TopLevelListing, WorkDir("/tmp", 1), StagingZip("/tmp", 1),
                      EmptySubdirectoryTree(), map[0 := Zip([Entry("images/a.png", Data([1]))])], 1, Some(0),
                      t, stored, next, zipped, packed)
    ensures zipped == Some(0) && 0 !in stored
    ensures !HandleLive(zipped, stored)
  {
    var w := "/tmp/1";
    EmptySubdirectoryTreeShape();
    RestoredSize(w, packed);
  }

  // ---------------------------------------------------------------- the entity

  class Content {
    var contentId: int
    var library: Library
    var account: Account
    var createdAt: Instant
    var updatedAt: Instant
    var title: string
    var parameters: string
    var filtered: string
    var slug: string
    var embedType: string
    var disable: int
    var contentType: Option<string>
    var author: Option<string>
    var license: Option<string>
    var keywords: Option<string>
    var description: Option<string>
    var zippedContentFile: Option<Handle>
    var exportFile: Option<Handle>
    /** Whether this request has already dumped the content file; never persisted. */
    var hasDumpedContentFile: bool

    function AsRecord(): Record
      reads this
    {
      Record(contentId, library, account, createdAt, updatedAt, title, parameters, filtered, slug, embedType, disable,
             contentType, author, license, keywords, description, exportFile)
    }

    constructor (r: Record)
      ensures AsRecord() == r && zippedContentFile == None && !hasDumpedContentFile
    {
      contentId, library, account, createdAt, updatedAt := r.contentId, r.library, r.account, r.createdAt, r.updatedAt;
      title, parameters, filtered, slug, embedType, disable := r.title, r.parameters, r.filtered, r.slug, r.embedType, r.disable;
      contentType, author, license, keywords, description := r.contentType, r.author, r.license, r.keywords, r.description;
      exportFile := r.exportFile;
      zippedContentFile := None;
      hasDumpedContentFile := false;
    }

    /** `toAssocArray()` */
    function ToAssocArray(): (a: ContentArray)
      reads this
      ensures a.id == contentId && a.title == title && a.library == library && a.slug == slug
      ensures a.disable == disable && a.embedType == embedType && a.params == parameters && a.filtered == filtered
    {
      AssocArray(AsRecord())
    }

    /** `updateFromMetadata`; `ok` is false where the missing title makes it throw. */
    method UpdateFromMetadata(md: Metadata, lib: Library, now: Instant) returns (ok: bool)
      modifies this`updatedAt, this`title, this`filtered, this`library, this`parameters, this`disable
      ensures ok == md.title.Some?
      ensures AsRecord() == UpdatedRecord(old(AsRecord()), md, lib, now)
    {
      updatedAt := now;
      if md.title.None? {
        return false;
      }
      SetFromMetadata(md, lib);
      ok := true;
    }

    /** The setters `updateFromMetadata` calls once the title is known to be there. */
    method SetFromMetadata(md: Metadata, lib: Library)
      requires md.title.Some?
      modifies this`title, this`filtered, this`library, this`parameters, this`disable
      ensures title == md.title.value && filtered == "" && library == lib
      ensures parameters == if md.params.Some? then md.params.value else old(parameters)
      ensures disable == if md.disable.Some? then md.disable.value else old(disable)
    {
      title := md.title.value;
      filtered := "";
      library := lib;
      if md.params.Some? {
        parameters := md.params.value;
      }
      if md.disable.Some? {
        disable := md.disable.value;
      }
    }

    /**
     * `dumpContentFileToTemporaryDirectory`: at most once per request. The
     * flag is set before any work, so it stays set even where there is no
     * archive or the work throws.
     */
    method DumpContentFileToTemporaryDirectory(fs: FileSystem, rm: ResourceManager, tempDir: Path)
      modifies this`hasDumpedContentFile, fs
      ensures hasDumpedContentFile
      ensures old(hasDumpedContentFile) ==> fs.tree == old(fs.tree)
      ensures !old(hasDumpedContentFile) ==>
                fs.tree == Dumped(old(fs.tree), WorkDir(tempDir, contentId), zippedContentFile, rm.resources)
    {
      if hasDumpedContentFile {
        return;
      }
      hasDumpedContentFile := true;
      var w := WorkDir(tempDir, contentId);
      var made := fs.CreateDirectoryRecursively(w);
      if !made {
        return;
      }
      if zippedContentFile.None? {
        return;
      }
      var copy := rm.TemporaryLocalCopy(zippedContentFile.value);
      if copy.None? || !copy.value.Zip? {
        return;
      }
      fs.ExtractTo(w, copy.value.entries);
    }

    /** `createZippedContentFileFromTemporaryDirectory`, as written: the top-level listing decides emptiness. */
    method CreateZippedContentFileFromTemporaryDirectory(fs: FileSystem, rm: ResourceManager, tempDir: Path)
      returns (ghost packed: seq<Entry>)
      requires rm.Valid()
      modifies this`zippedContentFile, fs, rm
      ensures rm.Valid()
      ensures Repacked(TopLevelListing, WorkDir(tempDir, contentId), StagingZip(tempDir, contentId),
                       old(fs.tree), old(rm.resources), old(rm.nextHandle), old(zippedContentFile),
                       fs.tree, rm.resources, rm.nextHandle, zippedContentFile, packed)
    {
      packed := Repack(fs, rm, tempDir, TopLevelListing);
    }

    /**
     * The repack with the emptiness test the comments describe: a working
     * directory without any file below it counts as empty.
     */
    method CreateZippedContentFileCorrected(fs: FileSystem, rm: ResourceManager, tempDir: Path)
      returns (ghost packed: seq<Entry>)
      requires rm.Valid()
      modifies this`zippedContentFile, fs, rm
      ensures rm.Valid()
      ensures Repacked(FilesBelow, WorkDir(tempDir, contentId), StagingZip(tempDir, contentId),
                       old(fs.tree), old(rm.resources), old(rm.nextHandle), old(zippedContentFile),
                       fs.tree, rm.resources, rm.nextHandle, zippedContentFile, packed)
      ensures !IsDir(old(fs.tree), StagingZip(tempDir, contentId)) && HandleLive(old(zippedContentFile), old(rm.resources))
              ==> HandleLive(zippedContentFile, rm.resources)
    {
      packed := Repack(fs, rm, tempDir, FilesBelow);
      if !IsDir(old(fs.tree), StagingZip(tempDir, contentId)) && HandleLive(old(zippedContentFile), old(rm.resources)) {
        CorrectedRepackKeepsHandleLive(WorkDir(tempDir, contentId), StagingZip(tempDir, contentId),
                                       old(fs.tree), old(rm.resources), old(rm.nextHandle), old(zippedContentFile),
                                       fs.tree, rm.resources, rm.nextHandle, zippedContentFile, packed);
      }
    }

    /** The repack steps shared by both emptiness tests. */
    method Repack(fs: FileSystem, rm: ResourceManager, tempDir: Path, test: EmptinessTest)
      returns (ghost packed: seq<Entry>)
      requires rm.Valid()
      modifies this`zippedContentFile, fs, rm
      ensures rm.Valid()
      ensures Repacked(test, WorkDir(tempDir, contentId), StagingZip(tempDir, contentId),
                       old(fs.tree), old(rm.resources), old(rm.nextHandle), old(zippedContentFile),
                       fs.tree, rm.resources, rm.nextHandle, zippedContentFile, packed)
    {
      var w := WorkDir(tempDir, contentId);
      var walked := fs.RemoveEmptyDirectoriesOnPath(w);
      if !walked {
        packed := [];
        return;
      }
      var empty := NothingToPack(test, fs.tree, w);
      if empty {
        if zippedContentFile.Some? {
          rm.DeleteResource(zippedContentFile.value);
        }
        zippedContentFile := None;
        packed := [];
        return;
      }
      var z := StagingZip(tempDir, contentId);
      StagingOutsideWorkDirs(tempDir, contentId, contentId);
      packed := PackAndImport(fs, rm, w, z);
    }

    /**
     * Pack the files below `w` into a truncated archive at `z`, delete the
     * previous resource, import the archive, and on success take its handle
     * and remove the archive and `w`.
     */
    method PackAndImport(fs: FileSystem, rm: ResourceManager, w: Path, z: Path)
      returns (ghost packed: seq<Entry>)
      requires rm.Valid() && IsDir(fs.tree, w) && z != w
      modifies this`zippedContentFile, fs, rm
      ensures rm.Valid()
      ensures PackedAndImported(w, z, old(fs.tree), old(rm.resources), old(rm.nextHandle), old(zippedContentFile),
                                fs.tree, rm.resources, rm.nextHandle, zippedContentFile, packed)
    {
      var zip := new ZipArchive();
      var openOk := zip.Open(fs, z, true);
      AddDirectoryFiles(fs, zip, w);
      packed := zip.entries;
      var _ := zip.Close(fs);
      if zippedContentFile.Some? {
        rm.DeleteResource(zippedContentFile.value);
      }
      var imported := rm.ImportResource(fs, z);
      if imported.None? {
        return;
      }
      zippedContentFile := imported;
      var _ := fs.Unlink(z);
      fs.RemoveDirectoryRecursively(w);
    }
  }

  /**
   * `createFromMetadata`: a new content with the given fields, or null
   * where a required key is missing and a setter throws.
   */
  method CreateFromMetadata(id: int, md: Metadata, library: Library, account: Account, now: Instant, embedType: string)
    returns (c: Content?)
    ensures c != null <==> FromMetadata(id, md, library, account, now, embedType).Some?
    ensures c != null ==> fresh(c) && c.AsRecord() == FromMetadata(id, md, library, account, now, embedType).value
                          && c.zippedContentFile == None && !c.hasDumpedContentFile
  {
    var r := FromMetadata(id, md, library, account, now, embedType);
    if r.None? {
      return null;
    }
    c := new Content(r.value);
  }
}
