/**
 * The parts of the H5P file storage adapter that do something: packing an
 * uploaded library directory into `<dir>.zip` and attaching the imported
 * archive to its library record, handing out temporary paths, and the
 * cached-asset cleanup that has nothing left to do.
 */
module H5PFileAdapter {
  import opened Paths
  import opened Archives
  import opened Storage

  /** The library records, by `libraryId`, each with its zipped library file. */
  class LibraryRepository {
    var zippedLibraryFiles: map<int, Option<Handle>>

    constructor (records: map<int, Option<Handle>>)
      ensures zippedLibraryFiles == records
    {
      zippedLibraryFiles := records;
    }

    /** `findOneByLibraryId`, then `setZippedLibraryFile` and `update`; false where no record matches. */
    method AttachZippedLibraryFile(libraryId: int, h: Handle) returns (found: bool)
      modifies this
      ensures found == (libraryId in old(zippedLibraryFiles))
      ensures zippedLibraryFiles == if found then old(zippedLibraryFiles)[libraryId := Some(h)] else old(zippedLibraryFiles)
    {
      found := libraryId in zippedLibraryFiles;
      if found {
        zippedLibraryFiles := zippedLibraryFiles[libraryId := Some(h)];
      }
    }
  }

  /** The `$libraryData` keys `saveLibrary` reads. */
  datatype LibraryData = LibraryData(uploadDirectory: Path, libraryId: int)

  /** `<dir>.zip`, next to the directory and never inside it. */
  function ZipFileName(dir: Path): (r: Path)
    ensures |r| == |dir| + 4 && r[..|dir|] == dir && r[|dir|..] == ".zip"
    ensures r != dir && !Under(dir, r)
  {
    dir + ".zip"
  }

  /**
   * `zipDirectory`: opens `<dir>.zip` without OVERWRITE (so an archive
   * already there is extended), adds every file below `dir` under its
   * relative name, skipping directories, and closes it. Listing a path that
   * is not a directory throws, modelled as `None`; nothing has been written
   * by then.
   */
  method ZipDirectory(fs: FileSystem, dir: Path) returns (r: Option<Path>, ghost packed: seq<Entry>)
    modifies fs
    ensures r.Some? <==> IsDir(old(fs.tree), dir)
    ensures r.Some? ==> r.value == ZipFileName(dir)
    ensures r.None? ==> fs.tree == old(fs.tree)
    ensures r.Some? && CanOpen(old(fs.tree), ZipFileName(dir), false) ==>
              PackOf(old(fs.tree), dir, OpenedEntries(old(fs.tree), ZipFileName(dir), false), packed)
              && (DistinctNames(OpenedEntries(old(fs.tree), ZipFileName(dir), false)) ==> DistinctNames(packed))
              && fs.tree == Closed(old(fs.tree), ZipFileName(dir), packed)
    ensures r.Some? && !CanOpen(old(fs.tree), ZipFileName(dir), false) ==> fs.tree == old(fs.tree)
  {
    var name := ZipFileName(dir);
    var zip := new ZipArchive();
    var _ := zip.Open(fs, name, false);
    if !IsDir(fs.tree, dir) {
      return None, [];
    }
    AddDirectoryFiles(fs, zip, dir);
    packed := zip.entries;
    var _ := zip.Close(fs);
    r := Some(name);
  }

  /**
   * Packing a directory that holds at least one file into a fresh archive
   * yields a non-empty archive with one entry per file, so `close` writes it.
   */
  lemma FreshPackOfFilesIsNonEmpty(t: Tree, dir: Path, packed: seq<Entry>)
    requires PackOf(t, dir, [], packed)
    requires DistinctNames(packed)
    requires FilesUnder(t, dir) != map[]
    ensures packed != [] && |packed| == |FilesUnder(t, dir)|
    ensures IsFile(Closed(t, ZipFileName(dir), packed), ZipFileName(dir))
  {
    PackEntryPerFile(t, dir, packed);
    var p :| p in FilesUnder(t, dir);
    assert |FilesUnder(t, dir)| > 0;
  }

  /**
   * `saveLibrary`: zip the upload directory, import the archive, and set it
   * as the zipped library file of the record with the given `libraryId`.
   * Nothing is deleted: not the archive on disk and not any earlier library
   * resource. Where no record matches, the import has already happened and
   * the call throws; `ok` is false wherever it throws.
   */
  method SaveLibrary(fs: FileSystem, rm: ResourceManager, repo: LibraryRepository, data: LibraryData)
    returns (ok: bool, ghost packed: seq<Entry>)
    requires rm.Valid()
    modifies fs, rm, repo
    ensures rm.Valid()
    ensures IsDir(old(fs.tree), data.uploadDirectory) ==>
              var zipped := if CanOpen(old(fs.tree), ZipFileName(data.uploadDirectory), false)
                            then Closed(old(fs.tree), ZipFileName(data.uploadDirectory), packed)
                            else old(fs.tree);
              fs.tree == zipped
              && (CanOpen(old(fs.tree), ZipFileName(data.uploadDirectory), false) ==>
                    PackOf(old(fs.tree), data.uploadDirectory,
                           OpenedEntries(old(fs.tree), ZipFileName(data.uploadDirectory), false), packed))
              && if IsFile(zipped, ZipFileName(data.uploadDirectory)) then
                   rm.resources == old(rm.resources)[old(rm.nextHandle) := zipped[ZipFileName(data.uploadDirectory)].blob]
                   && rm.nextHandle == old(rm.nextHandle) + 1
                   && ok == (data.libraryId in old(repo.zippedLibraryFiles))
                   && repo.zippedLibraryFiles ==
                        if ok then old(repo.zippedLibraryFiles)[data.libraryId := Some(old(rm.nextHandle))]
                        else old(repo.zippedLibraryFiles)
                 else
                   !ok && rm.resources == old(rm.resources) && rm.nextHandle == old(rm.nextHandle)
                   && repo.zippedLibraryFiles == old(repo.zippedLibraryFiles)
    ensures !IsDir(old(fs.tree), data.uploadDirectory) ==>
              !ok && fs.tree == old(fs.tree) && rm.resources == old(rm.resources)
              && rm.nextHandle == old(rm.nextHandle) && repo.zippedLibraryFiles == old(repo.zippedLibraryFiles)
    ensures forall h :: h in old(rm.resources) ==> h in rm.resources && rm.resources[h] == old(rm.resources)[h]
  {
    var zipName;
    zipName, packed := ZipDirectory(fs, data.uploadDirectory);
    if zipName.None? {
      return false, packed;
    }
    var resource := rm.ImportResource(fs, zipName.value);
    if resource.None? {
      return false, packed;
    }
    ok := repo.AttachZippedLibraryFile(data.libraryId, resource.value);
  }

  /** `FLOW_PATH_DATA . 'Temporary/H5P'`; the data path ends with a separator. */
  function TmpDir(dataPath: Path): Path
  {
    dataPath + "Temporary/H5P"
  }

  /**
   * The path `getTmpPath` returns for the identifier `unique` that
   * `uniqid` generates: inside the temporary directory, named `h5p-` and
   * the identifier, one level down as long as the identifier has no
   * separator.
   */
  function TmpPath(dataPath: Path, unique: string): (r: Path)
    ensures Under(TmpDir(dataPath), r)
    ensures RelativePath(TmpDir(dataPath), r) == "h5p-" + unique
    ensures Separator !in unique ==> Child(TmpDir(dataPath), r)
  {
    RelativePathOfJoin(TmpDir(dataPath), "h5p-" + unique);
    assert Separator !in "h5p-";
    Join(TmpDir(dataPath), "h5p-" + unique)
  }

  /** `getTmpPath`: makes sure the temporary directory exists; `None` where creating it throws. */
  method GetTmpPath(fs: FileSystem, dataPath: Path, unique: string) returns (r: Option<Path>)
    modifies fs
    ensures r.Some? <==> MkdirSucceeds(old(fs.tree), TmpDir(dataPath))
    ensures fs.tree == AfterMkdir(old(fs.tree), TmpDir(dataPath))
    ensures r.Some? ==> r.value == TmpPath(dataPath, unique) && IsDir(fs.tree, TmpDir(dataPath))
  {
    var dir := TmpDir(dataPath);
    var made := fs.CreateDirectoryRecursively(dir);
    if !made {
      return None;
    }
    r := Some(TmpPath(dataPath, unique));
  }

  /**
   * `deleteCachedAssets`: the stored assets go with their database rows by
   * cascade, so there is nothing to do; the empty frame says it changes
   * nothing.
   */
  method DeleteCachedAssets(keys: seq<string>)
  {
  }
}
