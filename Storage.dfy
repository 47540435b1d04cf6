/**
 * The stateful collaborators the storage code drives: the local file system
 * (as the Neos `Files` utility and PHP's file functions change it), the
 * persistent resource store (Flow's `ResourceManager`) and a `ZipArchive`
 * being written. Each is a class whose methods say exactly how its state
 * changes, in terms of the functions of module Archives. The directory packer
 * both `Content` and `FileAdapter` run is `AddDirectoryFiles` at the end.
 */
module Storage {
  import opened Paths
  import opened Archives

  /** A persistent resource, as the store identifies it. */
  type Handle = nat

  /** `Files::createDirectoryRecursively` ends without an exception. */
  predicate MkdirSucceeds(t: Tree, p: Path)
  {
    |p| == 0 || IsDir(t, p) || CanMakeDirs(t, p)
  }

  /** The tree after `Files::createDirectoryRecursively($p)`; it only acts when `p` is not a directory yet. */
  function AfterMkdir(t: Tree, p: Path): Tree
  {
    if |p| > 0 && !IsDir(t, p) && CanMakeDirs(t, p) then MakeDirs(t, p) else t
  }

  class FileSystem {
    var tree: Tree

    constructor (t: Tree)
      ensures tree == t
    {
      tree := t;
    }

    /** `Files::createDirectoryRecursively`; `ok` is false where it would throw. */
    method CreateDirectoryRecursively(p: Path) returns (ok: bool)
      modifies this
      ensures ok == MkdirSucceeds(old(tree), p)
      ensures tree == AfterMkdir(old(tree), p)
      ensures ok ==> |p| == 0 || IsDir(tree, p)
    {
      ok := |p| == 0 || IsDir(tree, p) || CanMakeDirs(tree, p);
      if |p| > 0 && !IsDir(tree, p) && CanMakeDirs(tree, p) {
        MakeDirsKeepsFiles(tree, p);
        tree := MakeDirs(tree, p);
      }
    }

    /**
     * `Files::removeEmptyDirectoriesOnPath`; `ok` is false where the walk
     * reaches a regular file and listing it throws.
     */
    method RemoveEmptyDirectoriesOnPath(path: Path) returns (ok: bool)
      modifies this
      ensures ok == !PruneThrows(old(tree), path)
      ensures tree == Pruned(old(tree), path)
    {
      var p := path;
      while |p| > 0 && !(p in tree && !IsEmptyDir(tree, p))
        invariant Pruned(tree, p) == Pruned(old(tree), path)
        invariant PruneThrows(tree, p) == PruneThrows(old(tree), path)
        decreases |p|
      {
        tree := tree - {p};
        var q := Parent(p);
        p := if q == p then [] else q;
      }
      ok := !(|p| > 0 && IsFile(tree, p));
    }

    /** `Files::removeDirectoryRecursively`, which throws unless `p` is a directory. */
    method RemoveDirectoryRecursively(p: Path)
      requires IsDir(tree, p)
      modifies this
      ensures tree == RemoveTree(old(tree), p)
    {
      tree := RemoveTree(tree, p);
    }

    /** `unlink($p)`: removes a regular file, and reports false for anything else. */
    method Unlink(p: Path) returns (ok: bool)
      modifies this
      ensures ok == IsFile(old(tree), p)
      ensures tree == if ok then old(tree) - {p} else old(tree)
    {
      ok := IsFile(tree, p);
      if ok {
        tree := tree - {p};
      }
    }

    /** `ZipArchive::extractTo($dest)` of an archive holding `es`. */
    method ExtractTo(dest: Path, es: seq<Entry>)
      modifies this
      ensures tree == Extracted(old(tree), dest, es)
    {
      tree := Extracted(tree, dest, es);
    }
  }

  /** Flow's resource manager: stored blobs by handle; imports get a handle never used before. */
  class ResourceManager {
    var resources: map<Handle, Blob>
    var nextHandle: Handle

    ghost predicate Valid()
      reads this
    {
      forall h :: h in resources ==> h < nextHandle
    }

    constructor (stored: map<Handle, Blob>, next: Handle)
      requires forall h :: h in stored ==> h < next
      ensures Valid() && resources == stored && nextHandle == next
    {
      resources := stored;
      nextHandle := next;
    }

    /**
     * `importResource($path)`: stores the file's contents under a new handle;
     * for a path that is not a regular file it throws, modelled as `None`.
     */
    method ImportResource(fs: FileSystem, path: Path) returns (r: Option<Handle>)
      requires Valid()
      modifies this
      ensures Valid()
      ensures IsFile(fs.tree, path) ==>
                r == Some(old(nextHandle)) && old(nextHandle) !in old(resources)
                && resources == old(resources)[old(nextHandle) := fs.tree[path].blob]
                && nextHandle == old(nextHandle) + 1
      ensures !IsFile(fs.tree, path) ==> r == None && resources == old(resources) && nextHandle == old(nextHandle)
    {
      if IsFile(fs.tree, path) {
        r := Some(nextHandle);
        resources := resources[nextHandle := fs.tree[path].blob];
        nextHandle := nextHandle + 1;
      } else {
        r := None;
      }
    }

    /** `deleteResource($h)`: the stored data is gone at once. */
    method DeleteResource(h: Handle)
      requires Valid()
      modifies this
      ensures Valid()
      ensures resources == old(resources) - {h} && nextHandle == old(nextHandle)
    {
      resources := resources - {h};
    }

    /** `$resource->createTemporaryLocalCopy()`, as a lookup; `None` where it throws. */
    function TemporaryLocalCopy(h: Handle): Option<Blob>
      reads this
    {
      if h in resources then Some(resources[h]) else None
    }
  }

  datatype Option<T> = None | Some(value: T)

  /**
   * `ZipArchive::open($p, $flags)` succeeds: the path is not a directory, and
   * without OVERWRITE an existing file there has to be an archive already.
   */
  predicate CanOpen(t: Tree, p: Path, overwrite: bool)
  {
    !IsDir(t, p) && (overwrite || !IsFile(t, p) || t[p].blob.Zip?)
  }

  /** What a freshly opened archive holds: the existing one unless OVERWRITE truncates it. */
  function OpenedEntries(t: Tree, p: Path, overwrite: bool): seq<Entry>
  {
    if !overwrite && IsFile(t, p) && t[p].blob.Zip? then t[p].blob.entries else []
  }

  /**
   * The tree after `ZipArchive::close()` of an open archive at `p`: libzip
   * writes no file for an archive without entries (and removes one it
   * truncated).
   */
  function Closed(t: Tree, p: Path, es: seq<Entry>): Tree
  {
    if es == [] then t - {p} else t[p := File(Zip(es))]
  }

  /** PHP's `ZipArchive` while it is being written. */
  class ZipArchive {
    var path: Path
    var isOpen: bool
    var entries: seq<Entry>

    constructor ()
      ensures !isOpen && entries == []
    {
      path, isOpen, entries := [], false, [];
    }

    method Open(fs: FileSystem, p: Path, overwrite: bool) returns (ok: bool)
      modifies this
      ensures ok == isOpen == CanOpen(fs.tree, p, overwrite)
      ensures path == p
      ensures entries == if ok then OpenedEntries(fs.tree, p, overwrite) else []
    {
      path := p;
      isOpen := CanOpen(fs.tree, p, overwrite);
      entries := if isOpen then OpenedEntries(fs.tree, p, overwrite) else [];
      ok := isOpen;
    }

    /** `addFile($filePath, $name)`: false, and no change, unless open and `filePath` is a file. */
    method AddFile(fs: FileSystem, filePath: Path, name: Path) returns (ok: bool)
      modifies this
      ensures ok == (old(isOpen) && IsFile(fs.tree, filePath))
      ensures entries == if ok then Archives.AddFile(old(entries), name, fs.tree[filePath].blob) else old(entries)
      ensures isOpen == old(isOpen) && path == old(path)
    {
      ok := isOpen && IsFile(fs.tree, filePath);
      if ok {
        entries := Archives.AddFile(entries, name, fs.tree[filePath].blob);
      }
    }

    method Close(fs: FileSystem) returns (ok: bool)
      modifies this, fs
      ensures ok == old(isOpen) && !isOpen
      ensures path == old(path) && entries == old(entries)
      ensures fs.tree == if ok then Closed(old(fs.tree), path, entries) else old(fs.tree)
    {
      ok := isOpen;
      if isOpen {
        fs.tree := Closed(fs.tree, path, entries);
      }
      isOpen := false;
    }
  }

  /** Adding one more listed path to what has been walked adds at most that file. */
  lemma WalkSkip(t: Tree, dir: Path, done: set<Path>, p: Path)
    requires p in t && t[p].Dir?
    ensures FilesUnder(Restrict(t, done + {p}), dir) == FilesUnder(Restrict(t, done), dir)
  {
  }

  /** Adding the file `p` under its relative name extends the restored map by exactly that file. */
  lemma WalkAdd(t: Tree, dir: Path, base: seq<Entry>, es: seq<Entry>, done: set<Path>, p: Path)
    requires p in t && t[p].File? && Under(dir, p)
    requires Restored(dir, es) == Restored(dir, base) + FilesUnder(Restrict(t, done), dir)
    ensures Restored(dir, Archives.AddFile(es, RelativePath(dir, p), t[p].blob))
            == Restored(dir, base) + FilesUnder(Restrict(t, done + {p}), dir)
  {
    JoinOfRelativePath(dir, p);
    AddFileRestored(dir, es, RelativePath(dir, p), t[p].blob);
    WalkFile(t, dir, done, p);
    OverlayUpdate(Restored(dir, base), FilesUnder(Restrict(t, done), dir), p, t[p].blob);
  }

  lemma WalkFile(t: Tree, dir: Path, done: set<Path>, p: Path)
    requires p in t && t[p].File? && Under(dir, p)
    ensures FilesUnder(Restrict(t, done + {p}), dir) == FilesUnder(Restrict(t, done), dir)[p := t[p].blob]
  {
    var x := FilesUnder(Restrict(t, done + {p}), dir);
    var y := FilesUnder(Restrict(t, done), dir)[p := t[p].blob];
    assert forall q :: q in x <==> q in y;
    forall q | q in x
      ensures x[q] == y[q]
    {
    }
  }

  lemma OverlayUpdate<K, V>(a: map<K, V>, b: map<K, V>, k: K, v: V)
    ensures a + b[k := v] == (a + b)[k := v]
  {
  }

  /**
   * What the packing loop keeps once it has walked the paths in `done`: an
   * archive that failed to open still holds `base`; an open one holds
   * `base` overlaid with the walked files, with names as distinct as
   * `base`'s.
   */
  ghost predicate PackedSoFar(t: Tree, dir: Path, base: seq<Entry>, isOpen: bool, es: seq<Entry>, done: set<Path>)
  {
    (!isOpen ==> es == base)
    && (isOpen ==> Restored(dir, es) == Restored(dir, base) + FilesUnder(Restrict(t, done), dir))
    && (DistinctNames(base) ==> DistinctNames(es))
  }

  /**
   * One step of the packing loop: a directory is skipped, a file is added
   * under its path relative to `dir`. What has been packed then covers the
   * walked paths and `p`.
   */
  method AddListedPath(fs: FileSystem, zip: ZipArchive, dir: Path, p: Path, ghost base: seq<Entry>, ghost done: set<Path>)
    requires p in fs.tree && Under(dir, p)
    requires PackedSoFar(fs.tree, dir, base, zip.isOpen, zip.entries, done)
    modifies zip
    ensures zip.isOpen == old(zip.isOpen) && zip.path == old(zip.path)
    ensures PackedSoFar(fs.tree, dir, base, zip.isOpen, zip.entries, done + {p})
  {
    if fs.tree[p].Dir? {
      WalkSkip(fs.tree, dir, done, p);
    } else {
      var name := RelativePath(dir, p);
      if zip.isOpen {
        WalkAdd(fs.tree, dir, base, zip.entries, done, p);
      }
      if DistinctNames(zip.entries) {
        AddFileDistinct(zip.entries, name, fs.tree[p].blob);
      }
      var _ := zip.AddFile(fs, p, name);
    }
  }

  /**
   * The packing loop of `createZippedContentFileFromTemporaryDirectory` and
   * of `zipDirectory`: walk everything below `dir` in whatever order the
   * directory iterator yields it, skip directories, and add each file under
   * `substr($filePath, strlen($dir) + 1)`. The archive ends up holding its
   * earlier entries overlaid with every file below `dir` under its relative
   * name, and entry names stay distinct. On an archive that failed to open
   * every `addFile` fails and nothing changes.
   */
  method AddDirectoryFiles(fs: FileSystem, zip: ZipArchive, dir: Path)
    modifies zip
    ensures zip.isOpen == old(zip.isOpen) && zip.path == old(zip.path)
    ensures old(zip.isOpen) ==> PackOf(fs.tree, dir, old(zip.entries), zip.entries)
    ensures !old(zip.isOpen) ==> zip.entries == old(zip.entries)
    ensures DistinctNames(old(zip.entries)) ==> DistinctNames(zip.entries)
  {
    ghost var base := zip.entries;
    var tree := fs.tree;
    var listing := set p | p in tree && Under(dir, p);
    var todo := listing;
    ghost var done: set<Path> := {};
    WalkStart(fs.tree, dir, base, zip.isOpen);
    while todo != {}
      invariant done == listing - todo && todo <= listing
      invariant zip.isOpen == old(zip.isOpen) && zip.path == old(zip.path)
      invariant PackedSoFar(fs.tree, dir, base, zip.isOpen, zip.entries, done)
      decreases |todo|
    {
      var p :| p in todo;
      AddListedPath(fs, zip, dir, p, base, done);
      todo := todo - {p};
      done := done + {p};
    }
    assert done == listing && fs.tree == tree;
    WalkComplete(tree, dir, base, zip.isOpen, zip.entries, listing);
  }

  lemma WalkStart(t: Tree, dir: Path, base: seq<Entry>, isOpen: bool)
    ensures PackedSoFar(t, dir, base, isOpen, base, {})
  {
    assert Restrict(t, {}) == map[];
    assert FilesUnder(map[], dir) == map[];
  }

  /** Once every path below `dir` has been walked, the archive is a pack of all the files below `dir`. */
  lemma WalkComplete(t: Tree, dir: Path, base: seq<Entry>, isOpen: bool, es: seq<Entry>, listing: set<Path>)
    requires listing == set p | p in t && Under(dir, p)
    requires PackedSoFar(t, dir, base, isOpen, es, listing)
    ensures isOpen ==> PackOf(t, dir, base, es)
  {
    var a := FilesUnder(Restrict(t, listing), dir);
    var b := FilesUnder(t, dir);
    assert forall p :: p in a <==> p in b;
    assert a == b;
  }
}
