/**
 * The abstract file tree the storage code works on and the zip archive it
 * moves that tree into and out of. A tree maps every path that exists to a
 * directory or to a regular file's contents; an archive is the sequence of
 * (relative name, contents) entries that `ZipArchive::addFile` collects and
 * `ZipArchive::extractTo` writes back. The byte-level zip format is not part
 * of the model: a file whose contents are an archive holds `Zip(entries)`.
 */
module Archives {
  import opened Paths

  newtype byte = x: int | 0 <= x < 256

  /** Contents of a regular file or of a stored resource. */
  datatype Blob = Data(bytes: seq<byte>) | Zip(entries: seq<Entry>)

  /** One archive member: the name it is stored under and its contents. */
  datatype Entry = Entry(name: Path, blob: Blob)

  datatype Node = Dir | File(blob: Blob)

  type Tree = map<Path, Node>

  predicate IsDir(t: Tree, p: Path)
  {
    p in t && t[p].Dir?
  }

  predicate IsFile(t: Tree, p: Path)
  {
    p in t && t[p].File?
  }

  /** The directory listing of `dir` without "." and "..": some direct entry exists. */
  predicate HasEntries(t: Tree, dir: Path)
  {
    exists c :: c in t && Child(dir, c)
  }

  /** `Files::isEmptyDirectory` */
  predicate IsEmptyDir(t: Tree, dir: Path)
  {
    IsDir(t, dir) && !HasEntries(t, dir)
  }

  /** Every regular file of the tree, by path. */
  function Files(t: Tree): map<Path, Blob>
  {
    map p | p in t && t[p].File? :: t[p].blob
  }

  /** The regular files anywhere below `dir`, by full path. */
  function FilesUnder(t: Tree, dir: Path): map<Path, Blob>
  {
    map p | p in t && t[p].File? && Under(dir, p) :: t[p].blob
  }

  /** The part of the tree whose paths are in `s`. */
  function Restrict(t: Tree, s: set<Path>): Tree
  {
    map p | p in t && p in s :: t[p]
  }

  // ---------------------------------------------------------------- archives

  predicate HasName(es: seq<Entry>, n: Path)
  {
    exists i :: 0 <= i < |es| && es[i].name == n
  }

  predicate DistinctNames(es: seq<Entry>)
  {
    forall i, j :: 0 <= i < j < |es| ==> es[i].name != es[j].name
  }

  /** Every entry with name `n` now holds `b`; the others and the order stay. */
  function ReplaceNamed(es: seq<Entry>, n: Path, b: Blob): seq<Entry>
  {
    seq(|es|, i requires 0 <= i < |es| => if es[i].name == n then Entry(n, b) else es[i])
  }

  /**
   * `ZipArchive::addFile($file, $n)` on an archive holding `es`: an entry
   * that already has the name is replaced in place, otherwise a new entry is
   * appended.
   */
  function AddFile(es: seq<Entry>, n: Path, b: Blob): seq<Entry>
  {
    if HasName(es, n) then ReplaceNamed(es, n, b) else es + [Entry(n, b)]
  }

  /**
   * The files an archive unpacks to below `dir`, by full path; when two
   * entries share a name the later one wins, as it does on extraction.
   */
  function Restored(dir: Path, es: seq<Entry>): map<Path, Blob>
  {
    if es == [] then map[]
    else Restored(dir, es[..|es| - 1])[Join(dir, es[|es| - 1].name) := es[|es| - 1].blob]
  }

  lemma {:induction false} RestoredKeys(dir: Path, es: seq<Entry>)
    ensures forall p :: p in Restored(dir, es) <==> exists i :: 0 <= i < |es| && p == Join(dir, es[i].name)
  {
    if es != [] {
      var pre := es[..|es| - 1];
      RestoredKeys(dir, pre);
      forall p | p in Restored(dir, es)
        ensures exists i :: 0 <= i < |es| && p == Join(dir, es[i].name)
      {
        if p != Join(dir, es[|es| - 1].name) {
          assert p in Restored(dir, pre);
          var i :| 0 <= i < |pre| && p == Join(dir, pre[i].name);
          assert es[i] == pre[i];
        }
      }
      forall i | 0 <= i < |es| ensures Join(dir, es[i].name) in Restored(dir, es) {
        if i < |pre| {
          assert es[i] == pre[i];
        }
      }
    }
  }

  /** With distinct names, each entry is found under its own path with its own contents. */
  lemma {:induction false} RestoredAt(dir: Path, es: seq<Entry>, i: int)
    requires DistinctNames(es)
    requires 0 <= i < |es|
    ensures Join(dir, es[i].name) in Restored(dir, es)
    ensures Restored(dir, es)[Join(dir, es[i].name)] == es[i].blob
  {
    var pre := es[..|es| - 1];
    if i < |es| - 1 {
      assert pre[i] == es[i];
      RestoredAt(dir, pre, i);
      if Join(dir, es[i].name) == Join(dir, es[|es| - 1].name) {
        JoinInjective(dir, es[i].name, es[|es| - 1].name);
      }
    }
  }

  /** Distinct names give one restored file per entry. */
  lemma {:induction false} RestoredSize(dir: Path, es: seq<Entry>)
    requires DistinctNames(es)
    ensures |Restored(dir, es)| == |es|
  {
    if es != [] {
      var pre := es[..|es| - 1];
      var last := es[|es| - 1];
      RestoredSize(dir, pre);
      RestoredKeys(dir, pre);
      if Join(dir, last.name) in Restored(dir, pre) {
        var i :| 0 <= i < |pre| && Join(dir, last.name) == Join(dir, pre[i].name);
        JoinInjective(dir, last.name, pre[i].name);
        assert false;
      }
    }
  }

  lemma {:induction false} ReplaceNamedRestored(dir: Path, es: seq<Entry>, n: Path, b: Blob)
    ensures Restored(dir, ReplaceNamed(es, n, b))
         == if HasName(es, n) then Restored(dir, es)[Join(dir, n) := b] else Restored(dir, es)
  {
    if es != [] {
      var pre := es[..|es| - 1];
      var last := es[|es| - 1];
      var r := ReplaceNamed(es, n, b);
      assert r[..|r| - 1] == ReplaceNamed(pre, n, b);
      ReplaceNamedRestored(dir, pre, n, b);
      assert HasName(es, n) <==> HasName(pre, n) || last.name == n by {
        if HasName(es, n) && last.name != n {
          var i :| 0 <= i < |es| && es[i].name == n;
          assert pre[i] == es[i];
        }
        if HasName(pre, n) {
          var i :| 0 <= i < |pre| && pre[i].name == n;
          assert es[i] == pre[i];
        }
      }
      if last.name != n && HasName(pre, n) {
        assert Join(dir, last.name) != Join(dir, n) by {
          if Join(dir, last.name) == Join(dir, n) {
            JoinInjective(dir, last.name, n);
          }
        }
      }
    }
  }

  /** Adding a file makes its name restore to its contents and changes nothing else. */
  lemma AddFileRestored(dir: Path, es: seq<Entry>, n: Path, b: Blob)
    ensures Restored(dir, AddFile(es, n, b)) == Restored(dir, es)[Join(dir, n) := b]
  {
    if HasName(es, n) {
      ReplaceNamedRestored(dir, es, n, b);
    } else {
      var r := es + [Entry(n, b)];
      assert r[..|r| - 1] == es;
    }
  }

  lemma AddFileDistinct(es: seq<Entry>, n: Path, b: Blob)
    requires DistinctNames(es)
    ensures DistinctNames(AddFile(es, n, b))
  {
  }

  // ---------------------------------------------------------------- packing

  /**
   * `es` is what packing the files below `dir` into an archive that started
   * out as `base` leaves: each file under its relative name, over `base`.
   */
  predicate PackOf(t: Tree, dir: Path, base: seq<Entry>, es: seq<Entry>)
  {
    Restored(dir, es) == Restored(dir, base) + FilesUnder(t, dir)
  }

  /**
   * A fresh pack holds exactly one entry per regular file below `dir`: every
   * entry names such a file by its relative name and carries its contents,
   * and every such file has its entry.
   */
  lemma PackEntryPerFile(t: Tree, dir: Path, es: seq<Entry>)
    requires DistinctNames(es)
    requires PackOf(t, dir, [], es)
    ensures |es| == |FilesUnder(t, dir)|
    ensures forall i :: 0 <= i < |es| ==>
              es[i].name != [] && IsFile(t, Join(dir, es[i].name)) && t[Join(dir, es[i].name)].blob == es[i].blob
    ensures forall p :: IsFile(t, p) && Under(dir, p) ==>
              exists i :: 0 <= i < |es| && es[i] == Entry(RelativePath(dir, p), t[p].blob)
  {
    assert Restored(dir, es) == FilesUnder(t, dir);
    RestoredSize(dir, es);
    RestoredKeys(dir, es);
    forall i | 0 <= i < |es|
      ensures es[i].name != [] && IsFile(t, Join(dir, es[i].name)) && t[Join(dir, es[i].name)].blob == es[i].blob
    {
      RestoredAt(dir, es, i);
      RelativePathOfJoin(dir, es[i].name);
    }
    forall p | IsFile(t, p) && Under(dir, p)
      ensures exists i :: 0 <= i < |es| && es[i] == Entry(RelativePath(dir, p), t[p].blob)
    {
      assert p in Restored(dir, es);
      var i :| 0 <= i < |es| && p == Join(dir, es[i].name);
      RelativePathOfJoin(dir, es[i].name);
      RestoredAt(dir, es, i);
    }
  }

  // ---------------------------------------------------------------- extraction

  /** The directories `extractTo($dest)` creates: `dest` and the parents of every entry. */
  function ExtractDirs(dest: Path, es: seq<Entry>): set<Path>
  {
    {dest} + set e, i | e in es && 0 < i < |e.name| && e.name[i] == Separator :: Join(dest, e.name[..i])
  }

  /**
   * The tree after `ZipArchive::extractTo($dest)`: every entry written to
   * `dest/<name>` (entry names are not checked or normalised), with the
   * directories it needs.
   */
  function Extracted(t: Tree, dest: Path, es: seq<Entry>): Tree
  {
    var files := Restored(dest, es);
    t + (map d | d in ExtractDirs(dest, es) :: Dir) + (map p | p in files :: File(files[p]))
  }

  /** Writing directories and then files below `dest` over a tree with no file there leaves exactly those files. */
  lemma OverlayFilesUnder(t: Tree, dest: Path, dirs: set<Path>, files: map<Path, Blob>)
    requires FilesUnder(t, dest) == map[]
    requires forall p :: p in files ==> Under(dest, p)
    ensures FilesUnder(t + (map d | d in dirs :: Dir) + (map p | p in files :: File(files[p])), dest) == files
  {
    var x := t + (map d | d in dirs :: Dir) + (map p | p in files :: File(files[p]));
    var y := FilesUnder(x, dest);
    assert forall p :: p in y ==> p in files;
    assert forall p :: p in files ==> p in y && y[p] == files[p];
  }

  /** Extracting into a directory that holds no files leaves exactly the archive's files there. */
  lemma ExtractedFilesUnder(t: Tree, dest: Path, es: seq<Entry>)
    requires FilesUnder(t, dest) == map[]
    requires forall i :: 0 <= i < |es| ==> es[i].name != []
    ensures FilesUnder(Extracted(t, dest, es), dest) == Restored(dest, es)
  {
    var files := Restored(dest, es);
    RestoredKeys(dest, es);
    forall p | p in files
      ensures Under(dest, p)
    {
      var i :| 0 <= i < |es| && p == Join(dest, es[i].name);
      RelativePathOfJoin(dest, es[i].name);
    }
    OverlayFilesUnder(t, dest, ExtractDirs(dest, es), files);
  }

  /** The destination of an extraction is a directory afterwards. */
  lemma ExtractedKeepsDest(t: Tree, dest: Path, es: seq<Entry>)
    ensures IsDir(Extracted(t, dest, es), dest)
  {
    RestoredKeys(dest, es);
    assert dest !in Restored(dest, es);
    assert dest in ExtractDirs(dest, es);
  }

  // ---------------------------------------------------------------- directories

  /** `Files::createDirectoryRecursively` succeeds unless the path or an ancestor is a file. */
  predicate CanMakeDirs(t: Tree, p: Path)
  {
    forall a :: a in AncestorsOrSelf(p) ==> !IsFile(t, a)
  }

  /** The tree after `mkdir($p, 0777, true)`: the missing ancestors and `p` become directories. */
  function MakeDirs(t: Tree, p: Path): Tree
  {
    t + map a | a in AncestorsOrSelf(p) && a !in t :: Dir
  }

  /** Creating directories touches no file, and leaves `p` a directory when it succeeds. */
  lemma MakeDirsKeepsFiles(t: Tree, p: Path)
    ensures Files(MakeDirs(t, p)) == Files(t)
    ensures forall d :: FilesUnder(MakeDirs(t, p), d) == FilesUnder(t, d)
    ensures CanMakeDirs(t, p) ==> forall a :: a in AncestorsOrSelf(p) ==> IsDir(MakeDirs(t, p), a)
  {
    var m := MakeDirs(t, p);
    forall d ensures FilesUnder(m, d) == FilesUnder(t, d) {
      assert forall q :: q in FilesUnder(m, d) ==> q in t;
    }
    assert forall q :: q in Files(m) ==> q in t;
  }

  /**
   * `Files::removeEmptyDirectoriesOnPath($p)`: walks from `p` up through its
   * ancestors. A missing path is skipped, an empty directory is removed, and
   * the walk ends at the first path that exists and is not an empty
   * directory, or after the top-level ancestor.
   */
  function Pruned(t: Tree, p: Path): Tree
    decreases |p|
  {
    if |p| == 0 || (p in t && !IsEmptyDir(t, p)) then t
    else
      var q := Parent(p);
      if q == p then t - {p} else Pruned(t - {p}, q)
  }

  /** The walk ends at a regular file, whose listing throws. */
  predicate PruneThrows(t: Tree, p: Path)
    decreases |p|
  {
    if |p| == 0 then false
    else if p in t && !IsEmptyDir(t, p) then t[p].File?
    else
      var q := Parent(p);
      q != p && PruneThrows(t - {p}, q)
  }

  /** Pruning removes nothing but directories on the path: `p` and its ancestors. */
  lemma {:induction false} PrunedRemovesOnlyPathDirs(t: Tree, p: Path)
    ensures forall q :: q in Pruned(t, p) ==> q in t && Pruned(t, p)[q] == t[q]
    ensures forall q :: q in t && q !in Pruned(t, p) ==> q in AncestorsOrSelf(p) && t[q].Dir?
    ensures Files(Pruned(t, p)) == Files(t)
    decreases |p|
  {
    if !(|p| == 0 || (p in t && !IsEmptyDir(t, p))) {
      var q := Parent(p);
      if q != p {
        PrunedRemovesOnlyPathDirs(t - {p}, q);
      }
    }
    var r := Pruned(t, p);
    assert forall q :: q in Files(t) ==> q in r;
  }

  /**
   * After pruning, a non-empty path is still a directory exactly when it was
   * one with at least one entry, and then nothing was removed and nothing
   * throws.
   */
  lemma PrunedKeepsNonEmpty(t: Tree, p: Path)
    ensures |p| > 0 ==> (IsDir(Pruned(t, p), p) <==> IsDir(t, p) && HasEntries(t, p))
    ensures IsDir(t, p) && HasEntries(t, p) ==> Pruned(t, p) == t && !PruneThrows(t, p)
  {
    if !(|p| == 0 || (p in t && !IsEmptyDir(t, p))) {
      var q := Parent(p);
      if q != p {
        PrunedRemovesOnlyPathDirs(t - {p}, q);
      }
    }
  }

  /**
   * A missing working directory does not stop the walk: its empty parent is
   * removed. A regular file on the path makes it throw.
   */
  lemma PruneSkipsMissingPath(blob: Blob)
    ensures Pruned(map["/tmp" := Dir], "/tmp/7") == map[]
    ensures !PruneThrows(map["/tmp" := Dir], "/tmp/7")
    ensures PruneThrows(map["/tmp" := File(blob)], "/tmp/7")
  {
    assert LastSeparator("/tmp/7") == 4;
    assert Parent("/tmp/7") == "/tmp";
    assert LastSeparator("/") == 0;
    assert "/t"[..1] == "/" && LastSeparator("/t") == 0;
    assert "/tm"[..2] == "/t" && LastSeparator("/tm") == 0;
    assert "/tmp"[..3] == "/tm" && LastSeparator("/tmp") == 0;
    assert Parent("/tmp") == "/tmp";
    assert !HasEntries(map["/tmp" := Dir], "/tmp");
  }

  /** `Files::removeDirectoryRecursively($p)`: `p` and everything below it are gone. */
  function RemoveTree(t: Tree, p: Path): Tree
  {
    map q | q in t && q != p && !Under(p, q) :: t[q]
  }

  // ---------------------------------------------------------------- round trip

  /**
   * Pack, then unpack: an archive packed from the files below `dir`,
   * extracted into a `dir` that holds no files, gives back the same files
   * under the same paths with the same contents.
   */
  lemma PackThenExtract(before: Tree, dir: Path, es: seq<Entry>, target: Tree)
    requires PackOf(before, dir, [], es)
    requires FilesUnder(target, dir) == map[]
    ensures FilesUnder(Extracted(target, dir, es), dir) == FilesUnder(before, dir)
  {
    RestoredKeys(dir, es);
    forall i | 0 <= i < |es| ensures es[i].name != [] {
      assert Join(dir, es[i].name) in FilesUnder(before, dir);
      RelativePathOfJoin(dir, es[i].name);
    }
    ExtractedFilesUnder(target, dir, es);
  }
}
