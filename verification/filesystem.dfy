/** The image file manager of utils/fileSystem.ts: one managed directory of photo files,
    with an overwriting save and a prefix-guarded, idempotent delete.
    The device filesystem is a value: a map from path to file bytes and a set of directories. */
module FileSystem {
  import opened Wrappers
  import opened Strings

  /** The bytes of a file; never inspected. */
  type Content = seq<bv8>

  datatype Disk = Disk(files: map<string, Content>, dirs: set<string>)

  /** The two storage roots expo-file-system reports; either may be missing. */
  datatype Platform = Platform(documentDirectory: Option<string>, cacheDirectory: Option<string>)

  /** Why a copy rejects: no file at the source, or no directory to put the destination in. */
  datatype FsError = SourceMissing(path: string) | NoParentDirectory(path: string)

  /** What `saveImage` leaves behind: the disk after every step that ran, and the saved path or the rejection. */
  datatype SaveOutcome = SaveOutcome(disk: Disk, result: Result<string, FsError>)

  /** What `deleteImage` leaves behind: the disk, and the path handed to `deleteAsync`, if any. */
  datatype DeleteOutcome = DeleteOutcome(disk: Disk, issued: Option<string>)

  /** `IMAGES_DIR`: the document directory, or else the cache directory, followed by `images/`.
      A missing cache directory is concatenated as the text of JavaScript's null. */
  function ImagesDir(p: Platform): (d: string)
    ensures |d| >= 7 && d[|d| - 7..] == "images/"
    ensures d[|d| - 1] == '/'
    ensures Truthy(p.documentDirectory) ==> IsPrefix(p.documentDirectory.value, d)
  {
    var root :=
      if Truthy(p.documentDirectory) then p.documentDirectory.value
      else if p.cacheDirectory.Some? then p.cacheDirectory.value
      else "null";
    PrefixOfConcat(root, "images/");
    root + "images/"
  }

  /** `getInfoAsync(path).exists`: a file or a directory is there. */
  predicate Exists(disk: Disk, path: string)
  {
    path in disk.files || path in disk.dirs
  }

  /** A directory path as the prefix of what lies under it: the path with a `/` appended unless it
      already ends in one. */
  function UnderDir(dir: string): (r: string)
    ensures |r| > 0 && r[|r| - 1] == '/'
    ensures IsPrefix(dir, r) && |r| <= |dir| + 1
  {
    if dir != "" && dir[|dir| - 1] == '/' then dir else dir + "/"
  }

  /** Whether `path` disappears when `target` is deleted: it is `target`, or `target` is a
      directory and `path` lies under it. */
  predicate Doomed(disk: Disk, target: string, path: string)
  {
    path == target || (target in disk.dirs && IsPrefix(UnderDir(target), path))
  }

  /** The directory a path lies in: everything up to and including its last `/`, or "" when it
      has none. */
  function Parent(path: string): (r: string)
    ensures IsPrefix(r, path)
    ensures r == "" || r[|r| - 1] == '/'
    ensures '/' !in path[|r|..]
  {
    if |path| == 0 then ""
    else if path[|path| - 1] == '/' then path
    else
      var r := Parent(path[..|path| - 1]);
      assert path[|r|..] == path[..|path| - 1][|r|..] + [path[|path| - 1]];
      r
  }

  /** A name without `/` joined to a directory path lies directly in that directory. */
  lemma {:induction false} ParentOfJoin(dir: string, name: string)
    requires dir != "" && dir[|dir| - 1] == '/' && '/' !in name
    ensures Parent(dir + name) == dir
    decreases |name|
  {
    if |name| == 0 {
      assert dir + name == dir;
    } else {
      var init := name[..|name| - 1];
      assert (dir + name)[..|dir + name| - 1] == dir + init;
      assert '/' !in init by {
        forall i | 0 <= i < |init| ensures init[i] != '/' { assert init[i] == name[i]; }
      }
      ParentOfJoin(dir, init);
    }
  }

  /** `deleteAsync(path, { idempotent: true })`: removes a file, or a directory with everything
      under it; an absent path is not an error. */
  function DeletePath(disk: Disk, path: string): (r: Disk)
    ensures !Exists(r, path)
    ensures forall k :: k in r.files <==> k in disk.files && !Doomed(disk, path, k)
    ensures forall k :: k in r.files ==> r.files[k] == disk.files[k]
    ensures forall d :: d in r.dirs <==> d in disk.dirs && !Doomed(disk, path, d)
    ensures path !in disk.dirs ==> r == Disk(disk.files - {path}, disk.dirs)
  {
    Disk(map k | k in disk.files && !Doomed(disk, path, k) :: disk.files[k],
         set d | d in disk.dirs && !Doomed(disk, path, d))
  }

  /** `ensureDirExists`: creates `dir` when nothing is at that path; leaves files alone. */
  function EnsureDirExists(disk: Disk, dir: string): (r: Disk)
    ensures Exists(r, dir)
    ensures r.files == disk.files
    ensures r.dirs - {dir} == disk.dirs - {dir}
    ensures Exists(disk, dir) ==> r == disk
  {
    if Exists(disk, dir) then disk else disk.(dirs := disk.dirs + {dir})
  }

  /** `copyAsync({ from, to })`: rejects when there is no file at `from`, or when the directory
      `to` would lie in does not exist. */
  function CopyFile(disk: Disk, from: string, to: string): (r: Result<Disk, FsError>)
    ensures r.Failure? <==> from !in disk.files || Parent(to) !in disk.dirs
    ensures r.Success? ==> r.value == disk.(files := disk.files[to := disk.files[from]])
  {
    if from !in disk.files then Failure(SourceMissing(from))
    else if Parent(to) !in disk.dirs then Failure(NoParentDirectory(to))
    else Success(disk.(files := disk.files[to := disk.files[from]]))
  }

  /** The path `saveImage` writes to and returns: `IMAGES_DIR + filename`. */
  function Dest(p: Platform, filename: string): (r: string)
    ensures IsPrefix(ImagesDir(p), r) && r[|ImagesDir(p)|..] == filename
    ensures '/' !in filename ==> Parent(r) == ImagesDir(p)
    ensures filename != "" ==> r != ImagesDir(p)
  {
    assert '/' !in filename ==> Parent(ImagesDir(p) + filename) == ImagesDir(p) by {
      if '/' !in filename { ParentOfJoin(ImagesDir(p), filename); }
    }
    ImagesDir(p) + filename
  }

  /** The first steps of `saveImage`: make sure the managed directory exists, then delete whatever
      is at the destination. */
  function PrepareDest(p: Platform, disk: Disk, filename: string): (r: Disk)
    ensures !Exists(r, Dest(p, filename))
    ensures forall k :: k in r.files ==> k in disk.files && r.files[k] == disk.files[k]
    ensures r.dirs - {ImagesDir(p)} <= disk.dirs
    ensures filename != "" ==> Exists(r, ImagesDir(p))
    ensures filename != "" && Dest(p, filename) !in disk.dirs ==>
      r == Disk(disk.files - {Dest(p, filename)},
                if Exists(disk, ImagesDir(p)) then disk.dirs else disk.dirs + {ImagesDir(p)})
    ensures ImagesDir(p) in disk.files && ImagesDir(p) !in disk.dirs ==> ImagesDir(p) !in r.dirs
  {
    var dir := ImagesDir(p);
    var ready := EnsureDirExists(disk, dir);
    var dest := Dest(p, filename);
    assert filename != "" ==> !Doomed(ready, dest, dir);
    if Exists(ready, dest) then DeletePath(ready, dest) else ready
  }

  /** `saveImage(uri, filename)`: makes sure the managed directory exists, deletes whatever is at
      `IMAGES_DIR + filename`, copies `uri` there and returns that path. */
  function SaveImage(p: Platform, disk: Disk, uri: string, filename: string): (r: SaveOutcome)
    ensures r.result.Success? ==> r.result.value == Dest(p, filename)
    ensures uri !in disk.files ==> r.result.Failure?
    ensures uri == Dest(p, filename) ==> r.result.Failure?
    ensures '/' !in filename && ImagesDir(p) in disk.files && ImagesDir(p) !in disk.dirs ==> r.result.Failure?
    ensures r.result.Success? ==>
      && Dest(p, filename) in r.disk.files && r.disk.files[Dest(p, filename)] == disk.files[uri]
      && Parent(Dest(p, filename)) in r.disk.dirs
    ensures uri in disk.files && uri != Dest(p, filename) && filename != "" && '/' !in filename
            && ImagesDir(p) !in disk.files && Dest(p, filename) !in disk.dirs ==>
      r.result.Success? && r.disk.files == disk.files[Dest(p, filename) := disk.files[uri]]
    ensures filename != "" && Dest(p, filename) !in disk.dirs ==>
      forall k :: k != Dest(p, filename) ==>
        && (k in r.disk.files <==> k in disk.files)
        && (k in r.disk.files ==> r.disk.files[k] == disk.files[k])
    ensures filename != "" ==> Exists(r.disk, ImagesDir(p))
    ensures filename != "" && Dest(p, filename) !in disk.dirs ==>
      r.disk.dirs == if Exists(disk, ImagesDir(p)) then disk.dirs else disk.dirs + {ImagesDir(p)}
    ensures r.disk.dirs - {ImagesDir(p)} <= disk.dirs
    ensures Dest(p, filename) !in r.disk.dirs
  {
    var dest := Dest(p, filename);
    var cleared := PrepareDest(p, disk, filename);
    match CopyFile(cleared, uri, dest)
    case Success(copied) => SaveOutcome(copied, Success(dest))
    case Failure(e) => SaveOutcome(cleared, Failure(e))
  }

  /** `deleteImage(uri)`: nothing for an empty path; otherwise deletes it only when it starts with
      `IMAGES_DIR`. */
  function DeleteImage(p: Platform, disk: Disk, uri: string): (r: DeleteOutcome)
    ensures r.issued.Some? <==> uri != "" && IsPrefix(ImagesDir(p), uri)
    ensures r.issued.None? ==> r.disk == disk
    ensures r.issued.Some? ==> r.issued.value == uri && !Exists(r.disk, uri)
    ensures r.issued.Some? && uri !in disk.dirs ==> r.disk == Disk(disk.files - {uri}, disk.dirs)
  {
    if uri == "" then DeleteOutcome(disk, None)
    else if IsPrefix(ImagesDir(p), uri) then DeleteOutcome(DeletePath(disk, uri), Some(uri))
    else DeleteOutcome(disk, None)
  }

  /** Deleting the same image twice leaves the disk as deleting it once. */
  lemma DeleteImageIdempotent(p: Platform, disk: Disk, uri: string)
    ensures var once := DeleteImage(p, disk, uri).disk;
      DeleteImage(p, once, uri).disk == once
  {
  }

  /** Deleting a path with nothing at it succeeds and changes nothing. */
  lemma DeleteAbsentImage(p: Platform, disk: Disk, uri: string)
    requires !Exists(disk, uri)
    ensures DeleteImage(p, disk, uri).disk == disk
  {
  }

  /** A string with no `/` in it, such as a `preset:` token, can never start with `IMAGES_DIR`,
      so deleting it is never handed to the filesystem. */
  lemma SlashlessNeverDeleted(p: Platform, disk: Disk, uri: string)
    requires '/' !in uri
    ensures DeleteImage(p, disk, uri) == DeleteOutcome(disk, None)
  {
  }

  /** Every path `saveImage` returns passes the guard of `deleteImage`, and deleting it removes
      exactly that file. */
  lemma SaveThenDelete(p: Platform, disk: Disk, uri: string, filename: string)
    requires SaveImage(p, disk, uri, filename).result.Success?
    ensures var saved := SaveImage(p, disk, uri, filename);
      var path := saved.result.value;
      var gone := DeleteImage(p, saved.disk, path);
      && gone.issued == Some(path)
      && gone.disk == Disk(saved.disk.files - {path}, saved.disk.dirs)
  {
  }

  /** When the destination was free, saving and then deleting the saved path restores every file;
      only the managed directory may remain created. */
  lemma SaveThenDeleteRestoresFiles(p: Platform, disk: Disk, uri: string, filename: string)
    requires uri in disk.files && uri != Dest(p, filename) && filename != "" && '/' !in filename
    requires ImagesDir(p) !in disk.files
    requires !Exists(disk, Dest(p, filename))
    ensures var saved := SaveImage(p, disk, uri, filename);
      saved.result.Success? && DeleteImage(p, saved.disk, Dest(p, filename)).disk.files == disk.files
  {
  }

  /** Two saves under one filename leave one file there, holding the second source's bytes; every
      other file is as the second save alone would leave it. */
  lemma SaveTwiceKeepsSecond(p: Platform, disk: Disk, uri1: string, uri2: string, filename: string)
    requires filename != "" && '/' !in filename && Dest(p, filename) !in disk.dirs
    requires ImagesDir(p) !in disk.files
    requires uri1 in disk.files && uri2 in disk.files
    requires uri1 != Dest(p, filename) && uri2 != Dest(p, filename)
    ensures var first := SaveImage(p, disk, uri1, filename);
      var second := SaveImage(p, first.disk, uri2, filename);
      && second.result == Success(Dest(p, filename))
      && second.disk.files == disk.files[Dest(p, filename) := disk.files[uri2]]
  {
  }

  /** Saving a managed file onto its own path deletes it before the copy, so the copy rejects and
      the file is lost. */
  lemma SaveOntoItselfLosesFile(p: Platform, disk: Disk, filename: string)
    requires Dest(p, filename) in disk.files
    ensures var r := SaveImage(p, disk, Dest(p, filename), filename);
      r.result.Failure? && Dest(p, filename) !in r.disk.files
  {
  }

  /** An empty filename makes the destination the managed directory itself, so saving deletes the
      directory and every file under it before copying. */
  lemma SaveEmptyFilenameClearsDirectory(p: Platform, disk: Disk, uri: string)
    requires ImagesDir(p) !in disk.files
    ensures var r := SaveImage(p, disk, uri, "");
      forall k :: k in r.disk.files && IsPrefix(ImagesDir(p), k) ==> k == ImagesDir(p)
  {
    assert Dest(p, "") == ImagesDir(p);
  }
}
