/** The upload route: a course ZIP saved in the upload root is extracted into
    a folder named after it, entry by entry; the extraction is then verified by
    recounting the files on disk, and any failure rolls the folder and the ZIP
    back. */
module Upload {
  import opened Wrappers
  import opened Text
  import opened FileStore

  /** One entry of the archive's central directory, in archive order. The
      content of a file entry is what decompressing it yields. */
  datatype Entry = Directory(path: string) | File(path: string, content: Bytes)

  /** Every error the handler's try block can throw. */
  datatype ExtractError =
    | CreateDirFailed
    | ArchiveUnreadable
    | CreatePathFailed(entry: string)
    | WriteFailed(entry: string)
    | EmptyFile(entry: string)
    | CountMismatch(expected: nat, actual: nat)
    | ZipNotRemoved

  /** The three answers: 400 without a file, success with the folder and its
      URL, 500 after a rolled-back extraction. */
  datatype UploadResult =
    | NoFileUploaded
    | Uploaded(folder: string, path: string)
    | ExtractionFailed(error: ExtractError)

  /** A file-system state reached by (part of) an extraction, and the error it
      stopped with, if any. */
  datatype Attempt = Attempt(store: Store, error: Option<ExtractError>)

  // ---------------------------------------------------------------------------
  // The folder name

  /** ".zip" in any mix of letter case. */
  predicate IsZipExtension(e: string)
  {
    && |e| == 4 && e[0] == '.'
    && (e[1] == 'z' || e[1] == 'Z')
    && (e[2] == 'i' || e[2] == 'I')
    && (e[3] == 'p' || e[3] == 'P')
  }

  /** The regular expression /\.zip$/i matches: the name ends in ".zip", in any case. */
  predicate HasZipSuffix(name: string)
  {
    |name| >= 4 && IsZipExtension(name[|name| - 4..])
  }

  /** The saved file name with one trailing ".zip" (any case) removed. */
  function FolderName(filename: string): (r: string)
    ensures |r| <= |filename| && r == filename[..|r|]
    ensures HasZipSuffix(filename) <==> |r| == |filename| - 4
    ensures !HasZipSuffix(filename) ==> r == filename
  {
    if HasZipSuffix(filename) then filename[..|filename| - 4] else filename
  }

  /** Exactly one extension is stripped, whatever comes before it. */
  lemma StripsOneZip(name: string, ext: string)
    requires IsZipExtension(ext)
    ensures FolderName(name + ext) == name
  {
    assert (name + ext)[|name + ext| - 4..] == ext;
    assert (name + ext)[..|name|] == name;
  }

  // ---------------------------------------------------------------------------
  // The extraction as a function of the store

  /** The number of entries that are not directories: `expectedFiles`. */
  function FileCount(entries: seq<Entry>): nat
  {
    if entries == [] then 0 else (if entries[0].File? then 1 else 0) + FileCount(entries[1..])
  }

  /** The paths the file entries are written to. */
  function Targets(dir: Path, entries: seq<Entry>): (t: set<Path>)
    ensures forall p :: p in t <==> exists i | 0 <= i < |entries| :: entries[i].File? && Join(dir, entries[i].path) == p
  {
    if entries == [] then {}
    else
      var rest := Targets(dir, entries[1..]);
      assert forall i | 1 <= i < |entries| :: entries[i] == entries[1..][i - 1];
      assert forall i | 0 <= i < |entries| - 1 :: entries[1..][i] == entries[i + 1];
      (if entries[0].File? then {Join(dir, entries[0].path)} else {}) + rest
  }

  /** Whether a file entry's path ends in '/'. path.join keeps that trailing
      separator, and creating a write stream on such a path fails (the system
      refuses to open a name ending in '/' as a regular file). */
  predicate NamesDirectory(rel: string)
  {
    EndsWith(rel, "/")
  }

  /** One step of the loop: a directory entry is created with its parents; a
      file entry gets its parent directory, is written (replacing any previous
      file there) and must not come out empty. */
  function ApplyEntry(s: Store, dir: Path, e: Entry): (a: Attempt)
    ensures a.store.files.Keys >= s.files.Keys && a.store.dirs >= s.dirs
    ensures forall q | q in s.files && q != Join(dir, e.path) :: q in a.store.files && a.store.files[q] == s.files[q]
    ensures e.Directory? ==> (a.error.None? <==> CanMakeDirs(s, Join(dir, e.path)))
    ensures e.Directory? && a.error.None? ==>
              forall k | 0 < k <= |Join(dir, e.path)| :: Join(dir, e.path)[..k] in a.store.dirs
    ensures e.File? && a.error.None? ==>
              && Join(dir, e.path) in a.store.files && a.store.files[Join(dir, e.path)] == e.content
              && e.content != [] && !NamesDirectory(e.path)
    ensures e.File? ==>
              (a.error.None? <==>
                 && CanMakeDirs(s, Parent(Join(dir, e.path))) && !NamesDirectory(e.path)
                 && CanWrite(AfterMkdir(s, Parent(Join(dir, e.path))), Join(dir, e.path))
                 && e.content != [])
  {
    var target := Join(dir, e.path);
    match e
    case Directory(_) =>
      if CanMakeDirs(s, target) then Attempt(AfterMkdir(s, target), None)
      else Attempt(s, Some(CreatePathFailed(e.path)))
    case File(_, data) =>
      if !CanMakeDirs(s, Parent(target)) then Attempt(s, Some(CreatePathFailed(e.path)))
      else
        var s1 := AfterMkdir(s, Parent(target));
        if NamesDirectory(e.path) || !CanWrite(s1, target) then Attempt(s1, Some(WriteFailed(e.path)))
        else
          var s2 := AfterWrite(s1, target, data);
          if |data| == 0 then Attempt(s2, Some(EmptyFile(e.path))) else Attempt(s2, None)
  }

  /** The loop over the entries in archive order, stopping at the first error
      and keeping whatever was written before it. */
  function ApplyEntries(s: Store, dir: Path, entries: seq<Entry>): Attempt
    decreases |entries|
  {
    if entries == [] then Attempt(s, None)
    else
      var a := ApplyEntry(s, dir, entries[0]);
      if a.error.Some? then a else ApplyEntries(a.store, dir, entries[1..])
  }

  /** The try block: create the folder, open the archive, write the entries,
      recount, delete the ZIP. */
  function Extract(s: Store, dir: Path, zipPath: Path, archive: Option<seq<Entry>>): Attempt
  {
    if !CanMakeDirs(s, dir) then Attempt(s, Some(CreateDirFailed))
    else
      var s1 := AfterMkdir(s, dir);
      if archive.None? then Attempt(s1, Some(ArchiveUnreadable))
      else
        var a := ApplyEntries(s1, dir, archive.value);
        if a.error.Some? then a
        else
          var expected := FileCount(archive.value);
          var actual := |FilesUnder(a.store, dir)|;
          if actual != expected then Attempt(a.store, Some(CountMismatch(expected, actual)))
          else if zipPath !in a.store.files then Attempt(a.store, Some(ZipNotRemoved))
          else Attempt(AfterUnlink(a.store, zipPath), None)
  }

  /** removeFolder: rm -rf, only when the folder exists. */
  function RemovedFolder(s: Store, p: Path): Store
  {
    if PathExists(s, p) then AfterRemove(s, p) else s
  }

  /** The catch block: remove the folder, then unlink the ZIP if it still
      exists (an unlink that fails is ignored). */
  function Rollback(s: Store, dir: Path, zipPath: Path): Store
  {
    var s1 := RemovedFolder(s, dir);
    if zipPath in s1.files then AfterUnlink(s1, zipPath) else s1
  }

  /** The whole POST handler: the file system afterwards and the answer. The
      upload is the name multer saved the ZIP under in the upload root. */
  function UploadOutcome(s: Store, root: Path, upload: Option<string>, archive: Option<seq<Entry>>): (Store, UploadResult)
  {
    if upload.None? then (s, NoFileUploaded)
    else
      var zipPath := Join(root, upload.value);
      var folder := FolderName(upload.value);
      var dir := Join(root, folder);
      var a := Extract(s, dir, zipPath, archive);
      if a.error.None? then (a.store, Uploaded(folder, UploadsPrefix + folder))
      else (Rollback(a.store, dir, zipPath), ExtractionFailed(a.error.value))
  }

  // ---------------------------------------------------------------------------
  // What the loop does to the store

  /** Entries are handled strictly in order: the second half of the archive
      starts from wherever the first half stopped. */
  lemma {:induction false} ApplyEntriesAppend(s: Store, dir: Path, xs: seq<Entry>, ys: seq<Entry>)
    ensures var a := ApplyEntries(s, dir, xs);
      ApplyEntries(s, dir, xs + ys) == if a.error.Some? then a else ApplyEntries(a.store, dir, ys)
    decreases |xs|
  {
    if xs == [] {
      assert xs + ys == ys;
    } else {
      assert (xs + ys)[0] == xs[0] && (xs + ys)[1..] == xs[1..] + ys;
      var a := ApplyEntry(s, dir, xs[0]);
      if a.error.None? {
        ApplyEntriesAppend(a.store, dir, xs[1..], ys);
      }
    }
  }

  /** The loop keeps the store a tree. */
  lemma {:induction false} ApplyEntriesKeepsTree(s: Store, dir: Path, entries: seq<Entry>)
    requires WellFormed(s)
    ensures WellFormed(ApplyEntries(s, dir, entries).store)
    decreases |entries|
  {
    if entries != [] {
      var e := entries[0];
      var target := Join(dir, e.path);
      if e.Directory? {
        if CanMakeDirs(s, target) {
          MkdirKeepsTree(s, target);
        }
      } else if CanMakeDirs(s, Parent(target)) {
        MkdirKeepsTree(s, Parent(target));
        var s1 := AfterMkdir(s, Parent(target));
        if CanWrite(s1, target) {
          WriteKeepsTree(s1, target, e.content);
        }
      }
      var a := ApplyEntry(s, dir, e);
      if a.error.None? {
        ApplyEntriesKeepsTree(a.store, dir, entries[1..]);
      }
    }
  }

  /** The loop never removes a file or a directory. */
  lemma {:induction false} ApplyEntriesGrows(s: Store, dir: Path, entries: seq<Entry>)
    ensures ApplyEntries(s, dir, entries).store.files.Keys >= s.files.Keys
    ensures ApplyEntries(s, dir, entries).store.dirs >= s.dirs
    decreases |entries|
  {
    if entries != [] {
      var a := ApplyEntry(s, dir, entries[0]);
      if a.error.None? {
        ApplyEntriesGrows(a.store, dir, entries[1..]);
      }
    }
  }

  /** A file no entry writes to keeps its content, whether or not the loop fails. */
  lemma {:induction false} UntouchedFileKept(s: Store, dir: Path, entries: seq<Entry>, q: Path)
    requires q in s.files
    requires q !in Targets(dir, entries)
    ensures var t := ApplyEntries(s, dir, entries).store;
      q in t.files && t.files[q] == s.files[q]
    decreases |entries|
  {
    if entries != [] {
      assert entries[0].File? ==> q != Join(dir, entries[0].path) by {
        if entries[0].File? {
          assert Join(dir, entries[0].path) in Targets(dir, entries);
        }
      }
      var a := ApplyEntry(s, dir, entries[0]);
      if a.error.None? {
        var rest := entries[1..];
        forall k | 0 <= k < |rest| && rest[k].File? ensures Join(dir, rest[k].path) != q {
          assert rest[k] == entries[k + 1];
        }
        if entries[0].Directory? {
          var target := Join(dir, entries[0].path);
          assert target[..|target|] == target;
        }
        UntouchedFileKept(a.store, dir, entries[1..], q);
      }
    }
  }

  /** A file entry replaces a file already at its target (the write stream is
      opened with flags "w"): in a tree, non-empty data under a path that does
      not end in '/' is written over the old content, and nothing else
      changes. */
  lemma FileEntryOverwrites(s: Store, dir: Path, path: string, data: Bytes)
    requires WellFormed(s) && Join(dir, path) in s.files
    requires data != [] && !NamesDirectory(path)
    ensures ApplyEntry(s, dir, File(path, data)) == Attempt(Store(s.files[Join(dir, path) := data], s.dirs), None)
  {
    var target := Join(dir, path);
    var parent := Parent(target);
    assert target != [];
    assert parent == target[..|target| - 1];
    forall k | 0 < k <= |parent| ensures parent[..k] == target[..k] && parent[..k] in s.dirs {
    }
    var s1 := AfterMkdir(s, parent);
    assert s1.dirs == s.dirs;
    assert CanWrite(s1, target);
  }

  /** The directories an entry needs: for a directory entry its target and
      every ancestor, for a file entry every ancestor of its target. */
  predicate NeedsDir(dir: Path, e: Entry, q: Path)
  {
    q != [] && Under(if e.Directory? then Join(dir, e.path) else Parent(Join(dir, e.path)), q)
  }

  /** Entries that cannot clash with each other or with the store: every file
      entry has data, a path not ending in '/' and a target that is not the
      root or an existing directory, and no entry needs a directory where an
      existing file or a file entry's target sits. */
  predicate Compatible(s: Store, dir: Path, entries: seq<Entry>)
  {
    && (forall i | 0 <= i < |entries| && entries[i].File? ::
          && entries[i].content != [] && !NamesDirectory(entries[i].path)
          && Join(dir, entries[i].path) != [] && Join(dir, entries[i].path) !in s.dirs)
    && (forall i, q | 0 <= i < |entries| && q in s.files :: !NeedsDir(dir, entries[i], q))
    && (forall i, j | 0 <= i < |entries| && 0 <= j < |entries| && entries[j].File? ::
          !NeedsDir(dir, entries[i], Join(dir, entries[j].path)))
  }

  /** Compatible entries are all written: the loop completes without error. */
  lemma {:induction false} ApplyEntriesSucceed(s: Store, dir: Path, entries: seq<Entry>)
    requires Compatible(s, dir, entries)
    ensures ApplyEntries(s, dir, entries).error.None?
    decreases |entries|
  {
    if entries != [] {
      var e := entries[0];
      var target := Join(dir, e.path);
      var need := if e.Directory? then target else Parent(target);
      forall k | 0 < k <= |need| ensures need[..k] !in s.files {
        assert need[..k] != [] && Under(need, need[..k]);
        assert NeedsDir(dir, entries[0], need[..k]);
      }
      var a := ApplyEntry(s, dir, e);
      if e.File? {
        var s1 := AfterMkdir(s, need);
        assert !NeedsDir(dir, e, target);
        assert target !in s1.dirs;
        assert CanWrite(s1, target);
      }
      assert a.error.None?;
      var rest := entries[1..];
      assert forall q | q in a.store.dirs :: q in s.dirs || NeedsDir(dir, e, q);
      assert forall q | q in a.store.files :: q in s.files || (e.File? && q == target);
      forall i | 0 <= i < |rest| && rest[i].File?
        ensures Join(dir, rest[i].path) !in a.store.dirs
      {
        assert rest[i] == entries[i + 1];
      }
      forall i, q | 0 <= i < |rest| && q in a.store.files ensures !NeedsDir(dir, rest[i], q) {
        assert rest[i] == entries[i + 1];
      }
      forall i, j | 0 <= i < |rest| && 0 <= j < |rest| && rest[j].File?
        ensures !NeedsDir(dir, rest[i], Join(dir, rest[j].path))
      {
        assert rest[i] == entries[i + 1] && rest[j] == entries[j + 1];
      }
      ApplyEntriesSucceed(a.store, dir, rest);
    }
  }

  /** A step that succeeds adds exactly its own target to the files. */
  lemma ApplyEntryFiles(s: Store, dir: Path, e: Entry)
    requires ApplyEntry(s, dir, e).error.None?
    ensures ApplyEntry(s, dir, e).store.files.Keys == s.files.Keys + (if e.File? then {Join(dir, e.path)} else {})
  {
    var target := Join(dir, e.path);
    if e.File? {
      var s1 := AfterMkdir(s, Parent(target));
      assert s1.files == s.files;
      assert AfterWrite(s1, target, e.content).files.Keys == s1.files.Keys + {target};
    } else {
      assert AfterMkdir(s, target).files == s.files;
    }
  }

  /** A successful loop leaves behind exactly the files there were before plus
      one at every target. */
  lemma {:induction false} ApplyEntriesFiles(s: Store, dir: Path, entries: seq<Entry>)
    requires ApplyEntries(s, dir, entries).error.None?
    ensures ApplyEntries(s, dir, entries).store.files.Keys == s.files.Keys + Targets(dir, entries)
    decreases |entries|
  {
    if entries != [] {
      var a := ApplyEntry(s, dir, entries[0]);
      ApplyEntriesFiles(a.store, dir, entries[1..]);
      var head := if entries[0].File? then {Join(dir, entries[0].path)} else {};
      ApplyEntryFiles(s, dir, entries[0]);
      assert Targets(dir, entries) == head + Targets(dir, entries[1..]);
    }
  }

  /** An empty file entry anywhere in the archive makes the loop fail: the
      size check runs after every write, so even a genuinely empty file aborts. */
  lemma {:induction false} EmptyFileAborts(s: Store, dir: Path, entries: seq<Entry>, i: nat)
    requires i < |entries| && entries[i].File? && entries[i].content == []
    ensures ApplyEntries(s, dir, entries).error.Some?
    decreases |entries|
  {
    var a := ApplyEntry(s, dir, entries[0]);
    if a.error.None? {
      assert i != 0;
      assert entries[1..][i - 1] == entries[i];
      EmptyFileAborts(a.store, dir, entries[1..], i - 1);
    }
  }

  /** On success every file entry's target holds a non-empty file, and the one
      written last to a path is what that path holds. */
  lemma {:induction false} LastWriteWins(s: Store, dir: Path, xs: seq<Entry>, path: string, data: Bytes, ys: seq<Entry>)
    requires Join(dir, path) !in Targets(dir, ys)
    requires ApplyEntries(s, dir, xs + [File(path, data)] + ys).error.None?
    ensures var t := ApplyEntries(s, dir, xs + [File(path, data)] + ys).store;
      Join(dir, path) in t.files && t.files[Join(dir, path)] == data && |data| > 0
  {
    var e := File(path, data);
    ApplyEntriesAppend(s, dir, xs + [e], ys);
    ApplyEntriesAppend(s, dir, xs, [e]);
    var a := ApplyEntries(s, dir, xs);
    assert ApplyEntries(a.store, dir, [e]) == ApplyEntry(a.store, dir, e);
    var b := ApplyEntry(a.store, dir, e);
    assert Join(dir, path) in b.store.files && b.store.files[Join(dir, path)] == data;
    UntouchedFileKept(b.store, dir, ys, Join(dir, path));
  }

  // ---------------------------------------------------------------------------
  // The recount

  lemma {:induction false} TargetsAtMostFileCount(dir: Path, entries: seq<Entry>)
    ensures |Targets(dir, entries)| <= FileCount(entries)
    decreases |entries|
  {
    if entries != [] {
      TargetsAtMostFileCount(dir, entries[1..]);
      var head := if entries[0].File? then {Join(dir, entries[0].path)} else {};
      assert Targets(dir, entries) == head + Targets(dir, entries[1..]);
    }
  }

  /** Two file entries that write the same path leave fewer targets than files. */
  lemma {:induction false} DuplicateShrinksTargets(dir: Path, entries: seq<Entry>, i: nat, j: nat)
    requires i < j < |entries| && entries[i].File? && entries[j].File?
    requires Join(dir, entries[i].path) == Join(dir, entries[j].path)
    ensures |Targets(dir, entries)| < FileCount(entries)
    decreases |entries|
  {
    var rest := entries[1..];
    assert rest[j - 1] == entries[j];
    if i == 0 {
      assert Join(dir, entries[0].path) in Targets(dir, rest);
      assert Targets(dir, entries) == Targets(dir, rest);
      TargetsAtMostFileCount(dir, rest);
    } else {
      assert rest[i - 1] == entries[i];
      DuplicateShrinksTargets(dir, rest, i - 1, j - 1);
      var head := if entries[0].File? then {Join(dir, entries[0].path)} else {};
      assert Targets(dir, entries) == head + Targets(dir, rest);
    }
  }

  /** No two file entries write the same path. */
  predicate DistinctTargets(dir: Path, entries: seq<Entry>)
  {
    forall i, j | 0 <= i < j < |entries| && entries[i].File? && entries[j].File? ::
      Join(dir, entries[i].path) != Join(dir, entries[j].path)
  }

  lemma DistinctTail(dir: Path, entries: seq<Entry>)
    requires entries != [] && DistinctTargets(dir, entries)
    ensures DistinctTargets(dir, entries[1..])
    ensures entries[0].File? ==> Join(dir, entries[0].path) !in Targets(dir, entries[1..])
  {
    var rest := entries[1..];
    forall i, j | 0 <= i < j < |rest| && rest[i].File? && rest[j].File?
      ensures Join(dir, rest[i].path) != Join(dir, rest[j].path)
    {
      assert rest[i] == entries[i + 1] && rest[j] == entries[j + 1];
    }
    if entries[0].File? {
      var t := Join(dir, entries[0].path);
      forall k | 0 <= k < |rest| && rest[k].File? ensures Join(dir, rest[k].path) != t {
        assert rest[k] == entries[k + 1];
      }
    }
  }

  /** Without duplicate paths there is one target per file entry. */
  lemma {:induction false} DistinctTargetsCount(dir: Path, entries: seq<Entry>)
    requires DistinctTargets(dir, entries)
    ensures |Targets(dir, entries)| == FileCount(entries)
    decreases |entries|
  {
    if entries != [] {
      var rest := entries[1..];
      DistinctTail(dir, entries);
      DistinctTargetsCount(dir, rest);
      var head := if entries[0].File? then {Join(dir, entries[0].path)} else {};
      assert Targets(dir, entries) == head + Targets(dir, rest);
      assert head !! Targets(dir, rest);
    }
  }

  /** The targets that land inside the folder. */
  function TargetsInside(dir: Path, entries: seq<Entry>): set<Path>
  {
    set p | p in Targets(dir, entries) && StrictlyUnder(p, dir)
  }

  /** After a successful loop the folder holds its earlier files and the
      targets that landed inside it. */
  lemma FilesAfterLoop(s: Store, dir: Path, entries: seq<Entry>)
    requires ApplyEntries(s, dir, entries).error.None?
    ensures FilesUnder(ApplyEntries(s, dir, entries).store, dir) == FilesUnder(s, dir) + TargetsInside(dir, entries)
  {
    ApplyEntriesFiles(s, dir, entries);
  }

  /** Two file entries with the same path make a fresh extraction fail, since
      the recount then finds fewer files than the archive lists. */
  lemma DuplicateEntriesFail(s: Store, dir: Path, zipPath: Path, entries: seq<Entry>, i: nat, j: nat)
    requires FilesUnder(s, dir) == {}
    requires i < j < |entries| && entries[i].File? && entries[j].File?
    requires Join(dir, entries[i].path) == Join(dir, entries[j].path)
    ensures Extract(s, dir, zipPath, Some(entries)).error.Some?
  {
    if CanMakeDirs(s, dir) {
      var s1 := AfterMkdir(s, dir);
      assert FilesUnder(s1, dir) == {};
      var a := ApplyEntries(s1, dir, entries);
      if a.error.None? {
        FilesAfterLoop(s1, dir, entries);
        assert FilesUnder(a.store, dir) <= Targets(dir, entries);
        DuplicateShrinksTargets(dir, entries, i, j);
        SubsetAtMost(FilesUnder(a.store, dir), Targets(dir, entries));
      }
    }
  }

  lemma SubsetAtMost<T>(a: set<T>, b: set<T>)
    requires a <= b
    ensures |a| <= |b|
  {
    if a < b {
      ProperSubsetSmaller(a, b);
    } else {
      assert a == b;
    }
  }

  /** A file already inside the folder that no entry overwrites also makes the
      recount fail, when the archive's files all land inside the folder under
      distinct paths. */
  lemma PreexistingFileFails(s: Store, dir: Path, zipPath: Path, entries: seq<Entry>, q: Path)
    requires q in FilesUnder(s, dir) && q !in Targets(dir, entries)
    requires DistinctTargets(dir, entries)
    requires forall p | p in Targets(dir, entries) :: StrictlyUnder(p, dir)
    ensures Extract(s, dir, zipPath, Some(entries)).error.Some?
  {
    if CanMakeDirs(s, dir) {
      var s1 := AfterMkdir(s, dir);
      var a := ApplyEntries(s1, dir, entries);
      if a.error.None? {
        FilesAfterLoop(s1, dir, entries);
        assert TargetsInside(dir, entries) == Targets(dir, entries);
        DistinctTargetsCount(dir, entries);
        assert Targets(dir, entries) < FilesUnder(a.store, dir) by {
          assert q in FilesUnder(a.store, dir);
        }
        ProperSubsetSmaller(Targets(dir, entries), FilesUnder(a.store, dir));
      }
    }
  }

  /** A fresh folder, an archive whose files land inside it under distinct
      paths, and a loop that writes them all: the recount agrees and the
      extraction succeeds once the ZIP is unlinked. */
  lemma CleanArchiveSucceeds(s: Store, dir: Path, zipPath: Path, entries: seq<Entry>)
    requires CanMakeDirs(s, dir) && FilesUnder(s, dir) == {} && zipPath in s.files
    requires DistinctTargets(dir, entries)
    requires forall p | p in Targets(dir, entries) :: StrictlyUnder(p, dir)
    requires ApplyEntries(AfterMkdir(s, dir), dir, entries).error.None?
    ensures Extract(s, dir, zipPath, Some(entries)).error.None?
  {
    var s1 := AfterMkdir(s, dir);
    var a := ApplyEntries(s1, dir, entries);
    FilesAfterLoop(s1, dir, entries);
    assert TargetsInside(dir, entries) == Targets(dir, entries);
    assert FilesUnder(s1, dir) == {};
    DistinctTargetsCount(dir, entries);
    ApplyEntriesGrows(s1, dir, entries);
  }

  /** The same, with the loop's success derived: compatible entries whose
      files land inside a fresh folder under distinct paths give success. */
  lemma CompatibleArchiveSucceeds(s: Store, dir: Path, zipPath: Path, entries: seq<Entry>)
    requires CanMakeDirs(s, dir) && FilesUnder(s, dir) == {} && zipPath in s.files
    requires DistinctTargets(dir, entries)
    requires forall p | p in Targets(dir, entries) :: StrictlyUnder(p, dir)
    requires Compatible(AfterMkdir(s, dir), dir, entries)
    ensures Extract(s, dir, zipPath, Some(entries)).error.None?
  {
    ApplyEntriesSucceed(AfterMkdir(s, dir), dir, entries);
    CleanArchiveSucceeds(s, dir, zipPath, entries);
  }

  // ---------------------------------------------------------------------------
  // The handler's outcome

  /** The try block keeps the store a tree. */
  lemma ExtractKeepsTree(s: Store, dir: Path, zipPath: Path, archive: Option<seq<Entry>>)
    requires WellFormed(s)
    ensures WellFormed(Extract(s, dir, zipPath, archive).store)
  {
    if CanMakeDirs(s, dir) {
      MkdirKeepsTree(s, dir);
      if archive.Some? {
        ApplyEntriesKeepsTree(AfterMkdir(s, dir), dir, archive.value);
        UnlinkKeepsTree(ApplyEntries(AfterMkdir(s, dir), dir, archive.value).store, zipPath);
      }
    }
  }

  /** After a failed upload nothing is left at or below the folder and the ZIP
      no longer exists as a file; everything else extraction wrote stays, which
      includes files an entry path led outside the folder. */
  lemma FailureRollsBack(s: Store, root: Path, filename: string, archive: Option<seq<Entry>>)
    requires WellFormed(s)
    requires UploadOutcome(s, root, Some(filename), archive).1.ExtractionFailed?
    ensures var dir := Join(root, FolderName(filename));
      var zipPath := Join(root, filename);
      var t := UploadOutcome(s, root, Some(filename), archive).0;
      var mid := Extract(s, dir, zipPath, archive).store;
      && (forall q | Under(q, dir) :: q !in t.files && q !in t.dirs)
      && zipPath !in t.files
      && (forall q | !Under(q, dir) && q != zipPath :: (q in t.files <==> q in mid.files) && (q in t.dirs <==> q in mid.dirs))
      && (forall q | q in t.files && !Under(q, dir) && q != zipPath :: q in mid.files && t.files[q] == mid.files[q])
  {
    var dir := Join(root, FolderName(filename));
    var zipPath := Join(root, filename);
    var mid := Extract(s, dir, zipPath, archive).store;
    ExtractKeepsTree(s, dir, zipPath, archive);
    if !PathExists(mid, dir) {
      RemoveAbsentIsNoOp(mid, dir);
    }
  }

  /** A successful upload answers with the folder name and its URL, leaves
      the folder in place holding a file at every entry's target, and has
      unlinked the ZIP after a recount that found exactly as many files in the
      folder as the archive lists. */
  lemma SuccessShape(s: Store, root: Path, filename: string, archive: Option<seq<Entry>>)
    requires UploadOutcome(s, root, Some(filename), archive).1.Uploaded?
    ensures var (t, r) := UploadOutcome(s, root, Some(filename), archive);
      var dir := Join(root, FolderName(filename));
      var zipPath := Join(root, filename);
      && r == Uploaded(FolderName(filename), UploadsPrefix + FolderName(filename))
      && archive.Some?
      && IsDir(t, dir)
      && zipPath !in t.files
      && (forall p | p in Targets(dir, archive.value) && p != zipPath :: p in t.files)
      && exists mid: Store ::
          && t == AfterUnlink(mid, zipPath) && zipPath in mid.files
          && |FilesUnder(mid, dir)| == FileCount(archive.value)
  {
    var dir := Join(root, FolderName(filename));
    var s1 := AfterMkdir(s, dir);
    ApplyEntriesGrows(s1, dir, archive.value);
    ApplyEntriesFiles(s1, dir, archive.value);
  }

  /** A saved name that does not end in ".zip" names the ZIP itself as the
      folder: creating it fails, and the rollback deletes the upload. */
  lemma NonZipNameFails(s: Store, root: Path, filename: string, archive: Option<seq<Entry>>)
    requires WellFormed(s)
    requires !HasZipSuffix(filename) && Join(root, filename) in s.files
    ensures var (t, r) := UploadOutcome(s, root, Some(filename), archive);
      && r == ExtractionFailed(CreateDirFailed)
      && Join(root, filename) !in t.files
      && t.dirs == s.dirs
  {
    var p := Join(root, filename);
    assert p[..|p|] == p;
    forall d | d in s.dirs ensures !Under(d, p) {
      if |p| < |d| {
        assert d[..|p|] in s.dirs;
      } else if |p| == |d| {
        assert d[..|p|] == d;
      }
    }
  }

  /** Without a file the handler answers 400 and touches nothing. */
  lemma NoFileNoChange(s: Store, root: Path, archive: Option<seq<Entry>>)
    ensures UploadOutcome(s, root, None, archive) == (s, NoFileUploaded)
  {
  }

  // ---------------------------------------------------------------------------
  // The handler as it mutates the file system

  /** Every name readdir lists for d is an entry d + [n] that exists. */
  lemma ChildExists(s: Store, d: Path, n: string)
    requires n in Children(s, d)
    ensures d + [n] in s.files || d + [n] in s.dirs
  {
    if p :| p in s.files && |p| == |d| + 1 && p[..|d|] == d && p[|d|] == n {
      assert p == d + [n];
    } else {
      var p :| p in s.dirs && |p| == |d| + 1 && p[..|d|] == d && p[|d|] == n;
      assert p == d + [n];
    }
  }

  /** removeFolder */
  method RemoveFolder(fs: FileSystem, p: Path)
    requires fs.Valid()
    modifies fs
    ensures fs.Valid()
    ensures fs.State() == RemovedFolder(old(fs.State()), p)
  {
    if fs.Exists(p) {
      fs.Remove(p);
    }
  }

  /** countFiles: the number of regular files below d, found by reading every
      directory and recursing into subdirectories. */
  method CountFiles(fs: FileSystem, d: Path) returns (count: nat)
    requires fs.Valid() && IsDir(fs.State(), d)
    ensures count == |FilesUnder(fs.State(), d)|
    decreases |DirsUnder(fs.State(), d)|
  {
    ghost var s := fs.State();
    var items := Children(fs.State(), d);
    ghost var all := items;
    ChildrenCoverAll(s, d);
    var seen: set<string> := {};
    count := 0;
    while items != {}
      invariant seen + items == all && seen !! items
      invariant count == |FilesVia(s, d, seen)|
      decreases |items|
    {
      var n :| n in items;
      ReadEntry(s, d, seen, items, all, n);
      var p := d + [n];
      if p in fs.dirs {
        var c := CountFiles(fs, p);
        count := count + c;
      } else {
        count := count + 1;
      }
      seen := seen + {n};
      items := items - {n};
    }
  }

  /** One pass of countFiles' loop: the name n taken from those still to read
      is an entry of d, and reading it counts the files below it (a
      directory, whose subtree is smaller) or the file itself. */
  lemma ReadEntry(s: Store, d: Path, seen: set<string>, items: set<string>, all: set<string>, n: string)
    requires WellFormed(s) && all == Children(s, d)
    requires seen + items == all && seen !! items && n in items
    ensures (seen + {n}) + (items - {n}) == all && (seen + {n}) !! (items - {n})
    ensures d + [n] in s.files || d + [n] in s.dirs
    ensures |FilesVia(s, d, seen + {n})|
         == |FilesVia(s, d, seen)| + if d + [n] in s.dirs then |FilesUnder(s, d + [n])| else 1
    ensures d + [n] in s.dirs ==> |DirsUnder(s, d + [n])| < |DirsUnder(s, d)|
  {
    ChildExists(s, d, n);
    CountStep(s, d, seen, n);
    if d + [n] in s.dirs {
      SubdirSmaller(s, d, n);
    }
  }

  /** One pass of the loop over the archive's entries. */
  method ExtractEntry(fs: FileSystem, dir: Path, e: Entry) returns (error: Option<ExtractError>)
    requires fs.Valid()
    modifies fs
    ensures fs.Valid()
    ensures Attempt(fs.State(), error) == ApplyEntry(old(fs.State()), dir, e)
  {
    var target := Join(dir, e.path);
    if e.Directory? {
      var ok := fs.Mkdir(target);
      if !ok {
        return Some(CreatePathFailed(e.path));
      }
    } else {
      var ok := fs.Mkdir(Parent(target));
      if !ok {
        return Some(CreatePathFailed(e.path));
      }
      if EndsWith(e.path, "/") {
        return Some(WriteFailed(e.path));
      }
      ok := fs.WriteFile(target, e.content);
      if !ok {
        return Some(WriteFailed(e.path));
      }
      var size := fs.Size(target);
      if size == 0 {
        return Some(EmptyFile(e.path));
      }
    }
    return None;
  }

  /** The try block: returns the error it stopped with, if any. */
  method TryExtract(fs: FileSystem, dir: Path, zipPath: Path, archive: Option<seq<Entry>>) returns (error: Option<ExtractError>)
    requires fs.Valid()
    modifies fs
    ensures fs.Valid()
    ensures Attempt(fs.State(), error) == Extract(old(fs.State()), dir, zipPath, archive)
  {
    var ok := fs.Mkdir(dir);
    if !ok {
      return Some(CreateDirFailed);
    }
    if archive.None? {
      return Some(ArchiveUnreadable);
    }
    var entries := archive.value;
    var expected := FileCount(entries);
    ghost var start := fs.State();
    var i := 0;
    while i < |entries|
      invariant 0 <= i <= |entries|
      invariant fs.Valid() && IsDir(fs.State(), dir)
      invariant ApplyEntries(start, dir, entries) == ApplyEntries(fs.State(), dir, entries[i..])
    {
      assert entries[i..][0] == entries[i] && entries[i..][1..] == entries[i + 1..];
      var error := ExtractEntry(fs, dir, entries[i]);
      if error.Some? {
        return error;
      }
      i := i + 1;
    }
    var actual := CountFiles(fs, dir);
    if actual != expected {
      return Some(CountMismatch(expected, actual));
    }
    ok := fs.Unlink(zipPath);
    if !ok {
      return Some(ZipNotRemoved);
    }
    return None;
  }

  /** The POST handler. */
  method HandleUpload(fs: FileSystem, root: Path, upload: Option<string>, archive: Option<seq<Entry>>) returns (r: UploadResult)
    requires fs.Valid()
    modifies fs
    ensures fs.Valid()
    ensures (fs.State(), r) == UploadOutcome(old(fs.State()), root, upload, archive)
  {
    if upload.None? {
      return NoFileUploaded;
    }
    var zipPath := Join(root, upload.value);
    var folder := FolderName(upload.value);
    var dir := Join(root, folder);
    var error := TryExtract(fs, dir, zipPath, archive);
    if error.None? {
      return Uploaded(folder, UploadsPrefix + folder);
    }
    RemoveFolder(fs, dir);
    if fs.Exists(zipPath) {
      var _ := fs.Unlink(zipPath);
    }
    return ExtractionFailed(error.value);
  }
}
