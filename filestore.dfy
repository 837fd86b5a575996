/** The upload root's file system as the upload handler sees it: files with
    their bytes, directories, POSIX path joining, and the fs primitives the
    handler calls (mkdir -p, write, rm -rf, unlink, existsSync). */
module FileStore {
  import opened Text

  newtype byte = b: int | 0 <= b < 256
  type Bytes = seq<byte>

  /** An absolute path as its segments; [] is the root directory "/". */
  type Path = seq<string>

  /** The URL prefix under which the upload root is served. */
  const UploadsPrefix: string := "/uploads/"

  /** A file-system state: regular files and their contents, and directories
      other than the root. */
  datatype Store = Store(files: map<Path, Bytes>, dirs: set<Path>)

  /** p is d itself or lies inside d. */
  predicate Under(p: Path, d: Path)
  {
    |d| <= |p| && p[..|d|] == d
  }

  /** p lies inside d. */
  predicate StrictlyUnder(p: Path, d: Path)
  {
    |d| < |p| && p[..|d|] == d
  }

  /** A tree: no path is both a file and a directory, the root is neither, and
      every proper ancestor of a file or directory is a directory. */
  ghost predicate WellFormed(s: Store)
  {
    && [] !in s.files && [] !in s.dirs
    && (forall p | p in s.files :: p !in s.dirs)
    && (forall p, k | p in s.files && 0 < k < |p| :: p[..k] in s.dirs)
    && (forall p, k | p in s.dirs && 0 < k < |p| :: p[..k] in s.dirs)
  }

  predicate IsDir(s: Store, p: Path)
  {
    p == [] || p in s.dirs
  }

  /** fs.existsSync */
  predicate PathExists(s: Store, p: Path)
  {
    p == [] || p in s.files || p in s.dirs
  }

  function Parent(p: Path): Path
  {
    if p == [] then [] else p[..|p| - 1]
  }

  // ---------------------------------------------------------------------------
  // path.join

  /** Apply '/'-separated segments to a normalised path as path.join does:
      "" and "." are dropped, ".." goes up one level but not above the root,
      anything else goes down into that name. */
  function Resolve(base: Path, segments: seq<string>): Path
    decreases segments
  {
    if segments == [] then base
    else
      var seg := segments[0];
      var next := if seg == "" || seg == "." then base else if seg == ".." then Parent(base) else base + [seg];
      Resolve(next, segments[1..])
  }

  /** path.join(base, rel) for a normalised absolute base. */
  function Join(base: Path, rel: string): Path
  {
    Resolve(base, Split(rel, '/'))
  }

  /** A plain name (no '/', not "", "." or "..") is one level below the base. */
  lemma JoinName(base: Path, name: string)
    requires '/' !in name && name != "" && name != "." && name != ".."
    ensures Join(base, name) == base + [name]
  {
    SplitJoin([name], '/');
    assert Split(name, '/') == [name];
    assert Resolve(base, [name]) == Resolve(base + [name], []);
  }

  /** path.join does not confine: "../name" joined to a folder lands beside
      the folder, not inside it. */
  lemma JoinCanEscape(dir: Path, name: string)
    requires dir != []
    requires '/' !in name && name != "" && name != "." && name != ".."
    ensures Join(dir, "../" + name) == Parent(dir) + [name]
    ensures !StrictlyUnder(Join(dir, "../" + name), dir)
  {
    SplitJoin(["..", name], '/');
    assert JoinWith(["..", name], '/') == "../" + name;
    assert Resolve(dir, ["..", name]) == Resolve(Parent(dir), [name]);
    assert Resolve(Parent(dir), [name]) == Resolve(Parent(dir) + [name], []);
  }

  // ---------------------------------------------------------------------------
  // The primitives

  /** Whether fs.mkdir(p, {recursive: true}) succeeds: no ancestor of p, nor p
      itself, is a regular file. */
  predicate CanMakeDirs(s: Store, p: Path)
  {
    forall k | 0 < k <= |p| :: p[..k] !in s.files
  }

  /** Every non-root prefix of p. */
  function Prefixes(p: Path): set<Path>
  {
    set k | 0 < k <= |p| :: p[..k]
  }

  /** The state after a successful mkdir -p: p and its ancestors are directories. */
  function AfterMkdir(s: Store, p: Path): (t: Store)
    ensures t.files == s.files
    ensures forall q :: q in t.dirs <==> q in s.dirs || (q != [] && Under(p, q))
    ensures p != [] ==> p in t.dirs
  {
    assert p != [] ==> p[..|p|] == p;
    var t := Store(s.files, s.dirs + Prefixes(p));
    assert forall q | q != [] && Under(p, q) :: q == p[..|q|] && q in Prefixes(p);
    t
  }

  /** Whether fs.createWriteStream(p, {flags: "w"}) can write: p is not the
      root or a directory and its parent directory exists. */
  predicate CanWrite(s: Store, p: Path)
  {
    p != [] && p !in s.dirs && IsDir(s, Parent(p))
  }

  /** The state after writing data to p, replacing any previous content. */
  function AfterWrite(s: Store, p: Path, data: Bytes): Store
  {
    Store(s.files[p := data], s.dirs)
  }

  /** The state after fs.rm(p, {recursive: true, force: true}): p and
      everything below it are gone. */
  function AfterRemove(s: Store, p: Path): (t: Store)
    ensures forall q | Under(q, p) :: q !in t.files && q !in t.dirs
    ensures forall q | !Under(q, p) :: (q in t.files <==> q in s.files) && (q in t.dirs <==> q in s.dirs)
    ensures forall q | q in t.files :: t.files[q] == s.files[q]
  {
    Store(map q | q in s.files && !Under(q, p) :: s.files[q], set q | q in s.dirs && !Under(q, p))
  }

  /** The state after unlinking the regular file p. */
  function AfterUnlink(s: Store, p: Path): Store
  {
    Store(s.files - {p}, s.dirs)
  }

  /** The regular files inside d, at any depth. */
  function FilesUnder(s: Store, d: Path): set<Path>
  {
    set p | p in s.files && StrictlyUnder(p, d)
  }

  /** The directories inside d, at any depth. */
  function DirsUnder(s: Store, d: Path): set<Path>
  {
    set p | p in s.dirs && StrictlyUnder(p, d)
  }

  /** fs.readdir(d): the names of d's entries. */
  function Children(s: Store, d: Path): set<string>
  {
    (set p | p in s.files && |p| == |d| + 1 && p[..|d|] == d :: p[|d|])
    + (set p | p in s.dirs && |p| == |d| + 1 && p[..|d|] == d :: p[|d|])
  }

  // ---------------------------------------------------------------------------
  // The primitives keep the state a tree

  lemma MkdirKeepsTree(s: Store, p: Path)
    requires WellFormed(s) && CanMakeDirs(s, p)
    ensures WellFormed(AfterMkdir(s, p))
  {
    var t := AfterMkdir(s, p);
    forall q, k | q in t.dirs && 0 < k < |q| ensures q[..k] in t.dirs {
      if q !in s.dirs {
        var j :| 0 < j <= |p| && q == p[..j];
        assert q[..k] == p[..k];
      }
    }
    forall q | q in Prefixes(p) ensures q !in s.files {
      var j :| 0 < j <= |p| && q == p[..j];
    }
  }

  lemma WriteKeepsTree(s: Store, p: Path, data: Bytes)
    requires WellFormed(s) && CanWrite(s, p)
    ensures WellFormed(AfterWrite(s, p, data))
  {
    var t := AfterWrite(s, p, data);
    forall q, k | q in t.files && 0 < k < |q| ensures q[..k] in t.dirs {
      if q == p {
        var up := Parent(p);
        if k < |p| - 1 {
          assert up[..k] == p[..k];
        } else {
          assert p[..k] == up;
        }
      }
    }
  }

  lemma RemoveKeepsTree(s: Store, p: Path)
    requires WellFormed(s)
    ensures WellFormed(AfterRemove(s, p))
  {
    var t := AfterRemove(s, p);
    forall q, k | (q in t.files || q in t.dirs) && 0 < k < |q| ensures q[..k] in t.dirs {
      assert q[..k] in s.dirs;
      UnderOfPrefix(q, k, p);
    }
  }

  /** A path with an ancestor under p is itself under p. */
  lemma UnderOfPrefix(q: Path, k: nat, p: Path)
    requires k <= |q|
    ensures Under(q[..k], p) ==> Under(q, p)
  {
    if |p| <= k {
      assert q[..k][..|p|] == q[..|p|];
    }
  }

  lemma UnlinkKeepsTree(s: Store, p: Path)
    requires WellFormed(s)
    ensures WellFormed(AfterUnlink(s, p))
  {
  }

  /** Removing a folder is idempotent, and removing one that does not exist
      changes nothing. */
  lemma RemoveIdempotent(s: Store, p: Path)
    ensures AfterRemove(AfterRemove(s, p), p) == AfterRemove(s, p)
  {
  }

  lemma RemoveAbsentIsNoOp(s: Store, p: Path)
    requires WellFormed(s) && !PathExists(s, p)
    ensures AfterRemove(s, p) == s
  {
    forall q | (q in s.files || q in s.dirs) ensures !Under(q, p) {
      if |p| < |q| {
        assert q[..|p|] in s.dirs;
      } else if |p| == |q| {
        assert q[..|p|] == q;
      }
    }
    assert AfterRemove(s, p).files == s.files;
  }

  // ---------------------------------------------------------------------------
  // Counting files

  /** The files below d whose first segment after d is one of names. */
  function FilesVia(s: Store, d: Path, names: set<string>): set<Path>
  {
    set p | p in s.files && StrictlyUnder(p, d) && p[|d|] in names
  }

  lemma ProperSubsetSmaller<T>(a: set<T>, b: set<T>)
    requires a < b
    ensures |a| < |b|
  {
    assert exists y :: y in b && y !in a;
    var x :| x in b && x !in a;
    assert b == a + (b - a);
    assert |b - a| >= 1 by { assert {x} <= b - a; }
  }

  /** Every file below d is reached through one of d's entries. */
  lemma ChildrenCoverAll(s: Store, d: Path)
    requires WellFormed(s)
    ensures FilesVia(s, d, Children(s, d)) == FilesUnder(s, d)
  {
    forall p | p in FilesUnder(s, d) ensures p[|d|] in Children(s, d) {
      var c := p[..|d| + 1];
      assert c[..|d|] == d && c[|d|] == p[|d|];
      if |p| == |d| + 1 {
        assert c == p;
      } else {
        assert c in s.dirs;
      }
    }
  }

  /** The files reached through one entry: the entry itself when it is a file,
      everything below it when it is a directory. */
  lemma OneChild(s: Store, d: Path, n: string)
    requires WellFormed(s) && (d + [n] in s.files || d + [n] in s.dirs)
    ensures FilesVia(s, d, {n}) == if d + [n] in s.dirs then FilesUnder(s, d + [n]) else {d + [n]}
  {
    var c := d + [n];
    forall p | p in s.files && StrictlyUnder(p, d) && p[|d|] == n
      ensures p == c || StrictlyUnder(p, c)
    {
      assert p[..|d| + 1] == c;
      if |p| > |d| + 1 {
        assert p[..|c|] == c;
      } else {
        assert p == c;
      }
    }
    forall p | StrictlyUnder(p, c) ensures StrictlyUnder(p, d) && p[|d|] == n {
      assert p[..|d|] == p[..|c|][..|d|];
      assert p[|d|] == p[..|c|][|d|];
    }
    if c in s.files {
      forall p | p in s.files && |c| < |p| ensures p[..|c|] != c {
        assert p[..|c|] in s.dirs;
      }
    }
  }

  /** Entries of d are split up disjointly by the name they go through. */
  lemma SplitVia(s: Store, d: Path, names: set<string>, n: string)
    requires n !in names
    ensures FilesVia(s, d, names + {n}) == FilesVia(s, d, names) + FilesVia(s, d, {n})
    ensures FilesVia(s, d, names) !! FilesVia(s, d, {n})
  {
  }

  /** Reading one more entry n of d adds the files below n when n is a
      directory, and n itself when it is a file. */
  lemma CountStep(s: Store, d: Path, seen: set<string>, n: string)
    requires WellFormed(s) && n !in seen && (d + [n] in s.files || d + [n] in s.dirs)
    ensures |FilesVia(s, d, seen + {n})|
         == |FilesVia(s, d, seen)| + if d + [n] in s.dirs then |FilesUnder(s, d + [n])| else 1
  {
    OneChild(s, d, n);
    SplitVia(s, d, seen, n);
  }

  /** A directory inside d has strictly fewer directories inside it. */
  lemma SubdirSmaller(s: Store, d: Path, n: string)
    requires d + [n] in s.dirs
    ensures |DirsUnder(s, d + [n])| < |DirsUnder(s, d)|
  {
    var c := d + [n];
    forall p | p in DirsUnder(s, c) ensures p in DirsUnder(s, d) {
      assert p[..|d|] == p[..|c|][..|d|];
    }
    assert c[..|d|] == d;
    assert c in DirsUnder(s, d) && c !in DirsUnder(s, c);
    ProperSubsetSmaller(DirsUnder(s, c), DirsUnder(s, d));
  }

  // ---------------------------------------------------------------------------
  // The file system as the handler mutates it

  class FileSystem {
    var files: map<Path, Bytes>
    var dirs: set<Path>

    function State(): Store
      reads this
    {
      Store(files, dirs)
    }

    ghost predicate Valid()
      reads this
    {
      WellFormed(State())
    }

    constructor (s: Store)
      requires WellFormed(s)
      ensures Valid() && State() == s
    {
      files := s.files;
      dirs := s.dirs;
    }

    /** fs.existsSync(p) */
    function Exists(p: Path): bool
      reads this
    {
      PathExists(State(), p)
    }

    /** fs.promises.mkdir(p, {recursive: true}); false when it rejects. */
    method Mkdir(p: Path) returns (ok: bool)
      requires Valid()
      modifies this
      ensures Valid()
      ensures ok == CanMakeDirs(old(State()), p)
      ensures State() == if ok then AfterMkdir(old(State()), p) else old(State())
    {
      ok := forall k | 0 < k <= |p| :: p[..k] !in files;
      if ok {
        MkdirKeepsTree(State(), p);
        dirs := dirs + Prefixes(p);
      }
    }

    /** Write data through fs.createWriteStream(p, {flags: "w"}); false when the
        stream errors. */
    method WriteFile(p: Path, data: Bytes) returns (ok: bool)
      requires Valid()
      modifies this
      ensures Valid()
      ensures ok == CanWrite(old(State()), p)
      ensures State() == if ok then AfterWrite(old(State()), p, data) else old(State())
      ensures ok ==> p in files && files[p] == data
    {
      ok := p != [] && p !in dirs && (Parent(p) == [] || Parent(p) in dirs);
      if ok {
        WriteKeepsTree(State(), p, data);
        files := files[p := data];
      }
    }

    /** fs.promises.stat(p).size of a regular file. */
    function Size(p: Path): nat
      reads this
      requires p in files
    {
      |files[p]|
    }

    /** fs.promises.rm(p, {recursive: true, force: true}) */
    method Remove(p: Path)
      requires Valid()
      modifies this
      ensures Valid()
      ensures State() == AfterRemove(old(State()), p)
    {
      RemoveKeepsTree(State(), p);
      files := map q | q in files && !Under(q, p) :: files[q];
      dirs := set q | q in dirs && !Under(q, p);
    }

    /** fs.promises.unlink(p); false when p is not a regular file. */
    method Unlink(p: Path) returns (ok: bool)
      requires Valid()
      modifies this
      ensures Valid()
      ensures ok == (p in old(files))
      ensures State() == if ok then AfterUnlink(old(State()), p) else old(State())
    {
      ok := p in files;
      if ok {
        UnlinkKeepsTree(State(), p);
        files := files - {p};
      }
    }
  }
}
