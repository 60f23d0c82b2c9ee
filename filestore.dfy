/** The filesystem the mod manager works on, as an abstract store: a map from
    path to file contents plus the set of directories. The library calls the
    manager makes (pathlib's mkdir with parents, shutil.copyfile, pathlib's
    unlink with missing_ok) are modelled as functions on the store, and the
    FileSystem class holds the one mutable store the program acts on. */
module FileStore {

  /** A path as its sequence of name segments; [] is the filesystem root. */
  type Path = seq<string>
  type Bytes = seq<bv8>

  /** The OSError subclasses the library calls can raise. */
  datatype IOError =
    | NotFound(path: Path)       // FileNotFoundError
    | IsADirectory(path: Path)   // IsADirectoryError
    | NotADirectory(path: Path)  // NotADirectoryError / FileExistsError from mkdir
    | SameFile(path: Path)       // shutil.SameFileError

  datatype Outcome = Done | Failed(error: IOError)

  datatype Result<T> = Ok(value: T) | Err(error: IOError)

  datatype Option<T> = None | Some(value: T)

  /** Every proper prefix of `p`: the directories that must exist to hold it. */
  function Ancestors(p: Path): set<Path>
  {
    set k | 0 <= k < |p| :: p[..k]
  }

  /** `p` lies strictly below `dir`. */
  predicate IsBelow(dir: Path, p: Path)
  {
    |dir| < |p| && p[..|dir|] == dir
  }

  /** `p` is an entry directly inside `dir`. */
  predicate IsChild(dir: Path, p: Path)
  {
    IsBelow(dir, p) && |p| == |dir| + 1
  }

  /** The last segment of a path, as pathlib's `name` ("" for the root). */
  function Name(p: Path): string
  {
    if p == [] then "" else p[|p| - 1]
  }

  datatype Store = Store(files: map<Path, Bytes>, dirs: set<Path>)
  {
    predicate Exists(p: Path)
    {
      p in files || p in dirs
    }

    /** A well-formed tree: the root is a directory, nothing is both a file
        and a directory, and every entry's ancestors are directories. */
    ghost predicate Valid()
    {
      && [] in dirs
      && files.Keys !! dirs
      && (forall p :: p in files ==> Ancestors(p) <= dirs)
      && (forall d :: d in dirs ==> Ancestors(d) <= dirs)
    }
  }

  /** The store after an operation, and whether the operation raised. */
  datatype Run = Run(store: Store, outcome: Outcome)

  /** `Path(p).parent.mkdir(parents=True, exist_ok=True)`: creates every
      missing ancestor of `p`; raises when one of them is a file. In a valid
      store the failing call creates nothing: the library creates a level
      only once its parent exists, and the level that is a file raises
      (`NotADirectoryError` on POSIX; on Windows the path-not-found errors
      below the file climb up to it, where `FileExistsError` is raised). */
  function MkdirsRun(s: Store, p: Path): Run
  {
    if Ancestors(p) !! s.files.Keys then Run(Store(s.files, s.dirs + Ancestors(p)), Done)
    else Run(s, Failed(NotADirectory(p)))
  }

  /** `shutil.copyfile(src, dst)`: refuses to copy a path onto itself, needs
      `src` to be a file and `dst` not to be a directory and to have its
      parent directories; overwrites `dst`. */
  function CopyFileRun(s: Store, src: Path, dst: Path): Run
  {
    if src == dst && s.Exists(src) then Run(s, Failed(SameFile(src)))
    else if src in s.dirs then Run(s, Failed(IsADirectory(src)))
    else if src !in s.files then Run(s, Failed(NotFound(src)))
    else if dst in s.dirs then Run(s, Failed(IsADirectory(dst)))
    else if !(Ancestors(dst) <= s.dirs) then Run(s, Failed(NotFound(dst)))
    else Run(Store(s.files[dst := s.files[src]], s.dirs), Done)
  }

  /** `Path(p).unlink(missing_ok=True)`: removes a file, does nothing for a
      missing path, raises for a directory. A path below a file counts as
      missing, as on Windows, where that is a path-not-found error and
      `missing_ok` swallows it. */
  function UnlinkRun(s: Store, p: Path): Run
  {
    if p in s.dirs then Run(s, Failed(IsADirectory(p)))
    else Run(Store(s.files - {p}, s.dirs), Done)
  }

  /** Every ancestor of an ancestor of `p` is an ancestor of `p`. */
  lemma AncestorsClosed(p: Path, q: Path)
    requires q in Ancestors(p)
    ensures Ancestors(q) <= Ancestors(p)
  {
    var k :| 0 <= k < |p| && q == p[..k];
    forall r | r in Ancestors(q) ensures r in Ancestors(p) {
      var j :| 0 <= j < |q| && r == q[..j];
      assert r == p[..j];
    }
  }

  lemma MkdirsPreservesValid(s: Store, p: Path)
    ensures s.Valid() ==> MkdirsRun(s, p).store.Valid()
  {
    var t := MkdirsRun(s, p).store;
    if s.Valid() && t != s {
      forall d | d in t.dirs ensures Ancestors(d) <= t.dirs {
        if d in Ancestors(p) { AncestorsClosed(p, d); }
      }
    }
  }

  lemma CopyFilePreservesValid(s: Store, src: Path, dst: Path)
    ensures s.Valid() ==> CopyFileRun(s, src, dst).store.Valid()
  {
  }

  lemma UnlinkPreservesValid(s: Store, p: Path)
    ensures s.Valid() ==> UnlinkRun(s, p).store.Valid()
  {
  }

  /** The entries of `order` that lie directly inside `dir`, in that order:
      `Path(dir).glob("*")` when `order` is the system's iteration order. */
  function Children(order: seq<Path>, dir: Path): (r: seq<Path>)
    ensures forall p :: p in r <==> p in order && IsChild(dir, p)
  {
    if order == [] then []
    else if IsChild(dir, order[0]) then [order[0]] + Children(order[1..], dir)
    else Children(order[1..], dir)
  }

  /** The entries of `order` below `dir` at any depth, in that order:
      the recursive glob `**` of `dir`. */
  function Descendants(order: seq<Path>, dir: Path): (r: seq<Path>)
    ensures forall p :: p in r <==> p in order && IsBelow(dir, p)
  {
    if order == [] then []
    else if IsBelow(dir, order[0]) then [order[0]] + Descendants(order[1..], dir)
    else Descendants(order[1..], dir)
  }

  predicate NoDuplicates<T(==)>(xs: seq<T>)
  {
    forall i, j :: 0 <= i < j < |xs| ==> xs[i] != xs[j]
  }

  /** `order` lists every path of the store exactly once: the order in which
      the operating system hands directory entries to pathlib's glob. */
  ghost predicate IsListing(s: Store, order: seq<Path>)
  {
    && NoDuplicates(order)
    && (forall p :: p in order <==> s.Exists(p))
  }

  lemma {:induction false} DescendantsNoDuplicates(order: seq<Path>, dir: Path)
    requires NoDuplicates(order)
    ensures NoDuplicates(Descendants(order, dir))
  {
    if order != [] {
      DescendantsNoDuplicates(order[1..], dir);
    }
  }

  /** The one mutable filesystem: its methods are the library calls. */
  class FileSystem {
    var files: map<Path, Bytes>
    var dirs: set<Path>

    function State(): Store
      reads this
    {
      Store(files, dirs)
    }

    ghost predicate Valid()
      reads this
    {
      State().Valid()
    }

    /** An empty filesystem: only the root directory. */
    constructor ()
      ensures Valid()
      ensures State() == Store(map[], {[]})
    {
      files := map[];
      dirs := {[]};
    }

    method Mkdirs(p: Path) returns (r: Outcome)
      requires Valid()
      modifies this
      ensures Valid()
      ensures Run(State(), r) == MkdirsRun(old(State()), p)
    {
      MkdirsPreservesValid(State(), p);
      if Ancestors(p) !! files.Keys {
        dirs := dirs + Ancestors(p);
        r := Done;
      } else {
        r := Failed(NotADirectory(p));
      }
    }

    method CopyFile(src: Path, dst: Path) returns (r: Outcome)
      requires Valid()
      modifies this
      ensures Valid()
      ensures Run(State(), r) == CopyFileRun(old(State()), src, dst)
    {
      CopyFilePreservesValid(State(), src, dst);
      if src == dst && (src in files || src in dirs) {
        r := Failed(SameFile(src));
      } else if src in dirs {
        r := Failed(IsADirectory(src));
      } else if src !in files {
        r := Failed(NotFound(src));
      } else if dst in dirs {
        r := Failed(IsADirectory(dst));
      } else if !(Ancestors(dst) <= dirs) {
        r := Failed(NotFound(dst));
      } else {
        files := files[dst := files[src]];
        r := Done;
      }
    }

    method Unlink(p: Path) returns (r: Outcome)
      requires Valid()
      modifies this
      ensures Valid()
      ensures Run(State(), r) == UnlinkRun(old(State()), p)
    {
      UnlinkPreservesValid(State(), p);
      if p in dirs {
        r := Failed(IsADirectory(p));
      } else {
        files := files - {p};
        r := Done;
      }
    }
  }
}
