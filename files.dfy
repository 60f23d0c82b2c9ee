/** Content comparison and the single source-to-destination binding
    (`ComputeMD5` and `FileController` in main.py). */
module Files {
  import opened FileStore

  /** What `ComputeMD5` returns. MD5 is modelled as injective: the digest of a
      file is identified with its bytes, and `Blank` is the "" returned for a
      missing path, which differs from the digest of every file, the empty
      file included. */
  datatype Digest = Blank | Md5(content: Bytes)

  /** `ComputeMD5(p)`: "" when nothing exists at `p`; otherwise the file is
      read whole, which raises when `p` is a directory. */
  function ComputeMD5(s: Store, p: Path): (r: Result<Digest>)
    ensures r == Ok(Blank) <==> !s.Exists(p)
    ensures r.Err? <==> p in s.dirs
    ensures p in s.files && p !in s.dirs ==> r == Ok(Md5(s.files[p]))
  {
    if !s.Exists(p) then Ok(Blank)
    else if p in s.dirs then Err(IsADirectory(p))
    else Ok(Md5(s.files[p]))
  }

  /** One (source, destination) pair of a mod: a `FileController`. */
  datatype Binding = Binding(source: Path, dest: Path)
  {
    /** `IsMatch`: the destination's digest equals the source's. Two missing
        paths match (both are ""); a missing path never matches a file, not
        even an empty one. The destination is fingerprinted first. */
    function IsMatch(s: Store): (r: Result<bool>)
      ensures r.Err? <==> dest in s.dirs || source in s.dirs
      ensures dest !in s.dirs && source !in s.dirs ==>
        (r == Ok(true) <==>
          || (dest !in s.files && source !in s.files)
          || (dest in s.files && source in s.files && s.files[dest] == s.files[source]))
    {
      match ComputeMD5(s, dest)
      case Err(e) => Err(e)
      case Ok(d) =>
        match ComputeMD5(s, source)
        case Err(e) => Err(e)
        case Ok(t) => Ok(d == t)
    }

    /** What `Copy` does to the store: create the destination's parent
        directories, then copy the source's bytes over the destination. */
    function CopyRun(s: Store): (r: Run)
      ensures r.outcome.Done? <==>
        && Ancestors(dest) !! s.files.Keys
        && source in s.files && source !in s.dirs
        && source != dest && dest !in s.dirs
      ensures r.outcome.Done? ==>
        && source in s.files
        && dest in r.store.files && r.store.files[dest] == s.files[source]
        && (forall p :: p != dest ==>
              (p in r.store.files <==> p in s.files) &&
              (p in s.files ==> r.store.files[p] == s.files[p]))
        && r.store.dirs == s.dirs + Ancestors(dest)
      ensures r.outcome.Failed? ==>
        r.store.files == s.files && s.dirs <= r.store.dirs <= s.dirs + Ancestors(dest)
      ensures s.Valid() ==> r.store.Valid()
    {
      var m := MkdirsRun(s, dest);
      MkdirsPreservesValid(s, dest);
      if m.outcome.Failed? then m
      else
        CopyFilePreservesValid(m.store, source, dest);
        CopyFileRun(m.store, source, dest)
    }

    /** What `Delete` does to the store: the destination is removed; a missing
        destination is no error; a directory there raises. */
    function DeleteRun(s: Store): (r: Run)
      ensures r.outcome.Done? <==> dest !in s.dirs
      ensures r.outcome.Done? ==>
        && !r.store.Exists(dest)
        && (forall p :: p != dest ==>
              (p in r.store.files <==> p in s.files) &&
              (p in s.files ==> r.store.files[p] == s.files[p]))
        && r.store.dirs == s.dirs
      ensures r.outcome.Failed? ==> r.store == s
      ensures !s.Exists(dest) ==> r == Run(s, Done)
      ensures s.Valid() ==> r.store.Valid()
    {
      UnlinkPreservesValid(s, dest);
      var u := UnlinkRun(s, dest);
      assert !s.Exists(dest) ==> u.store.files == s.files;
      u
    }

    /** `FileController.Copy`. */
    method Copy(fs: FileSystem) returns (r: Outcome)
      requires fs.Valid()
      modifies fs
      ensures fs.Valid()
      ensures Run(fs.State(), r) == CopyRun(old(fs.State()))
    {
      r := fs.Mkdirs(dest);
      if r.Done? {
        r := fs.CopyFile(source, dest);
      }
    }

    /** `FileController.Delete`. */
    method Delete(fs: FileSystem) returns (r: Outcome)
      requires fs.Valid()
      modifies fs
      ensures fs.Valid()
      ensures Run(fs.State(), r) == DeleteRun(old(fs.State()))
    {
      r := fs.Unlink(dest);
    }
  }
}
