/** The mod descriptor (`ModContoller` in main.py): an ordered list of
    bindings and a cached installed flag, with `Install`, `Uninstall` and the
    recomputation `__check_installed__`. */
module Descriptor {
  import opened FileStore
  import opened Files
  import opened Layout

  /** The three subclasses of `ModContoller`. */
  datatype Variant = LoaderApplication | FrameworkBundle | NativeBundle

  /** What `__check_installed__` finds: the bindings are checked in order and
      the first one that does not match decides; a digest that raises ends
      the check. */
  function AllMatch(s: Store, bs: seq<Binding>): Result<bool>
  {
    if bs == [] then Ok(true)
    else
      match bs[0].IsMatch(s)
      case Err(e) => Err(e)
      case Ok(false) => Ok(false)
      case Ok(true) => AllMatch(s, bs[1..])
  }

  /** The check holds exactly when every binding matches; otherwise its
      verdict is that of the first binding that does not match. */
  lemma {:induction false} AllMatchSpec(s: Store, bs: seq<Binding>)
    ensures AllMatch(s, bs) == Ok(true) <==> forall i :: 0 <= i < |bs| ==> bs[i].IsMatch(s) == Ok(true)
    ensures AllMatch(s, bs) != Ok(true) ==>
      exists k :: 0 <= k < |bs| && AllMatch(s, bs) == bs[k].IsMatch(s) &&
        forall j :: 0 <= j < k ==> bs[j].IsMatch(s) == Ok(true)
  {
    if bs != [] && bs[0].IsMatch(s) == Ok(true) {
      var rest := bs[1..];
      AllMatchSpec(s, rest);
      assert forall i :: 0 <= i < |rest| ==> rest[i] == bs[i + 1];
      if AllMatch(s, rest) != Ok(true) {
        var k :| 0 <= k < |rest| && AllMatch(s, rest) == rest[k].IsMatch(s) &&
          forall j :: 0 <= j < k ==> rest[j].IsMatch(s) == Ok(true);
        assert AllMatch(s, bs) == bs[k + 1].IsMatch(s);
        assert forall j :: 0 <= j < k + 1 ==> bs[j].IsMatch(s) == Ok(true) by {
          forall j | 0 < j < k + 1 ensures bs[j].IsMatch(s) == Ok(true) {
            assert bs[j] == rest[j - 1];
          }
        }
      }
    }
  }

  /** The destinations of a list of bindings. */
  function Dests(bs: seq<Binding>): set<Path>
  {
    set i | 0 <= i < |bs| :: bs[i].dest
  }

  lemma DestsTail(bs: seq<Binding>)
    requires bs != []
    ensures Dests(bs) == {bs[0].dest} + Dests(bs[1..])
  {
    var rest := bs[1..];
    forall p | p in Dests(bs) ensures p == bs[0].dest || p in Dests(rest) {
      var i :| 0 <= i < |bs| && bs[i].dest == p;
      if i > 0 {
        assert rest[i - 1].dest == p;
      }
    }
    forall p | p in Dests(rest) ensures p in Dests(bs) {
      var i :| 0 <= i < |rest| && rest[i].dest == p;
      assert bs[i + 1].dest == p;
    }
  }

  /** The directories on the way to the destinations of a list of
      bindings. */
  function DestAncestors(bs: seq<Binding>): set<Path>
  {
    if bs == [] then {} else Ancestors(bs[0].dest) + DestAncestors(bs[1..])
  }

  /** The copy loop of `Install`: each binding in order; the first copy that
      raises ends the loop, leaving the earlier copies in place. */
  function CopyAll(s: Store, bs: seq<Binding>): Run
    decreases |bs|
  {
    if bs == [] then Run(s, Done)
    else
      var c := bs[0].CopyRun(s);
      if c.outcome.Failed? then c else CopyAll(c.store, bs[1..])
  }

  /** The copy loop keeps the store well formed, never removes a file or a
      directory, and leaves every path that is not a destination as it
      was; the only directories it creates lie on the way to a destination,
      and when it finishes it has created all of them. */
  lemma {:induction false} CopyAllFrame(s: Store, bs: seq<Binding>)
    decreases |bs|
    ensures var r := CopyAll(s, bs).store;
      && (s.Valid() ==> r.Valid())
      && (forall p :: p !in Dests(bs) ==>
            (p in r.files <==> p in s.files) &&
            (p in s.files ==> r.files[p] == s.files[p]))
      && (forall p :: p in s.files ==> p in r.files)
      && s.dirs <= r.dirs <= s.dirs + DestAncestors(bs)
      && (CopyAll(s, bs).outcome.Done? ==> r.dirs == s.dirs + DestAncestors(bs))
  {
    if bs != [] {
      var c := bs[0].CopyRun(s);
      DestsTail(bs);
      if c.outcome.Done? {
        CopyAllFrame(c.store, bs[1..]);
      }
    }
  }

  /** The delete loop of `Uninstall`: each binding in order; the first delete
      that raises ends the loop. */
  function DeleteAll(s: Store, bs: seq<Binding>): Run
    decreases |bs|
  {
    if bs == [] then Run(s, Done)
    else
      var d := bs[0].DeleteRun(s);
      if d.outcome.Failed? then d else DeleteAll(d.store, bs[1..])
  }

  /** The delete loop keeps the store well formed and never touches a
      directory; it raises exactly when a destination is a directory; it
      only removes files, and only destinations; and when it does not raise,
      no destination exists any more. */
  lemma {:induction false} DeleteAllFrame(s: Store, bs: seq<Binding>)
    decreases |bs|
    ensures var r := DeleteAll(s, bs);
      && (s.Valid() ==> r.store.Valid())
      && r.store.dirs == s.dirs
      && (r.outcome.Done? <==> forall i :: 0 <= i < |bs| ==> bs[i].dest !in s.dirs)
      && (r.outcome.Done? ==> forall i :: 0 <= i < |bs| ==> !r.store.Exists(bs[i].dest))
      && (forall p :: p in r.store.files ==> p in s.files && r.store.files[p] == s.files[p])
      && (forall p :: p !in Dests(bs) && p in s.files ==> p in r.store.files)
  {
    if bs != [] {
      var d := bs[0].DeleteRun(s);
      var rest := bs[1..];
      DestsTail(bs);
      assert forall i :: 1 <= i < |bs| ==> bs[i] == rest[i - 1];
      if d.outcome.Done? {
        DeleteAllFrame(d.store, rest);
      }
    }
  }

  /** The store, the cached flag and the outcome after an operation. */
  datatype ModRun = ModRun(store: Store, installed: bool, outcome: Outcome)

  /** `__check_installed__` on store `s`: the flag becomes the check's
      verdict; when a digest raises, the flag keeps its old value `flag`. */
  function Recheck(s: Store, bs: seq<Binding>, flag: bool): ModRun
  {
    match AllMatch(s, bs)
    case Ok(b) => ModRun(s, b, Done)
    case Err(e) => ModRun(s, flag, Failed(e))
  }

  /** `Install`: the copy loop, then the recheck. A copy that raises skips
      the recheck, so the flag stays as it was. */
  function InstallRun(s: Store, bs: seq<Binding>, flag: bool): ModRun
  {
    var c := CopyAll(s, bs);
    if c.outcome.Failed? then ModRun(c.store, flag, c.outcome) else Recheck(c.store, bs, flag)
  }

  /** `Uninstall`: the delete loop, then the recheck. */
  function UninstallRun(s: Store, bs: seq<Binding>, flag: bool): ModRun
  {
    var d := DeleteAll(s, bs);
    if d.outcome.Failed? then ModRun(d.store, flag, d.outcome) else Recheck(d.store, bs, flag)
  }

  /** The binding's destination holds a copy of its source. */
  predicate Settled(s: Store, b: Binding)
  {
    b.dest in s.files && b.source in s.files && s.files[b.dest] == s.files[b.source]
  }

  /** Bindings whose copies cannot overwrite one another or another
      binding's source: destinations pairwise distinct and never a source. */
  predicate DestsApart(bs: seq<Binding>)
  {
    && (forall i, j :: 0 <= i < |bs| && 0 <= j < |bs| ==> bs[i].dest != bs[j].source)
    && (forall i, j :: 0 <= i < j < |bs| ==> bs[i].dest != bs[j].dest)
  }

  /** Everything every copy of a list needs: the bindings are apart, every
      source is a file, no destination is a directory or lies on the way to
      another destination, and nothing on the way to a destination is a
      file. */
  ghost predicate CanInstall(s: Store, bs: seq<Binding>)
  {
    && DestsApart(bs)
    && (forall i :: 0 <= i < |bs| ==> bs[i].source in s.files)
    && (forall i :: 0 <= i < |bs| ==> bs[i].dest !in s.dirs)
    && (forall i :: 0 <= i < |bs| ==> Ancestors(bs[i].dest) !! s.files.Keys)
    && (forall i, j :: 0 <= i < |bs| && 0 <= j < |bs| && i != j ==> bs[i].dest !in Ancestors(bs[j].dest))
  }

  /** When the bindings can all be copied, `Install`'s copy loop does not
      raise. */
  lemma {:induction false} CopyAllSucceeds(s: Store, bs: seq<Binding>)
    decreases |bs|
    requires s.Valid() && CanInstall(s, bs)
    ensures CopyAll(s, bs).outcome.Done?
  {
    if bs != [] {
      var c := bs[0].CopyRun(s);
      assert c.outcome.Done?;
      var t := c.store;
      var rest := bs[1..];
      assert forall i :: 0 <= i < |rest| ==> rest[i] == bs[i + 1];
      assert CanInstall(t, rest) by {
        forall i | 0 <= i < |rest| ensures rest[i].dest !in t.dirs {
          assert bs[i + 1].dest !in Ancestors(bs[0].dest);
        }
        forall i | 0 <= i < |rest| ensures Ancestors(rest[i].dest) !! t.files.Keys {
          assert bs[0].dest !in Ancestors(bs[i + 1].dest);
          assert t.files.Keys == s.files.Keys + {bs[0].dest};
        }
        forall i, j | 0 <= i < |rest| && 0 <= j < |rest| && i != j
          ensures rest[i].dest !in Ancestors(rest[j].dest)
        {
          assert bs[i + 1].dest !in Ancestors(bs[j + 1].dest);
        }
        forall i, j | 0 <= i < j < |rest| ensures rest[i].dest != rest[j].dest {
          assert bs[i + 1].dest != bs[j + 1].dest;
        }
      }
      CopyAllSucceeds(t, rest);
    }
  }

  /** The tail of bindings that are apart is apart, and the head's paths
      are none of the tail's destinations. */
  lemma TailApart(bs: seq<Binding>)
    requires bs != [] && DestsApart(bs)
    ensures DestsApart(bs[1..])
    ensures bs[0].dest !in Dests(bs[1..]) && bs[0].source !in Dests(bs[1..])
  {
    var rest := bs[1..];
    assert forall i :: 0 <= i < |rest| ==> rest[i] == bs[i + 1];
    forall p | p in Dests(rest) ensures p != bs[0].dest && p != bs[0].source {
      var i :| 0 <= i < |rest| && rest[i].dest == p;
      assert bs[0].dest != bs[i + 1].dest;
      assert bs[i + 1].dest != bs[0].source;
    }
  }

  /** After a copy loop that did not raise, over bindings that are apart,
      every destination holds a copy of its source. */
  lemma {:induction false} CopyAllSettles(s: Store, bs: seq<Binding>)
    decreases |bs|
    requires DestsApart(bs) && CopyAll(s, bs).outcome.Done?
    ensures forall i :: 0 <= i < |bs| ==> Settled(CopyAll(s, bs).store, bs[i])
  {
    if bs != [] {
      var t := bs[0].CopyRun(s).store;
      var rest := bs[1..];
      TailApart(bs);
      CopyAllSettles(t, rest);
      CopyAllFrame(t, rest);
      var u := CopyAll(t, rest).store;
      assert Settled(t, bs[0]);
      assert Settled(u, bs[0]);
      forall i | 0 < i < |bs| ensures Settled(u, bs[i]) {
        assert bs[i] == rest[i - 1];
      }
    }
  }

  /** A copy of a binding that is already settled changes nothing. */
  lemma CopySettledIsNoOp(t: Store, b: Binding)
    requires t.Valid() && Settled(t, b) && b.source != b.dest
    ensures b.CopyRun(t) == Run(t, Done)
  {
    assert Ancestors(b.dest) <= t.dirs;
    var c := b.CopyRun(t);
    assert c.store.files == t.files;
    assert c.store.dirs == t.dirs;
  }

  lemma {:induction false} CopyAllSettledIsNoOp(t: Store, bs: seq<Binding>)
    decreases |bs|
    requires t.Valid()
    requires forall i :: 0 <= i < |bs| ==> Settled(t, bs[i]) && bs[i].source != bs[i].dest
    ensures CopyAll(t, bs) == Run(t, Done)
  {
    if bs != [] {
      CopySettledIsNoOp(t, bs[0]);
      assert forall i :: 0 <= i < |bs[1..]| ==> bs[1..][i] == bs[i + 1];
      CopyAllSettledIsNoOp(t, bs[1..]);
    }
  }

  /** A settled binding whose paths are files matches. */
  lemma SettledAllMatch(t: Store, bs: seq<Binding>)
    requires t.Valid()
    requires forall i :: 0 <= i < |bs| ==> Settled(t, bs[i])
    ensures AllMatch(t, bs) == Ok(true)
  {
    AllMatchSpec(t, bs);
    forall i | 0 <= i < |bs| ensures bs[i].IsMatch(t) == Ok(true) {
      assert bs[i].dest !in t.dirs && bs[i].source !in t.dirs;
    }
  }

  /** `Install` over bindings that can all be copied ends with the flag set:
      every destination then matches its source. */
  lemma InstallEstablishesInstalled(s: Store, bs: seq<Binding>, flag: bool)
    requires s.Valid() && CanInstall(s, bs)
    ensures InstallRun(s, bs, flag) == ModRun(CopyAll(s, bs).store, true, Done)
  {
    CopyAllSucceeds(s, bs);
    CopyAllSettles(s, bs);
    CopyAllFrame(s, bs);
    SettledAllMatch(CopyAll(s, bs).store, bs);
  }

  /** Whenever `Install`'s copies all succeed over bindings that are apart,
      the flag is set; and a second `Install` leaves the store as it is. */
  lemma InstallIsIdempotent(s: Store, bs: seq<Binding>, flag: bool, flag2: bool)
    requires s.Valid() && DestsApart(bs) && CopyAll(s, bs).outcome.Done?
    ensures InstallRun(s, bs, flag) == ModRun(CopyAll(s, bs).store, true, Done)
    ensures var t := CopyAll(s, bs).store;
      InstallRun(t, bs, flag2) == ModRun(t, true, Done)
  {
    var t := CopyAll(s, bs).store;
    CopyAllSettles(s, bs);
    CopyAllFrame(s, bs);
    SettledAllMatch(t, bs);
    CopyAllSettledIsNoOp(t, bs);
  }

  /** After an `Uninstall` whose deletes all succeed, the flag is set iff no
      source exists either (in particular with zero bindings); when no
      destination is another binding's source, that is iff no source
      existed before. */
  lemma UninstallFlag(s: Store, bs: seq<Binding>, flag: bool)
    requires DeleteAll(s, bs).outcome.Done?
    ensures var t := DeleteAll(s, bs).store;
      UninstallRun(s, bs, flag) == ModRun(t, true, Done) <==>
        forall i :: 0 <= i < |bs| ==> !t.Exists(bs[i].source)
    ensures var t := DeleteAll(s, bs).store;
      DestsApart(bs) ==>
        (UninstallRun(s, bs, flag) == ModRun(t, true, Done) <==>
          forall i :: 0 <= i < |bs| ==> !s.Exists(bs[i].source))
  {
    var t := DeleteAll(s, bs).store;
    var m := AllMatch(t, bs);
    DeleteAllFrame(s, bs);
    AllMatchSpec(t, bs);
    if forall i :: 0 <= i < |bs| ==> !t.Exists(bs[i].source) {
      forall i | 0 <= i < |bs| ensures bs[i].IsMatch(t) == Ok(true) {
        assert !t.Exists(bs[i].dest);
      }
    } else {
      var i :| 0 <= i < |bs| && t.Exists(bs[i].source);
      assert !t.Exists(bs[i].dest);
      assert bs[i].IsMatch(t) != Ok(true);
      if m.Err? {
        var k :| 0 <= k < |bs| && m == bs[k].IsMatch(t);
        assert bs[k].IsMatch(t).Err?;
      }
    }
    if DestsApart(bs) {
      forall i | 0 <= i < |bs| ensures t.Exists(bs[i].source) <==> s.Exists(bs[i].source) {
        assert bs[i].source !in Dests(bs);
      }
    }
  }

  /** Deleting destinations that are already absent changes nothing. */
  lemma {:induction false} DeleteAbsentIsNoOp(t: Store, bs: seq<Binding>)
    decreases |bs|
    requires forall i :: 0 <= i < |bs| ==> !t.Exists(bs[i].dest)
    ensures DeleteAll(t, bs) == Run(t, Done)
  {
    if bs != [] {
      assert forall i :: 0 <= i < |bs[1..]| ==> bs[1..][i] == bs[i + 1];
      DeleteAbsentIsNoOp(t, bs[1..]);
    }
  }

  /** A second `Uninstall` changes nothing. */
  lemma UninstallIsIdempotent(s: Store, bs: seq<Binding>, flag: bool)
    requires DeleteAll(s, bs).outcome.Done?
    ensures var t := DeleteAll(s, bs).store;
      DeleteAll(t, bs) == Run(t, Done) && UninstallRun(t, bs, flag) == Recheck(t, bs, flag)
  {
    DeleteAllFrame(s, bs);
    DeleteAbsentIsNoOp(DeleteAll(s, bs).store, bs);
  }

  /** Files that a copy and then a delete of the paths `d` leave alone are
      as they were, and the paths `d` are gone. */
  lemma CopyDeleteFiles(s: map<Path, Bytes>, c: map<Path, Bytes>, u: map<Path, Bytes>, d: set<Path>)
    requires forall p :: p !in d ==> (p in c <==> p in s) && (p in s ==> c[p] == s[p])
    requires forall p :: p in u ==> p in c && u[p] == c[p]
    requires forall p :: p !in d && p in c ==> p in u
    requires forall p :: p in d ==> p !in u
    ensures u == s - d
  {
  }

  /** `Install` followed by `Uninstall` leaves exactly the files that were
      there before minus the destinations: files the mod did not touch are
      as they were, and the destinations are absent, even those that existed
      before the install. The directories the install created, exactly
      those on the way to a destination, remain. */
  lemma InstallThenUninstall(s: Store, bs: seq<Binding>)
    requires s.Valid() && CanInstall(s, bs)
    ensures var c := CopyAll(s, bs).store;
      var u := DeleteAll(c, bs);
      && u.outcome.Done?
      && u.store.files == s.files - Dests(bs)
      && u.store.dirs == c.dirs == s.dirs + DestAncestors(bs)
  {
    CopyAllSucceeds(s, bs);
    CopyAllSettles(s, bs);
    CopyAllFrame(s, bs);
    var c := CopyAll(s, bs).store;
    assert forall i :: 0 <= i < |bs| ==> bs[i].dest !in c.dirs;
    var u := DeleteAll(c, bs);
    DeleteAllFrame(c, bs);
    forall p | p in Dests(bs) ensures p !in u.store.files {
      var i :| 0 <= i < |bs| && bs[i].dest == p;
    }
    CopyDeleteFiles(s.files, c.files, u.store.files, Dests(bs));
  }

  /** A mod: its directory, the game root, the variant, its bindings and the
      cached `mInstalled` flag. */
  class Mod {
    const path: Path
    const name: string
    const root: Path
    const variant: Variant
    const bindings: seq<Binding>
    var installed: bool

    /** `ReFrameworkApplication`, before its closing recheck. */
    constructor Loader(inPath: Path, root: Path)
      ensures path == inPath && name == Name(inPath) && this.root == root
      ensures variant == LoaderApplication && bindings == LoaderBindings(inPath, root)
      ensures !installed
    {
      path := inPath;
      name := Name(inPath);
      this.root := root;
      variant := LoaderApplication;
      bindings := LoaderBindings(inPath, root);
      installed := false;
    }

    /** `ReFrameworkModController`, before its closing recheck. */
    constructor FrameworkPlugins(inPath: Path, root: Path, fs: FileSystem, order: seq<Path>)
      ensures path == inPath && name == Name(inPath) && this.root == root
      ensures variant == FrameworkBundle
      ensures bindings == BundleBindings(fs.State(), order, inPath, FrameworkMarker, root)
      ensures !installed
    {
      path := inPath;
      name := Name(inPath);
      this.root := root;
      variant := FrameworkBundle;
      var files := EnumerateBundle(fs, order, inPath, FrameworkMarker, root);
      bindings := files;
      installed := false;
    }

    /** `FirstNativeModController`, before its closing recheck. */
    constructor NativeOverrides(inPath: Path, root: Path, fs: FileSystem, order: seq<Path>)
      ensures path == inPath && name == Name(inPath) && this.root == root
      ensures variant == NativeBundle
      ensures bindings == BundleBindings(fs.State(), order, inPath, NativeMarker, root)
      ensures !installed
    {
      path := inPath;
      name := Name(inPath);
      this.root := root;
      variant := NativeBundle;
      var files := EnumerateBundle(fs, order, inPath, NativeMarker, root);
      bindings := files;
      installed := false;
    }

    /** `__check_installed__`: the loop with early return. */
    method CheckInstalled(fs: FileSystem) returns (r: Outcome)
      modifies this`installed
      ensures ModRun(fs.State(), installed, r) == Recheck(fs.State(), bindings, old(installed))
    {
      var i := 0;
      while i < |bindings|
        invariant 0 <= i <= |bindings|
        invariant installed == old(installed)
        invariant AllMatch(fs.State(), bindings) == AllMatch(fs.State(), bindings[i..])
      {
        assert bindings[i..][1..] == bindings[i + 1..];
        var m := bindings[i].IsMatch(fs.State());
        match m {
          case Err(e) =>
            return Failed(e);
          case Ok(false) =>
            installed := false;
            return Done;
          case Ok(true) =>
        }
        i := i + 1;
      }
      installed := true;
      r := Done;
    }

    /** `Install`: copy every binding in order, then recheck. */
    method Install(fs: FileSystem) returns (r: Outcome)
      requires fs.Valid()
      modifies fs, this`installed
      ensures fs.Valid()
      ensures ModRun(fs.State(), installed, r) == InstallRun(old(fs.State()), bindings, old(installed))
    {
      var i := 0;
      while i < |bindings|
        invariant 0 <= i <= |bindings| && fs.Valid()
        invariant installed == old(installed)
        invariant CopyAll(old(fs.State()), bindings) == CopyAll(fs.State(), bindings[i..])
      {
        assert bindings[i..][1..] == bindings[i + 1..];
        r := bindings[i].Copy(fs);
        if r.Failed? {
          return;
        }
        i := i + 1;
      }
      r := CheckInstalled(fs);
    }

    /** `Uninstall`: delete every binding's destination in order, then
        recheck. */
    method Uninstall(fs: FileSystem) returns (r: Outcome)
      requires fs.Valid()
      modifies fs, this`installed
      ensures fs.Valid()
      ensures ModRun(fs.State(), installed, r) == UninstallRun(old(fs.State()), bindings, old(installed))
    {
      var i := 0;
      while i < |bindings|
        invariant 0 <= i <= |bindings| && fs.Valid()
        invariant installed == old(installed)
        invariant DeleteAll(old(fs.State()), bindings) == DeleteAll(fs.State(), bindings[i..])
      {
        assert bindings[i..][1..] == bindings[i + 1..];
        r := bindings[i].Delete(fs);
        if r.Failed? {
          return;
        }
        i := i + 1;
      }
      r := CheckInstalled(fs);
    }
  }
}
