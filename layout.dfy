/** Which bindings a mod directory produces: the enumeration done by the
    constructors of `ReFrameworkApplication`, `ReFrameworkModController` and
    `FirstNativeModController` in main.py. */
module Layout {
  import opened FileStore
  import opened Files

  /** The directory name of the loader mod and the library it installs. */
  const LoaderName := "REFramework"
  const LoaderLibrary := "dinput8.dll"
  /** The marker subdirectories of the two bundle variants. */
  const FrameworkMarker := "reframework"
  const NativeMarker := "natives"

  /** The loader's single binding: `inPath/dinput8.dll` to
      `root/dinput8.dll`, whatever the directory holds. */
  function LoaderBindings(inPath: Path, root: Path): (r: seq<Binding>)
    ensures |r| == 1 && Name(r[0].source) == Name(r[0].dest) == LoaderLibrary
    ensures IsChild(inPath, r[0].source) && IsChild(root, r[0].dest)
  {
    [Binding(inPath + [LoaderLibrary], root + [LoaderLibrary])]
  }

  /** One binding per entry of `entries` that is not a directory, in order;
      the destination is `root` joined with the entry's path relative to
      `inPath`. */
  function Relocate(s: Store, entries: seq<Path>, inPath: Path, root: Path): (r: seq<Binding>)
    requires forall f :: f in entries ==> IsBelow(inPath, f)
    ensures |r| <= |entries|
    ensures forall b :: b in r <==>
      b.source in entries && b.source !in s.dirs && IsBelow(inPath, b.source) &&
      b.dest == root + b.source[|inPath|..]
  {
    if entries == [] then []
    else
      var f := entries[|entries| - 1];
      assert f in entries && IsBelow(inPath, f);
      var front := Relocate(s, entries[..|entries| - 1], inPath, root);
      if f in s.dirs then front else front + [Binding(f, root + f[|inPath|..])]
  }

  /** Every entry below the marker subdirectory lies below the mod
      directory. */
  lemma DescendantsBelow(order: seq<Path>, inPath: Path, marker: string, entries: seq<Path>)
    requires entries == Descendants(order, inPath + [marker])
    ensures forall f :: f in entries ==> IsBelow(inPath, f)
  {
    forall f | f in entries ensures IsBelow(inPath, f) {
      assert f[..|inPath|] == (f[..|inPath| + 1])[..|inPath|];
    }
  }

  /** The bindings of a bundle whose marker subdirectory is `marker`: every
      non-directory entry of `inPath/marker`'s recursive glob, in `order`. */
  function BundleBindings(s: Store, order: seq<Path>, inPath: Path, marker: string, root: Path): seq<Binding>
  {
    var entries := Descendants(order, inPath + [marker]);
    DescendantsBelow(order, inPath, marker, entries);
    Relocate(s, entries, inPath, root)
  }

  /** The recursive listing loop of the bundle constructors. */
  method EnumerateBundle(fs: FileSystem, order: seq<Path>, inPath: Path, marker: string, root: Path)
    returns (files: seq<Binding>)
    ensures files == BundleBindings(fs.State(), order, inPath, marker, root)
  {
    var entries := Descendants(order, inPath + [marker]);
    DescendantsBelow(order, inPath, marker, entries);
    files := [];
    for k := 0 to |entries|
      invariant files == Relocate(fs.State(), entries[..k], inPath, root)
    {
      assert entries[..k + 1][..k] == entries[..k];
      var f := entries[k];
      assert f in entries && IsBelow(inPath, f);
      if f in fs.dirs {
        continue;
      }
      files := files + [Binding(f, root + f[|inPath|..])];
    }
    assert entries[..|entries|] == entries;
  }

  /** Removing the common directory `inPath` from two paths below it keeps
      them apart. */
  lemma RelativeInjective(inPath: Path, root: Path, a: Path, b: Path)
    requires IsBelow(inPath, a) && IsBelow(inPath, b)
    requires root + a[|inPath|..] == root + b[|inPath|..]
    ensures a == b
  {
    assert a[|inPath|..] == (root + a[|inPath|..])[|root|..];
    assert b[|inPath|..] == (root + b[|inPath|..])[|root|..];
    assert a == a[..|inPath|] + a[|inPath|..];
    assert b == b[..|inPath|] + b[|inPath|..];
  }

  lemma {:induction false} RelocateNoDuplicates(s: Store, entries: seq<Path>, inPath: Path, root: Path)
    requires forall f :: f in entries ==> IsBelow(inPath, f)
    requires NoDuplicates(entries)
    ensures NoDuplicates(Relocate(s, entries, inPath, root))
  {
    if entries != [] {
      var n := |entries| - 1;
      var front := entries[..n];
      assert forall f :: f in front ==> f in entries;
      RelocateNoDuplicates(s, front, inPath, root);
      if entries[n] !in s.dirs {
        assert entries[n] in entries && IsBelow(inPath, entries[n]);
        var b := Binding(entries[n], root + entries[n][|inPath|..]);
        var r := Relocate(s, front, inPath, root);
        forall i | 0 <= i < |r| ensures r[i] != b {
          assert r[i] in r;
        }
      }
    }
  }

  /** The bundle variants list each non-directory entry found under the
      marker subdirectory exactly once, and nothing else: a binding is
      produced iff its source is a file below `inPath/marker` and its
      destination is `root` joined with the source's path relative to
      `inPath`, so the marker segment is kept. */
  lemma BundleMembership(s: Store, order: seq<Path>, inPath: Path, marker: string, root: Path, b: Binding)
    requires s.Valid() && IsListing(s, order)
    ensures b in BundleBindings(s, order, inPath, marker, root) <==>
      && b.source in s.files
      && IsBelow(inPath + [marker], b.source)
      && b.dest == root + [marker] + b.source[|inPath| + 1..]
    ensures NoDuplicates(BundleBindings(s, order, inPath, marker, root))
  {
    var dir := inPath + [marker];
    var entries := Descendants(order, dir);
    DescendantsBelow(order, inPath, marker, entries);
    if IsBelow(dir, b.source) {
      assert b.source[|inPath|..] == [marker] + b.source[|inPath| + 1..] by {
        assert b.source[..|dir|] == dir;
        assert b.source[|inPath|] == dir[|inPath|];
      }
    }
    DescendantsNoDuplicates(order, dir);
    RelocateNoDuplicates(s, entries, inPath, root);
  }

  /** Distinct bindings of a bundle have distinct destinations, and no
      destination lies on the way to another: what `Install` needs so that
      its copies do not interfere. */
  lemma BundleDestsIndependent(s: Store, order: seq<Path>, inPath: Path, marker: string, root: Path, i: nat, j: nat)
    requires s.Valid() && IsListing(s, order)
    requires var bs := BundleBindings(s, order, inPath, marker, root);
      i < |bs| && j < |bs| && i != j
    ensures var bs := BundleBindings(s, order, inPath, marker, root);
      bs[i].dest != bs[j].dest && bs[i].dest !in Ancestors(bs[j].dest)
  {
    var bs := BundleBindings(s, order, inPath, marker, root);
    var dir := inPath + [marker];
    BundleMembership(s, order, inPath, marker, root, bs[i]);
    BundleMembership(s, order, inPath, marker, root, bs[j]);
    assert bs[i] in bs && bs[j] in bs;
    var a, c := bs[i].source, bs[j].source;
    assert IsBelow(inPath, a) && IsBelow(inPath, c) by {
      assert a[..|inPath|] == (a[..|dir|])[..|inPath|];
      assert c[..|inPath|] == (c[..|dir|])[..|inPath|];
    }
    assert bs[i].dest == root + a[|inPath|..] && bs[j].dest == root + c[|inPath|..] by {
      assert a[|inPath|..] == [marker] + a[|inPath| + 1..] by {
        assert a[|inPath|] == dir[|inPath|];
      }
      assert c[|inPath|..] == [marker] + c[|inPath| + 1..] by {
        assert c[|inPath|] == dir[|inPath|];
      }
    }
    if bs[i].dest == bs[j].dest {
      RelativeInjective(inPath, root, a, c);
      assert false;
    }
    if bs[i].dest in Ancestors(bs[j].dest) {
      var k :| 0 <= k < |bs[j].dest| && bs[i].dest == bs[j].dest[..k];
      var m := k - |root| + |inPath|;
      assert a == c[..m] by {
        assert a == a[..|inPath|] + a[|inPath|..];
        assert c[..m] == c[..|inPath|] + c[|inPath|..m];
        assert a[|inPath|..] == bs[i].dest[|root|..];
        assert c[|inPath|..m] == bs[j].dest[|root|..k];
      }
      assert false;
    }
  }
}
