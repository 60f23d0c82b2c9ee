/** The classifier `FactoryModController.Create` in main.py: which variant a
    mod directory is, decided from its name and its children. */
module Factory {
  import opened FileStore
  import opened Files
  import opened Layout
  import opened Descriptor

  predicate IsMarker(n: string)
  {
    n == NativeMarker || n == FrameworkMarker
  }

  /** The variant a marker name selects. */
  function MarkerVariant(n: string): Variant
  {
    if n == NativeMarker then NativeBundle else FrameworkBundle
  }

  /** The loop of `Create` over the children: the first child, in iteration
      order, named `natives` or `reframework` decides; there is no fixed
      priority between the two. */
  function FirstMarker(names: seq<string>): Option<Variant>
  {
    if names == [] then None
    else if IsMarker(names[0]) then Some(MarkerVariant(names[0]))
    else FirstMarker(names[1..])
  }

  /** No variant is picked exactly when no child is a marker, and a marker
      never picks the loader. */
  lemma {:induction false} FirstMarkerNone(names: seq<string>)
    ensures FirstMarker(names) == None <==> forall k :: 0 <= k < |names| ==> !IsMarker(names[k])
    ensures FirstMarker(names) != Some(LoaderApplication)
  {
    if names != [] {
      FirstMarkerNone(names[1..]);
      assert forall k :: 1 <= k < |names| ==> names[k] == names[1..][k - 1];
    }
  }

  /** The first marker child decides, whatever comes after it. */
  lemma {:induction false} FirstMarkerAt(names: seq<string>, k: nat)
    requires k < |names| && IsMarker(names[k])
    requires forall j :: 0 <= j < k ==> !IsMarker(names[j])
    ensures FirstMarker(names) == Some(MarkerVariant(names[k]))
  {
    if k > 0 {
      assert names[1..][k - 1] == names[k];
      FirstMarkerAt(names[1..], k - 1);
    }
  }

  /** The names of a sequence of paths. */
  function Names(ps: seq<Path>): (r: seq<string>)
    ensures |r| == |ps| && forall i :: 0 <= i < |ps| ==> r[i] == Name(ps[i])
  {
    seq(|ps|, i requires 0 <= i < |ps| => Name(ps[i]))
  }

  /** The variant `Create` picks for a directory called `name` whose
      children, in iteration order, are called `names`; None when it picks
      none. */
  function Classify(name: string, names: seq<string>): Option<Variant>
  {
    if name == LoaderName then Some(LoaderApplication) else FirstMarker(names)
  }

  /** A directory called `REFramework` is the loader whatever it holds, and
      nothing else is; any other directory is a bundle exactly when one of
      its children is a marker. */
  lemma ClassifySpec(name: string, names: seq<string>)
    ensures Classify(name, names) == Some(LoaderApplication) <==> name == LoaderName
    ensures name != LoaderName ==>
      (Classify(name, names) == None <==> forall k :: 0 <= k < |names| ==> !IsMarker(names[k]))
  {
    FirstMarkerNone(names);
  }

  /** For any other directory the first marker child decides. */
  lemma ClassifyFirstMarker(name: string, names: seq<string>, k: nat)
    requires name != LoaderName && k < |names| && IsMarker(names[k])
    requires forall j :: 0 <= j < k ==> !IsMarker(names[j])
    ensures Classify(name, names) == Some(MarkerVariant(names[k]))
  {
    FirstMarkerAt(names, k);
  }

  /** The classification of directory `dir` of the store listed by `order`. */
  function ClassifyDir(order: seq<Path>, dir: Path): Option<Variant>
  {
    Classify(Name(dir), Names(Children(order, dir)))
  }

  /** The bindings the constructor of variant `v` enumerates. */
  function VariantBindings(s: Store, order: seq<Path>, v: Variant, inPath: Path, root: Path): seq<Binding>
  {
    match v
    case LoaderApplication => LoaderBindings(inPath, root)
    case FrameworkBundle => BundleBindings(s, order, inPath, FrameworkMarker, root)
    case NativeBundle => BundleBindings(s, order, inPath, NativeMarker, root)
  }

  /** Which variant wins depends on the order of the children alone. */
  lemma MarkerOrderDecides()
    ensures Classify("MyMod", [FrameworkMarker, NativeMarker]) == Some(FrameworkBundle)
    ensures Classify("MyMod", [NativeMarker, FrameworkMarker]) == Some(NativeBundle)
    ensures Classify(LoaderName, [NativeMarker]) == Some(LoaderApplication)
    ensures Classify("MyMod", ["readme.txt"]) == None
  {
  }

  /** The closing `__check_installed__` of a constructor, whose exception
      escapes `Create`. */
  method Finish(m: Mod, fs: FileSystem) returns (r: Result<Option<Mod>>)
    modifies m`installed
    ensures var c := Recheck(fs.State(), m.bindings, false);
      old(m.installed) == false ==>
        (if c.outcome.Done? then r == Ok(Some(m)) && m.installed == c.installed
         else r == Err(c.outcome.error))
  {
    var o := m.CheckInstalled(fs);
    if o.Done? {
      r := Ok(Some(m));
    } else {
      r := Err(o.error);
    }
  }

  /** `FactoryModController.Create`: classify, construct the variant, and
      run its closing recheck. */
  method Create(inPath: Path, root: Path, fs: FileSystem, order: seq<Path>)
    returns (r: Result<Option<Mod>>)
    ensures var v := ClassifyDir(order, inPath);
      match r
      case Ok(None) => v == None
      case Ok(Some(m)) =>
        && v.Some? && fresh(m)
        && m.path == inPath && m.name == Name(inPath) && m.root == root
        && m.variant == v.value
        && m.bindings == VariantBindings(fs.State(), order, v.value, inPath, root)
        && Recheck(fs.State(), m.bindings, false) == ModRun(fs.State(), m.installed, Done)
      case Err(e) =>
        && v.Some?
        && Recheck(fs.State(), VariantBindings(fs.State(), order, v.value, inPath, root), false).outcome == Failed(e)
  {
    if LoaderName == Name(inPath) {
      var m := new Mod.Loader(inPath, root);
      r := Finish(m, fs);
      return;
    }
    var children := Children(order, inPath);
    var names := Names(children);
    for k := 0 to |children|
      invariant FirstMarker(names) == FirstMarker(names[k..])
    {
      assert names[k..][1..] == names[k + 1..];
      var mod := children[k];
      if NativeMarker == Name(mod) {
        var m := new Mod.NativeOverrides(inPath, root, fs, order);
        r := Finish(m, fs);
        return;
      }
      if FrameworkMarker == Name(mod) {
        var m := new Mod.FrameworkPlugins(inPath, root, fs, order);
        r := Finish(m, fs);
        return;
      }
    }
    r := Ok(None);
  }
}
