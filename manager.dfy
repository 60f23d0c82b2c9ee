/** The logic of `ModManagerWindow` in main.py with the widgets stripped: the
    companion-tool filter of `RefreshModList`, and the reconciliation rule
    of `Go` over (checked, installed) pairs. */
module Manager {
  import opened FileStore
  import opened Files
  import opened Layout
  import opened Descriptor
  import opened Factory

  /** Mod directories whose name contains this are not listed. */
  const CompanionTool := "HunterPie"

  /** Python's `sub in s` on strings: `sub` occurs in `s` at some offset. */
  predicate Contains(s: string, sub: string)
  {
    |sub| <= |s| && (s[..|sub|] == sub || Contains(s[1..], sub))
  }

  predicate IsListed(p: Path)
  {
    !Contains(Name(p), CompanionTool)
  }

  /** The mod directories `RefreshModList` turns into list items, in order. */
  function Listed(children: seq<Path>): (r: seq<Path>)
    ensures |r| <= |children|
  {
    if children == [] then []
    else
      var front := Listed(children[..|children| - 1]);
      var p := children[|children| - 1];
      if IsListed(p) then front + [p] else front
  }

  /** Exactly the children whose name does not mention the companion tool
      are listed. */
  lemma {:induction false} ListedMembers(children: seq<Path>, p: Path)
    ensures p in Listed(children) <==> p in children && IsListed(p)
  {
    if children != [] {
      var n := |children| - 1;
      ListedMembers(children[..n], p);
      assert children == children[..n] + [children[n]];
    }
  }

  /** Why `RefreshModList` stops: a recheck raised, or `Create` returned
      None and the item's `user_data.Installed` dereferenced it. */
  datatype RefreshError = Io(error: IOError) | NoController(path: Path)

  /** `e` is the failure `Create` meets for directory `dir`: None when no
      variant is picked, or the error the chosen variant's closing recheck
      raises. */
  ghost predicate IsRefreshError(s: Store, order: seq<Path>, dir: Path, root: Path, e: RefreshError)
  {
    match e
    case NoController(p) => p == dir && ClassifyDir(order, dir) == None
    case Io(err) =>
      var v := ClassifyDir(order, dir);
      v.Some? && Recheck(s, VariantBindings(s, order, v.value, dir, root), false).outcome == Failed(err)
  }

  /** Controller `m`, whose flag is `installed`, is what `Create` built for
      directory `dir`, with its closing recheck done. */
  ghost predicate BuiltFor(s: Store, order: seq<Path>, m: Mod, installed: bool, dir: Path, root: Path)
  {
    && m.path == dir && m.root == root
    && ClassifyDir(order, dir) == Some(m.variant)
    && m.bindings == VariantBindings(s, order, m.variant, dir, root)
    && Recheck(s, m.bindings, false) == ModRun(s, installed, Done)
  }

  /** Every controller of `mods` is built for the directory at its index in
      `dirs`, with the flag at its index in `flags`. */
  ghost predicate AllBuilt(s: Store, order: seq<Path>, mods: seq<Mod>, flags: seq<bool>, dirs: seq<Path>, root: Path)
  {
    && |mods| == |flags| <= |dirs|
    && forall i {:trigger BuiltFor(s, order, mods[i], flags[i], dirs[i], root)} ::
         0 <= i < |mods| ==> BuiltFor(s, order, mods[i], flags[i], dirs[i], root)
  }

  /** Appending the controller built for the next directory keeps every
      controller built. */
  lemma AllBuiltAppend(s: Store, order: seq<Path>, mods: seq<Mod>, flags: seq<bool>, dirs: seq<Path>,
                       m: Mod, flag: bool, root: Path)
    requires AllBuilt(s, order, mods, flags, dirs, root) && |mods| < |dirs|
    requires BuiltFor(s, order, m, flag, dirs[|mods|], root)
    ensures AllBuilt(s, order, mods + [m], flags + [flag], dirs, root)
  {
    var ms, fs := mods + [m], flags + [flag];
    forall i | 0 <= i < |ms|
      ensures BuiltFor(s, order, ms[i], fs[i], dirs[i], root)
    {
      if i < |mods| {
        assert ms[i] == mods[i] && fs[i] == flags[i];
      }
    }
  }

  /** What `RefreshModList` leaves, as values: with `listed` the mod
      directories to list, one built controller and its check state per
      directory up to the first error, and the error, if any, is the one the
      next directory's `Create` raised or the None it returned. */
  ghost predicate Refreshed(s: Store, order: seq<Path>, listed: seq<Path>, root: Path,
                            mods: seq<Mod>, checked: seq<bool>, failure: Option<RefreshError>)
  {
    && |mods| <= |listed|
    && (failure.None? ==> |mods| == |listed|)
    && AllBuilt(s, order, mods, checked, listed, root)
    && (failure.Some? ==>
          && |mods| < |listed|
          && IsRefreshError(s, order, listed[|mods|], root, failure.value))
  }

  /** The body of `RefreshModList` for one mod directory: `Create`, then the
      item's `user_data.Installed`, which fails on None. */
  method AddController(fs: FileSystem, dir: Path, root: Path, order: seq<Path>)
    returns (m: Option<Mod>, failure: Option<RefreshError>)
    ensures failure.None? <==> m.Some?
    ensures m.Some? ==> fresh(m.value) && BuiltFor(fs.State(), order, m.value, m.value.installed, dir, root)
    ensures failure.Some? ==> IsRefreshError(fs.State(), order, dir, root, failure.value)
  {
    var created := Create(dir, root, fs, order);
    if created.Ok? && created.value.Some? {
      m, failure := created.value, None;
    } else {
      m := None;
      failure := Some(if created.Err? then Io(created.error) else NoController(dir));
    }
  }

  /** `RefreshModList`: one controller and one initial check state per mod
      directory that is listed, in iteration order; the check state is the
      controller's flag. The first error ends the list. Creating a
      controller leaves the store and its listing as they are, so the
      companion-tool filter is applied to the whole listing first. */
  method RefreshModList(fs: FileSystem, modsDir: Path, root: Path, order: seq<Path>)
    returns (mods: seq<Mod>, checked: seq<bool>, failure: Option<RefreshError>)
    ensures Refreshed(fs.State(), order, Listed(Children(order, modsDir)), root, mods, checked, failure)
    ensures forall i :: 0 <= i < |mods| ==> mods[i].installed == checked[i]
    ensures Distinct(mods)
  {
    var listed := Listed(Children(order, modsDir));
    mods, checked, failure := [], [], None;
    for k := 0 to |listed|
      invariant failure.None? && |mods| == k
      invariant AllBuilt(fs.State(), order, mods, checked, listed, root)
      invariant forall i :: 0 <= i < |mods| ==> mods[i].installed == checked[i]
      invariant Distinct(mods)
    {
      var created;
      created, failure := AddController(fs, listed[k], root, order);
      if failure.Some? {
        return;
      }
      var m := created.value;
      AllBuiltAppend(fs.State(), order, mods, checked, listed, m, m.installed, root);
      assert (mods + [m])[..|mods|] == mods;
      DistinctAppend(mods, m);
      mods, checked := mods + [m], checked + [m.installed];
    }
  }

  /** The rows of the window's list: the window inserts each item
      `RefreshModList` yields at row 0, so the last one yielded is on top. */
  function Rows<T>(items: seq<T>): seq<T>
  {
    if items == [] then [] else [items[|items| - 1]] + Rows(items[..|items| - 1])
  }

  /** Row `i` holds the item yielded `i`-th from the end; `Go` therefore
      visits the controllers in the reverse of `RefreshModList`'s order. */
  lemma {:induction false} RowsAt<T>(items: seq<T>, i: nat)
    requires i < |items|
    ensures |Rows(items)| == |items|
    ensures Rows(items)[i] == items[|items| - 1 - i]
  {
    RowsLength(items);
    if i > 0 {
      RowsAt(items[..|items| - 1], i - 1);
    }
  }

  /** The list has one row per item. */
  lemma {:induction false} RowsLength<T>(items: seq<T>)
    ensures |Rows(items)| == |items|
  {
    if items != [] {
      RowsLength(items[..|items| - 1]);
    }
  }

  /** What `Go` does with one item: install a checked item that is not
      installed, uninstall an unchecked one that is, and leave every other
      item alone. */
  datatype Action = InstallMod | UninstallMod | Leave

  function Decide(checked: bool, installed: bool): (a: Action)
    ensures a == Leave <==> checked == installed
    ensures a == InstallMod ==> checked
    ensures a == UninstallMod ==> !checked
  {
    if checked then (if !installed then InstallMod else Leave)
    else (if installed then UninstallMod else Leave)
  }

  /** A controller as `Go` sees it: its bindings and its cached flag. */
  datatype ModState = ModState(bindings: seq<Binding>, installed: bool)

  /** The controllers as `Go` sees them, in order. */
  function Views(mods: seq<Mod>): (r: seq<ModState>)
    reads mods
    ensures |r| == |mods|
  {
    if mods == [] then [] else [ModState(mods[0].bindings, mods[0].installed)] + Views(mods[1..])
  }

  /** The `i`-th view shows the `i`-th controller's bindings and flag. */
  lemma {:induction false} ViewsAt(mods: seq<Mod>, i: nat)
    requires i < |mods|
    ensures Views(mods)[i] == ModState(mods[i].bindings, mods[i].installed)
  {
    if i > 0 {
      ViewsAt(mods[1..], i - 1);
    }
  }

  /** The flags of a sequence of controllers. */
  function Flags(ms: seq<ModState>): (r: seq<bool>)
    ensures |r| == |ms|
  {
    if ms == [] then [] else [ms[0].installed] + Flags(ms[1..])
  }

  /** The `i`-th flag is the `i`-th view's. */
  lemma {:induction false} FlagsAt(ms: seq<ModState>, i: nat)
    requires i < |ms|
    ensures Flags(ms)[i] == ms[i].installed
  {
    if i > 0 {
      FlagsAt(ms[1..], i - 1);
    }
  }

  /** Flags of a sequence extended by one view. */
  lemma {:induction false} FlagsSnoc(ms: seq<ModState>, m: ModState)
    ensures Flags(ms + [m]) == Flags(ms) + [m.installed]
  {
    if ms != [] {
      assert (ms + [m])[1..] == ms[1..] + [m];
      FlagsSnoc(ms[1..], m);
    } else {
      assert [m][1..] == [];
    }
  }

  /** One item of `Go`. */
  function ReconcileOne(s: Store, m: ModState, checked: bool): ModRun
  {
    match Decide(checked, m.installed)
    case InstallMod => InstallRun(s, m.bindings, m.installed)
    case UninstallMod => UninstallRun(s, m.bindings, m.installed)
    case Leave => ModRun(s, m.installed, Done)
  }

  /** The store, the flags and check states of the items visited so far,
      and the outcome. */
  datatype Pass = Pass(store: Store, installed: seq<bool>, checked: seq<bool>, outcome: Outcome)

  /** `Go` over the first `n` items, in list order: each item's controller
      runs the decision rule and the item's check state becomes the
      controller's flag. An install or uninstall that raises ends the pass:
      that item and the ones after it keep their flags and check states. */
  function GoPrefix(s: Store, ms: seq<ModState>, cs: seq<bool>, n: nat): (r: Pass)
    requires |ms| == |cs| && n <= |ms|
    ensures |r.installed| == |r.checked| == n
    decreases n
  {
    if n == 0 then Pass(s, [], [], Done)
    else
      var p := GoPrefix(s, ms, cs, n - 1);
      if p.outcome.Failed? then
        Pass(p.store, p.installed + [ms[n - 1].installed], p.checked + [cs[n - 1]], p.outcome)
      else
        var one := ReconcileOne(p.store, ms[n - 1], cs[n - 1]);
        Pass(one.store, p.installed + [one.installed],
             p.checked + [if one.outcome.Failed? then cs[n - 1] else one.installed], one.outcome)
  }

  /** The whole of `Go`. */
  function Reconcile(s: Store, ms: seq<ModState>, cs: seq<bool>): Pass
    requires |ms| == |cs|
  {
    GoPrefix(s, ms, cs, |ms|)
  }

  /** After a pass that did not raise, every visited item's check state
      equals its controller's flag. */
  lemma {:induction false} GoPrefixSyncs(s: Store, ms: seq<ModState>, cs: seq<bool>, n: nat)
    requires |ms| == |cs| && n <= |ms|
    decreases n
    ensures var r := GoPrefix(s, ms, cs, n); r.outcome.Done? ==> r.checked == r.installed
  {
    if n > 0 {
      GoPrefixSyncs(s, ms, cs, n - 1);
    }
  }

  /** Every item's check state is either the one it had or its controller's
      flag. */
  lemma {:induction false} GoPrefixChecked(s: Store, ms: seq<ModState>, cs: seq<bool>, n: nat)
    requires |ms| == |cs| && n <= |ms|
    decreases n
    ensures var r := GoPrefix(s, ms, cs, n);
      forall j :: 0 <= j < n ==> r.checked[j] == cs[j] || r.checked[j] == r.installed[j]
  {
    if n > 0 {
      GoPrefixChecked(s, ms, cs, n - 1);
    }
  }

  /** An item whose check state agrees with its flag is left alone. */
  lemma ReconcileOneInSync(s: Store, m: ModState, checked: bool)
    requires checked == m.installed
    ensures ReconcileOne(s, m, checked) == ModRun(s, m.installed, Done)
  {
  }

  /** An item whose check state already agrees with its controller's flag
      keeps both. */
  lemma {:induction false} GoPrefixLeavesInSync(s: Store, ms: seq<ModState>, cs: seq<bool>, n: nat)
    requires |ms| == |cs| && n <= |ms|
    decreases n
    ensures var r := GoPrefix(s, ms, cs, n);
      forall j :: 0 <= j < n && cs[j] == ms[j].installed ==>
        r.installed[j] == ms[j].installed && r.checked[j] == cs[j]
  {
    if n > 0 {
      GoPrefixLeavesInSync(s, ms, cs, n - 1);
      var p, r := GoPrefix(s, ms, cs, n - 1), GoPrefix(s, ms, cs, n);
      if p.outcome.Done? && cs[n - 1] == ms[n - 1].installed {
        ReconcileOneInSync(p.store, ms[n - 1], cs[n - 1]);
      }
      forall j | 0 <= j < n - 1
        ensures r.installed[j] == p.installed[j] && r.checked[j] == p.checked[j]
      {
      }
    }
  }

  /** When every check state already agrees with its flag, the pass
      changes nothing. */
  lemma {:induction false} GoPrefixInSyncIsNoOp(s: Store, ms: seq<ModState>, cs: seq<bool>, n: nat)
    requires |ms| == |cs| && n <= |ms|
    requires forall i :: 0 <= i < |ms| ==> cs[i] == ms[i].installed
    decreases n
    ensures GoPrefix(s, ms, cs, n) == Pass(s, cs[..n], cs[..n], Done)
  {
    if n > 0 {
      GoPrefixInSyncIsNoOp(s, ms, cs, n - 1);
      ReconcileOneInSync(s, ms[n - 1], cs[n - 1]);
      assert cs[..n] == cs[..n - 1] + [cs[n - 1]];
    }
  }

  /** The reconciliation rule as a whole: after `Go` completes, every check
      state equals its controller's flag; any item's check state is either
      the one it had or its controller's flag; an item already in sync keeps
      its flag and check state; and when all are in sync, nothing changes. */
  lemma ReconcileSyncs(s: Store, ms: seq<ModState>, cs: seq<bool>)
    requires |ms| == |cs|
    ensures var r := Reconcile(s, ms, cs);
      && (r.outcome.Done? ==> r.checked == r.installed)
      && (forall i :: 0 <= i < |ms| ==> r.checked[i] == cs[i] || r.checked[i] == r.installed[i])
      && (forall i :: 0 <= i < |ms| && cs[i] == ms[i].installed ==>
            r.installed[i] == ms[i].installed && r.checked[i] == cs[i])
      && ((forall i :: 0 <= i < |ms| ==> cs[i] == ms[i].installed) ==> r == Pass(s, cs, cs, Done))
  {
    GoPrefixSyncs(s, ms, cs, |ms|);
    GoPrefixChecked(s, ms, cs, |ms|);
    GoPrefixLeavesInSync(s, ms, cs, |ms|);
    if forall i :: 0 <= i < |ms| ==> cs[i] == ms[i].installed {
      GoPrefixInSyncIsNoOp(s, ms, cs, |ms|);
      assert cs[..|ms|] == cs;
    }
  }

  /** Once an item has raised, the items after it keep their flags and
      check states and the store stays as it is. */
  lemma {:induction false} GoPrefixStopped(s: Store, ms: seq<ModState>, cs: seq<bool>, n: nat, m: nat)
    requires |ms| == |cs| && n <= m <= |ms|
    requires GoPrefix(s, ms, cs, n).outcome.Failed?
    decreases m
    ensures var p, q := GoPrefix(s, ms, cs, n), GoPrefix(s, ms, cs, m);
      q == Pass(p.store, p.installed + Flags(ms[n..m]), p.checked + cs[n..m], p.outcome)
  {
    var p := GoPrefix(s, ms, cs, n);
    if m == n {
      assert ms[n..m] == [] && cs[n..m] == [];
      assert p.installed + [] == p.installed && p.checked + [] == p.checked;
    } else {
      GoPrefixStopped(s, ms, cs, n, m - 1);
      SliceSnoc(ms, n, m);
      SliceSnoc(cs, n, m);
      FlagsSnoc(ms[n..m - 1], ms[m - 1]);
      SnocAssoc(p.installed, Flags(ms[n..m - 1]), ms[m - 1].installed);
      SnocAssoc(p.checked, cs[n..m - 1], cs[m - 1]);
    }
  }

  /** A slice that ends one element later. */
  lemma SliceSnoc<T>(xs: seq<T>, n: nat, m: nat)
    requires n < m <= |xs|
    ensures xs[n..m] == xs[n..m - 1] + [xs[m - 1]]
  {
  }

  /** Appending one element after a concatenation. */
  lemma SnocAssoc<T>(a: seq<T>, f: seq<T>, x: T)
    ensures a + (f + [x]) == (a + f) + [x]
  {
  }

  /** A pass that raised at item `n - 1` ends with the store and outcome it
      had then; the remaining items keep their flags and check states. */
  lemma ReconcileStopped(s: Store, ms: seq<ModState>, cs: seq<bool>, n: nat)
    requires |ms| == |cs| && n <= |ms|
    requires GoPrefix(s, ms, cs, n).outcome.Failed?
    ensures var p := GoPrefix(s, ms, cs, n);
      Reconcile(s, ms, cs) == Pass(p.store, p.installed + Flags(ms[n..]), p.checked + cs[n..], p.outcome)
  {
    GoPrefixStopped(s, ms, cs, n, |ms|);
    assert ms[n..|ms|] == ms[n..] && cs[n..|cs|] == cs[n..];
  }

  /** The body of `Go` for one item: the decision rule applied to the
      item's check state and its controller's flag. */
  method ReconcileItem(fs: FileSystem, controller: Mod, checked: bool) returns (r: Outcome)
    requires fs.Valid()
    modifies fs, controller`installed
    ensures fs.Valid()
    ensures ModRun(fs.State(), controller.installed, r) ==
      ReconcileOne(old(fs.State()), ModState(controller.bindings, old(controller.installed)), checked)
  {
    r := Done;
    if checked {
      if !controller.installed {
        r := controller.Install(fs);
      }
    } else {
      if controller.installed {
        r := controller.Uninstall(fs);
      }
    }
  }

  /** Replacing the flag of item `i` in "flags so far, then the flags still
      to visit" moves item `i` into the flags so far. */
  lemma FlagsAdvance(done: seq<bool>, x: bool, ms: seq<ModState>, i: nat)
    requires |done| == i < |ms|
    ensures (done + Flags(ms[i..]))[i := x] == (done + [x]) + Flags(ms[i + 1..])
  {
    assert ms[i..][1..] == ms[i + 1..];
  }

  /** The `i`-th and `j`-th controllers are different objects. */
  predicate Apart(mods: seq<Mod>, i: int, j: int)
    requires 0 <= i < |mods| && 0 <= j < |mods|
  {
    mods[i] != mods[j]
  }

  /** No controller appears twice in the list. */
  predicate Distinct(mods: seq<Mod>)
  {
    forall i, j {:trigger Apart(mods, i, j)} :: 0 <= i < j < |mods| ==> Apart(mods, i, j)
  }

  /** A controller that is none of the list's keeps the list distinct. */
  lemma DistinctAppend(mods: seq<Mod>, m: Mod)
    requires Distinct(mods) && m !in mods
    ensures Distinct(mods + [m])
  {
    var ms := mods + [m];
    forall i, j | 0 <= i < j < |ms| ensures Apart(ms, i, j) {
      if j < |mods| {
        assert Apart(mods, i, j);
      } else {
        assert mods[i] in mods;
      }
    }
  }

  /** The list's rows hold distinct controllers when `RefreshModList`
      built distinct ones, which it does. */
  lemma RowsDistinct(mods: seq<Mod>)
    requires Distinct(mods)
    ensures |Rows(mods)| == |mods| && Distinct(Rows(mods))
  {
    RowsLength(mods);
    var rs, n := Rows(mods), |mods|;
    forall i, j | 0 <= i < j < |rs| ensures Apart(rs, i, j) {
      RowsAt(mods, i);
      RowsAt(mods, j);
      assert Apart(mods, n - 1 - j, n - 1 - i);
    }
  }

  /** `Go` for item `i`, after a prefix that did not raise; `current` holds
      every controller's flag before the item, `next` after it. */
  method GoItem(fs: FileSystem, mods: seq<Mod>, controller: Mod, checked: seq<bool>, i: nat,
                ghost s0: Store, ghost v0: seq<ModState>, ghost p: Pass, ghost current: seq<bool>)
    returns (r: Outcome, ghost next: seq<bool>)
    requires fs.Valid() && |v0| == |checked| == |mods| && i < |mods| && mods[i] == controller
    requires Distinct(mods)
    requires GoPrefix(s0, v0, checked, i) == p && p.outcome.Done? && p.store == fs.State()
    requires v0[i].bindings == controller.bindings
    requires current == p.installed + Flags(v0[i..])
    requires forall j :: 0 <= j < |mods| ==> mods[j].installed == current[j]
    modifies fs, controller`installed
    ensures fs.Valid()
    ensures GoPrefix(s0, v0, checked, i + 1) ==
      Pass(fs.State(), p.installed + [controller.installed],
           p.checked + [if r.Failed? then checked[i] else controller.installed], r)
    ensures next == (p.installed + [controller.installed]) + Flags(v0[i + 1..])
    ensures forall j :: 0 <= j < |mods| ==> mods[j].installed == next[j]
  {
    assert v0[i..][0] == v0[i];
    forall j | 0 <= j < |mods| && j != i
      ensures mods[j] != controller
    {
      if j < i { assert Apart(mods, j, i); } else { assert Apart(mods, i, j); }
    }
    r := ReconcileItem(fs, controller, checked[i]);
    FlagsAdvance(p.installed, controller.installed, v0, i);
    next := current[i := controller.installed];
  }

  /** `Go`: for each row of the list (`mods`, in row order, which is
      `Rows` of what `RefreshModList` built), apply the decision rule, then
      set the row's check state to the controller's flag. */
  method Go(fs: FileSystem, mods: seq<Mod>, checked: seq<bool>)
    returns (newChecked: seq<bool>, r: Outcome)
    requires fs.Valid() && |mods| == |checked|
    requires Distinct(mods)
    modifies fs, set i | 0 <= i < |mods| :: mods[i]
    ensures fs.Valid()
    ensures var p := Reconcile(old(fs.State()), old(Views(mods)), checked);
      && fs.State() == p.store && newChecked == p.checked && r == p.outcome
      && (forall i :: 0 <= i < |mods| ==> mods[i].installed == p.installed[i])
  {
    ghost var s0 := fs.State();
    ghost var v0 := Views(mods);
    ghost var flags: seq<bool> := [];
    ghost var current := Flags(v0);
    forall j | 0 <= j < |mods|
      ensures v0[j].bindings == mods[j].bindings && mods[j].installed == current[j]
    {
      ViewsAt(mods, j);
      FlagsAt(v0, j);
    }
    assert v0[0..] == v0;
    newChecked := [];
    r := Done;
    var i := 0;
    while i < |mods| && r.Done?
      invariant 0 <= i <= |mods| && fs.Valid()
      invariant GoPrefix(s0, v0, checked, i) == Pass(fs.State(), flags, newChecked, r)
      invariant current == flags + Flags(v0[i..])
      invariant forall j :: 0 <= j < |mods| ==> mods[j].installed == current[j]
    {
      var controller := mods[i];
      r, current := GoItem(fs, mods, controller, checked, i, s0, v0, GoPrefix(s0, v0, checked, i), current);
      flags := flags + [controller.installed];
      newChecked := newChecked + [if r.Failed? then checked[i] else controller.installed];
      i := i + 1;
    }
    if r.Failed? {
      ReconcileStopped(s0, v0, checked, i);
      newChecked := newChecked + checked[i..];
    } else {
      assert current == flags;
    }
  }
}
