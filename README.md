# SteamModManager: the mod reconciliation engine in Dafny

SteamModManager (`main.py`) is a small desktop tool for Monster Hunter Rise mods. It
keeps a `Mods` directory with one subdirectory per mod. For each mod it decides which
files belong in the game directory and shows an installed/not-installed check box. When
the user presses "Go!", it installs or uninstalls each mod so that the game directory
agrees with the boxes.

This project models that engine without its user interface, and proves what it does to
the filesystem and to the cached flags:

- `FileStore` models the filesystem as a value. A `Store` has a map from path (a
  sequence of name segments) to bytes, plus a set of directories. `Valid` says it is a
  tree.
  - The library calls the program makes are functions on the store: `MkdirsRun` for
    `mkdir(parents=True, exist_ok=True)`, `CopyFileRun` for `shutil.copyfile`, and
    `UnlinkRun` for `unlink(missing_ok=True)`.
  - The one mutable filesystem is the class `FileSystem`.
  - Directory iteration order is an explicit sequence `order`. `Children` is `glob("*")`
    and `Descendants` is `glob("**/*")`, both taken as filters of it.
- `Files` models `ComputeMD5` and a `FileController`, which is a `Binding` from source
  to destination with `IsMatch`, `Copy` and `Delete`.
- `Descriptor` models `ModContoller` as the class `Mod`. It holds an ordered list of
  bindings and the cached `installed` flag. `Install`, `Uninstall` and
  `CheckInstalled` (`__check_installed__`) are methods proved against the value-level
  functions `InstallRun`, `UninstallRun` and `Recheck`.
- `Layout` models the binding enumerators of the three subclasses: the loader
  `REFramework` and the `reframework` and `natives` bundles.
- `Factory` models `FactoryModController.Create`, the classifier.
- `Manager` models `ModManagerWindow` without Qt:
  - The `HunterPie` filter and the controller list of `RefreshModList`.
  - The reversal caused by `insertItem(0, …)`.
  - The reconciliation rule of `Go`, as a method over the controllers and the check
    states, proved against the function `Reconcile`.

Any library call can raise. A raise is an explicit `Failed` outcome, and the loop that
made the call stops there, as the exception does in the program:

- A failed copy or delete skips the closing recheck, so the flag keeps its old value.
- A failed `Install` or `Uninstall` ends `Go`. The remaining rows keep their check
  states.

## Model

| member | source | states |
|---|---|---|
| FileStore.Children | main.py:138 | `glob("*")` lists exactly the entries of the iteration order that lie directly inside the directory |
| FileStore.Descendants | main.py:110 | `glob("**/*")` lists exactly the entries of the iteration order below the directory, at any depth |
| FileStore.DescendantsNoDuplicates | main.py:122 | the recursive listing names no entry twice when the iteration order does not |
| FileStore.MkdirsPreservesValid | main.py:42 | creating the parent directories keeps the store a tree |
| FileStore.CopyFilePreservesValid | main.py:44 | `copyfile` keeps the store a tree |
| FileStore.UnlinkPreservesValid | main.py:48 | `unlink` keeps the store a tree |
| FileStore.FileSystem.Mkdirs | main.py:42 | creates every missing ancestor, or raises when one is a file, leaving the store a tree |
| FileStore.FileSystem.CopyFile | main.py:44 | copies the source's bytes over the destination, or raises for the same file, a directory, or a missing source or parent |
| FileStore.FileSystem.Unlink | main.py:48 | removes the file; a missing path is no error; a directory raises |
| Files.ComputeMD5 | main.py:10-15 | `""` exactly for a missing path; raises exactly for a directory; otherwise the digest of the file's bytes |
| Files.Binding.IsMatch | main.py:61-63 | raises iff either path is a directory; otherwise matches iff both are missing or both are files with equal bytes, so a missing path never matches an empty file |
| Files.Binding.CopyRun | main.py:41-44 | succeeds iff the parents can be created, the source is a file and differs from the destination, and the destination is not a directory; then the destination holds the source's bytes, every other file is unchanged and exactly the destination's ancestors are added as directories; on failure no file changes |
| Files.Binding.Copy | main.py:41-44 | the method does to the filesystem what `CopyRun` says |
| Files.Binding.DeleteRun | main.py:46-48 | succeeds iff the destination is not a directory; then the destination is absent and every other file and every directory is unchanged; a missing destination leaves the store as it is |
| Files.Binding.Delete | main.py:46-48 | the method does to the filesystem what `DeleteRun` says |
| Layout.LoaderBindings | main.py:101-103 | the loader has exactly one binding, `inPath/dinput8.dll` to `root/dinput8.dll` |
| Layout.Relocate | main.py:110-115 | one binding per listed entry that is not a directory, with the destination being the root joined with the entry's path relative to the mod directory |
| Layout.EnumerateBundle | main.py:109-115 | the append loop over the recursive listing builds exactly `BundleBindings` |
| Layout.RelocateNoDuplicates | main.py:114-115 | a listing without repeats yields bindings without repeats |
| Layout.BundleMembership | main.py:121-127 | a bundle binding exists iff its source is a file below the marker directory and its destination is the root joined with the marker and the rest of the path; no binding repeats |
| Layout.BundleDestsIndependent | main.py:114-115 | two bindings of a bundle have different destinations, and neither destination lies on the way to the other |
| Descriptor.AllMatchSpec | main.py:83-88 | the check succeeds iff every binding matches; otherwise its verdict is that of the first binding that does not match |
| Descriptor.CopyAllFrame | main.py:73-75 | the copy loop keeps the store a tree, removes no file or directory, and leaves every file that is not a destination as it was; it creates only directories on the way to a destination, and all of them when it finishes |
| Descriptor.DeleteAllFrame | main.py:78-80 | the delete loop keeps the store a tree and its directories; it raises iff a destination is a directory; it only removes destinations; when it finishes, no destination exists |
| Descriptor.CopyAllSucceeds | main.py:73-75 | when the destinations are apart, the sources are files and nothing blocks a destination's parents, no copy raises |
| Descriptor.CopyAllSettles | main.py:73-75 | after a copy loop that finished, with destinations apart, every destination holds its source's bytes |
| Descriptor.CopySettledIsNoOp | main.py:41-44 | copying a binding whose destination already holds its source's bytes changes nothing |
| Descriptor.CopyAllSettledIsNoOp | main.py:73-75 | the copy loop over settled bindings changes nothing |
| Descriptor.SettledAllMatch | main.py:83-88 | settled bindings all match |
| Descriptor.InstallEstablishesInstalled | main.py:73-76 | `Install` over bindings that can all be copied ends with the flag true |
| Descriptor.InstallIsIdempotent | main.py:73-76 | when the copies all succeed, the flag is true, and a second `Install` leaves the store unchanged and the flag true |
| Descriptor.UninstallFlag | main.py:78-88 | after `Uninstall` whose deletes succeed, the flag is true iff no source exists (vacuously for zero bindings); when destinations are never sources, that is iff no source existed before |
| Descriptor.DeleteAbsentIsNoOp | main.py:78-80 | the delete loop over absent destinations changes nothing |
| Descriptor.UninstallIsIdempotent | main.py:78-81 | a second `Uninstall` deletes nothing and only rechecks |
| Descriptor.InstallThenUninstall | main.py:73-81 | install then uninstall leaves exactly the earlier files minus the destinations, and exactly the earlier directories plus those on the way to a destination |
| Descriptor.Mod.Loader | main.py:98-103 | `ReFrameworkApplication` holds the loader binding for its directory, with the flag not yet computed |
| Descriptor.Mod.FrameworkPlugins | main.py:106-115 | `ReFrameworkModController` holds the bindings enumerated under `reframework` |
| Descriptor.Mod.NativeOverrides | main.py:118-127 | `FirstNativeModController` holds the bindings enumerated under `natives` |
| Descriptor.Mod.CheckInstalled | main.py:83-88 | the loop with early return sets the flag to the check's verdict, or keeps it when a digest raises |
| Descriptor.Mod.Install | main.py:73-76 | copies the bindings in order, stops at the first copy that raises, and otherwise rechecks: exactly `InstallRun` |
| Descriptor.Mod.Uninstall | main.py:78-81 | deletes the destinations in order, stops at the first delete that raises, and otherwise rechecks: exactly `UninstallRun` |
| Factory.FirstMarkerNone | main.py:138-142 | the children loop picks no variant iff no child is named `natives` or `reframework`, and never picks the loader |
| Factory.FirstMarkerAt | main.py:138-142 | the first marker child in iteration order decides, whatever follows it |
| Factory.ClassifySpec | main.py:133-142 | a directory is the loader iff it is named `REFramework`; any other directory gets no variant iff none of its children is a marker |
| Factory.ClassifyFirstMarker | main.py:137-142 | for any other directory, the first marker child selects the native or framework variant |
| Factory.MarkerOrderDecides | main.py:138-142 | `reframework` before `natives` selects the framework variant, the reverse order selects the native one, the loader name wins over a marker, and a directory without markers gets none |
| Factory.Finish | main.py:104 | the closing `__check_installed__` of every constructor (also lines 116 and 128) sets the flag to the verdict, and a raise escapes `Create` |
| Factory.Create | main.py:133-142 | returns None exactly when no variant is picked; otherwise a new controller of the picked variant, for that directory, with its bindings and the recheck's flag; or the error the recheck raised |
| Manager.ListedMembers | main.py:166-168 | a mod directory is listed iff it is a child and its name does not contain `HunterPie` |
| Manager.AddController | main.py:169-172 | a new controller built by `Create` for the directory, or the failure `Create` meets: `NoController` exactly when it returns None, which the item's `Installed` then dereferences, and otherwise the error the chosen variant's recheck raised |
| Manager.RefreshModList | main.py:165-174 | one new, distinct controller per listed directory, in order, each built by `Create`, with its check state equal to its flag; the first failure ends the list and is the failure `Create` meets for the next listed directory: None, or its recheck's error |
| Manager.RowsAt | main.py:157-158 | inserting each item at row 0 puts the last item on top: row `i` holds item `n-1-i` |
| Manager.RowsDistinct | main.py:157-158 | the rows hold distinct controllers when the items do |
| Manager.Decide | main.py:180-185 | a row is left alone iff its check state equals its flag; it is installed only when checked and uninstalled only when unchecked |
| Manager.ReconcileOneInSync | main.py:180-185 | a row whose check state equals its flag leaves the store and the flag alone |
| Manager.GoPrefixSyncs | main.py:186 | after a pass that did not raise, each visited row's check state equals its controller's flag |
| Manager.GoPrefixChecked | main.py:186 | each row's check state ends as either its old state or its controller's flag |
| Manager.GoPrefixLeavesInSync | main.py:177-186 | a row already in sync keeps its flag and its check state |
| Manager.GoPrefixInSyncIsNoOp | main.py:177-186 | when every row is in sync, the pass changes neither the store nor any flag or check state |
| Manager.ReconcileSyncs | main.py:176-186 | the whole of `Go`: the four properties above, over every row |
| Manager.GoPrefixStopped | main.py:177-186 | after a row raised, the later rows keep their flags and check states and the store stays as it was |
| Manager.ReconcileStopped | main.py:176-186 | a `Go` that raised at a row ends with that store and outcome; the rows after it are untouched |
| Manager.ReconcileItem | main.py:180-185 | one row: installs, uninstalls or leaves the controller as `Decide` says, with the store and flag of `ReconcileOne` |
| Manager.GoItem | main.py:177-186 | one iteration of the loop advances the pass by one row and updates only that row's controller flag |
| Manager.Go | main.py:176-186 | the loop leaves the store, the check states, the outcome and every controller's flag exactly as `Reconcile` of the old store, controllers and check states says |

## Left out

- The PyQt5 window: widgets, the "Go!" button and check-box rendering (main.py:144-163, 188-193). `Go` takes the rows' controllers and check states as parameters, and returns the new check states.
- `SettingManager` (main.py:17-33): a JSON settings file and a folder dialog. The game directory is the parameter `root`.
- The real MD5. A digest is identified with the file's bytes, as if MD5 had no collisions. The `""` digest of a missing path is the separate value `Blank`.
- The real operating system's iteration order. `glob` is a filter of the given sequence `order`, which `IsListing` ties to the store.
- The `print` calls (main.py:43, 47), the empty `Move` (main.py:50-51), the unused `FileController.mInstalled` (main.py:39), and the read-only properties `Source`, `Dest`, `Installed` and `ModName` (plain field reads).
- Permissions, races, full disks and other OS errors beyond the ones the store can show: a missing path, a directory where a file is needed, a file where `mkdir` needs a directory, and copying a file onto itself.
- The platform. The model follows Windows, the platform the tool targets (it installs `dinput8.dll`). `unlink` of a path below a file counts as a missing path, which `missing_ok` swallows; on POSIX that call raises `NotADirectoryError`, so there `Delete` and `Uninstall` would fail where the model succeeds. Reading a directory raises `IsADirectory` here, where Windows raises `PermissionError`; only the fact that it raises matters to the program.
- Case-insensitive names. Windows looks up file names without regard to case; the store compares names exactly. So a mod that ships `DInput8.dll` has the loader binding `dinput8.dll` found by the program (main.py:101), but that source is missing in the model.
- Factory.Create: the subclass constructors of the program run their recheck inside the constructor. Here `Create` runs it right after construction, through `Finish`, because a Dafny constructor cannot return the error. The observable result is the same.
- Manager.Go: requires the rows' controllers to be distinct objects. `RefreshModList` and `RowsDistinct` prove this holds for the list the window builds.
- Manager.RefreshModList: applies the `HunterPie` filter to the whole listing before creating controllers. This is equivalent because `Create` changes neither the store nor its listing.

## Behaviour of note

Three behaviours of the code are easy to misread. The model follows the code in each:

- A binding whose source and destination are both missing counts as a match, because both digests are `""` (main.py:11-12, 63). So a bundle with no files, or a mod whose files have all vanished, shows as installed. `Files.Binding.IsMatch` and `Descriptor.UninstallFlag` state this.
- `Create` picks between `natives` and `reframework` by whichever child the directory listing yields first. No fixed priority applies (main.py:138-142). `Factory.MarkerOrderDecides` shows both orders.
- A mod directory that `Create` cannot classify is not skipped. `Create` returns None and `RefreshModList` then dereferences it, which ends the listing (main.py:169-172). This is modelled as the `NoController` error of `Manager.AddController`.
