# SymlinkManager, modelled in Dafny

`utils/symlink_manager.py` mirrors a fixed set of top-level names
(`models`, `custom_nodes`, `input`, `output`, `user`) from a share root into
a project root, using real directories and symbolic links. This project
models that class, `SymlinkManager`, as a Dafny class over an abstract
filesystem. Its methods change the filesystem the way the Python methods do,
and their contracts state what each operation creates, reports and leaves
untouched.

Modules, one per file:

- `FsModel` (`fs_model.dfy`): the filesystem is a finite map from absolute
  paths (sequences of names) to `File | Dir | Link(target)`.
  - `Resolve`, `Exists`, `IsDir` and `IsFile` follow a link, as
    `exists()`/`is_dir()`/`is_file()` do.
  - `Locate` and `IsSymlink` stop at the final component, as
    `is_symlink()` does.
  - The writes are `MkdirOne`, `Mkdir` (`mkdir(parents=True,
    exist_ok=True)`), `SymlinkTo` and `Unlink`.
  - A write succeeds only when its slot is free and does not lie in the
    share, which is read-only. A failing `MkdirOne`, `SymlinkTo` or
    `Unlink` changes nothing. A failing `Mkdir` keeps the parent
    directories it created before the failure; in a `World` whose share
    root exists it fails before creating any (`MkdirInWorld`).
- `WorldModel` (`world.dfy`): the class invariant `World`.
  - The map is a tree.
  - The two roots are disjoint.
  - Nothing in the share or above its root is a link, and every link points
    into the share.
  - Nothing is demanded above the project root. A link there would lead into
    the share, where every write fails; the contracts hold in that state too.
  - In such a state every project path resolves to itself or into the share.
- `LinkPrimitive` (`link_primitive.dfy`): `_create_symlink` as `PlaceLink`,
  and `_should_create_symlink`.
- `LiveSync` (`live_sync.dfy`): the rule of `_sync_directory_recursive`.
  - `SyncReport` is what a run reports: each listed link or directory is one
    it created, none is listed twice, and everything it created is listed.
  - `Quiet` is the condition under which a run changes nothing. Every run
    ends in a state where it holds, which gives idempotence.
- `DeepScan` (`deep_scan.dfy`): the second rule, `_scan_and_link_directory`
  and its two callers.
  - `ScanReport` is what a scan reports.
  - `FilesFirst`: the links to files at a level come before all other links.
  - `ScanLink`: the shortcut and the file case create links.
  - `MixedDir`: the mixed case creates real directories.
  - `Settled`: a share entry whose project counterpart exists, or cannot be
    linked. `Abandons`: a subdirectory whose handling raises. `LevelDone`:
    every file of a level is settled, and so is every subdirectory unless
    the loop stopped at one that abandons.
- `Manager` (`manager.dfy`): the class `SymlinkManager`, its methods, and
  `SetupShareSymlinks`.
  - The class fields are `projectRoot`, `shareRoot`, `targetDirectories` and
    `denied`, plus the filesystem `fs` that the methods update.
  - `denied` is the set of share directories whose `iterdir()` raises.

Quirks of the code the model keeps:

- **Two rules.** `create_symlinks` calls `_sync_directory_recursive`
  (line 61); `_create_deep_symlinks` (lines 240-269) is not reached from it.
  So `CreateSymlinks` never links a directory. The deep-scan rule is
  modelled on its own, as `CreateDeepSymlinks`.
- **A share file named like a configured name.** `exists()` holds for it, so
  the live sync creates an empty project directory. Its `iterdir()` then
  fails and the error is caught.
- **Dangling links.** `_should_create_symlink` accepts a target occupied by
  a dangling link, because `exists()` is false there. `_create_symlink` then
  fails, because the slot is taken (`ShouldCreateSymlinkDangling`). So on
  failure "no link at the target" does not hold in general: the dangling
  link stays. What does hold is that only directories were added.
- **`get_symlink_info` buckets.** `missing_in_share` lists the names whose
  *project* entry is absent; the share is not consulted.
  `existing_directories` also takes existing non-directories.
- **Unreported directories.** The scan's `mkdir` of a mixed-case directory
  (line 352) is not reported. An error in the `iterdir()` at line 348, or in
  that `mkdir`, abandons the remaining sibling directories of the level
  (`abandon` in `ScanSubdirectory` and `ScanMixed`).
- **The `mkdir` at line 264.** It is not guarded by a `try`, so its failure
  propagates out of `_create_deep_symlinks` (the `Raised` outcome of
  `DeepResult`).

## Model

| member | source | states |
|---|---|---|
| FsModel.Resolve | utils/symlink_manager.py:41 | `exists()` resolution ends at the root or at a real (non-link) entry |
| FsModel.Exists | utils/symlink_manager.py:55 | `exists()`: an existing path other than the root has a directory as its parent |
| FsModel.IsDir | utils/symlink_manager.py:343 | `is_dir()` holds only for an existing path |
| FsModel.IsFile | utils/symlink_manager.py:314 | `is_file()` holds only for an existing path, and never together with `is_dir()` |
| FsModel.IsSymlink | utils/symlink_manager.py:258 | `is_symlink()`: never the root, and an existing link resolves elsewhere than where it is stored |
| FsModel.Locate | utils/symlink_manager.py:180 | `is_symlink()` looks at the stored entry of the final component: the slot, when occupied |
| FsModel.Children | utils/symlink_manager.py:119 | `iterdir()` lists exactly the names stored directly below the directory |
| FsModel.MkdirOne | utils/symlink_manager.py:114 | a single `mkdir` succeeds exactly when the slot is free outside the share, and then adds exactly a directory there |
| FsModel.Mkdir | utils/symlink_manager.py:156 | `mkdir(parents=True)` only adds entries, all of them directories outside the share |
| FsModel.SymlinkTo | utils/symlink_manager.py:159 | `symlink_to` succeeds exactly when the slot is free, and then adds exactly that link |
| FsModel.Unlink | utils/symlink_manager.py:182 | `unlink` removes exactly the located non-directory entry outside the share, or changes nothing |
| FsModel.ResolveMonotone | utils/symlink_manager.py:113 | a path that exists keeps resolving to the same place when entries are only added |
| FsModel.MkdirWellFormed | utils/symlink_manager.py:114 | `mkdir(parents=True)` keeps the map a tree, and on success the path is a directory |
| FsModel.KeyResolves | utils/symlink_manager.py:123 | a stored non-link entry resolves to itself |
| LinkPrimitive.PlaceLink | utils/symlink_manager.py:154-169 | `_create_symlink` as a total function (it never raises): it only adds entries, and on failure only directories |
| LinkPrimitive.PlaceLinkSucceeds | utils/symlink_manager.py:159-162 | `true` only when the target is now a link to the source and everything else added is a directory |
| LinkPrimitive.MkdirBlocked | utils/symlink_manager.py:156 | the parent chain fails when an existing ancestor is not a directory |
| LinkPrimitive.PlaceLinkBlockedParent | utils/symlink_manager.py:154-166 | a non-directory above the target makes the primitive return `false` |
| LinkPrimitive.PlaceLinkOccupied | utils/symlink_manager.py:159-166 | an occupied target slot, a dangling link included, makes it return `false` with no change |
| LinkPrimitive.PlaceLinkInWorld | utils/symlink_manager.py:154-169 | in a World: failure changes nothing; success adds the link at the target itself, outside the share, where nothing existed; the new directories lie above the target where nothing existed |
| LinkPrimitive.PlaceLinkUnderExisting | utils/symlink_manager.py:154-162 | when the parent exists, success adds exactly the one link |
| LinkPrimitive.PlaceLinkKeepsWorld | utils/symlink_manager.py:154-169 | a share-to-project link keeps the invariant World |
| LinkPrimitive.ShouldCreateSymlink | utils/symlink_manager.py:74-95 | `_should_create_symlink`: an accepted target is never the root |
| LinkPrimitive.ShouldCreateSymlinkVeto | utils/symlink_manager.py:90-93 | when the check refuses an existing source, the primitive would fail without change |
| LinkPrimitive.ShouldCreateSymlinkResolves | utils/symlink_manager.py:74-95 | after an accepted check and a successful link, the target resolves to the source |
| LinkPrimitive.ShouldCreateSymlinkDangling | utils/symlink_manager.py:86-95 | a dangling target passes the check, yet the primitive fails |
| WorldModel.ShareResolves | utils/symlink_manager.py:55 | in the share, `exists`/`is_dir`/`is_file` are plain lookups |
| WorldModel.ShareNames | utils/symlink_manager.py:55 | the share counterpart of a name exists exactly when it is stored |
| WorldModel.SymlinkInProject | utils/symlink_manager.py:180 | in the project, `is_symlink()` is a stored link at that very path |
| WorldModel.LinkInWorldResolves | utils/symlink_manager.py:229-231 | a project link exists exactly when its target does, and then `resolve()` gives the target |
| WorldModel.MkdirInWorld | utils/symlink_manager.py:114 | in a World whose share root exists, a failing `mkdir` changes nothing, and a successful one makes the path a directory and adds only entries at or above it where nothing existed |
| WorldModel.MkdirKeepsWorld | utils/symlink_manager.py:114 | `mkdir(parents=True)` keeps the invariant |
| WorldModel.WorldAddLink | utils/symlink_manager.py:159 | a new project link into the share keeps the invariant |
| WorldModel.WorldRemoveLink | utils/symlink_manager.py:182 | removing a link keeps the invariant |
| LiveSync.BelowShrinks | utils/symlink_manager.py:134 | the recursion into a share subdirectory is on a strictly smaller tree |
| LiveSync.MkdirReport | utils/symlink_manager.py:113-115 | the `mkdir` of an absent project directory: on success it is reported in `directories` and is all that was created below the parent; on failure nothing changes |
| LiveSync.LinkReport | utils/symlink_manager.py:123-130 | a share file whose counterpart is absent: a created link is reported in `links`, a failure changes nothing, and afterwards the counterpart exists or cannot be linked |
| LiveSync.SyncAfterLink | utils/symlink_manager.py:126-127 | appending a newly placed link keeps the report exact |
| LiveSync.SyncAfterMkdir | utils/symlink_manager.py:114-115 | the directory created by `mkdir` is the only one to report |
| LiveSync.SyncJoin | utils/symlink_manager.py:134-136 | extending `links` and `directories` with a later run's report gives the report of both runs |
| LiveSync.SyncWiden | utils/symlink_manager.py:134-136 | a subdirectory's report is a report of its parent |
| LiveSync.ChildrenStep | utils/symlink_manager.py:119-136 | one more child handled: the reports join and every handled child stays quiet |
| LiveSync.SyncCompose | utils/symlink_manager.py:61-63 | a name's report extends the reports of the earlier names |
| LiveSync.NameCompose | utils/symlink_manager.py:61-63 | `extend` of one name's lists at the top level |
| LiveSync.MkdirFailStable | utils/symlink_manager.py:113-115 | a project directory that could not be created still cannot be after any later change of the run |
| LiveSync.PlaceLinkFailStable | utils/symlink_manager.py:125-126 | a file link that failed still fails after entries are added |
| LiveSync.QuietStable | utils/symlink_manager.py:113-136 | idempotence: a directory whose sync changes nothing stays so under every change the live sync makes |
| LiveSync.ChildQuietStable | utils/symlink_manager.py:123-136 | the same for one child: an existing or unlinkable file, or a quiet directory |
| LiveSync.NameQuietStable | utils/symlink_manager.py:55-61 | a configured name whose sync changes nothing stays so |
| LiveSync.NamesStart | utils/symlink_manager.py:47-49 | the three lists start empty, with nothing handled |
| LiveSync.FoundStable | utils/symlink_manager.py:55 | whether a share counterpart exists does not change during the run |
| LiveSync.SkippedStep | utils/symlink_manager.py:55-58 | `skipped_items` gets exactly the handled names missing from the share, each once |
| LiveSync.DoneQuiet | utils/symlink_manager.py:51-61 | the names handled so far stay quiet |
| LiveSync.QuietBefore | utils/symlink_manager.py:51-61 | a run that changes nothing changes nothing for each of its names |
| LiveSync.TouchedStep | utils/symlink_manager.py:51-63 | a name's sync creates entries only below that name's project directory or above the project root |
| LiveSync.NamesStep | utils/symlink_manager.py:51-63 | one iteration of the loop keeps the whole loop invariant of `create_symlinks` |
| DeepScan.HasFileIsFile | utils/symlink_manager.py:348 | `has_files`: in the share, some listed entry is a stored file exactly when some listed entry answers `is_file()` |
| DeepScan.ShareEntryStable | utils/symlink_manager.py:311-315 | project writes change no share entry, listing or `has_files` answer |
| DeepScan.CounterpartStable | utils/symlink_manager.py:336-348 | the same for the share counterpart of a project path |
| DeepScan.ScanJoin | utils/symlink_manager.py:344 | `extend` with a later scan's list gives the list of both scans |
| DeepScan.ScanWiden | utils/symlink_manager.py:340-345 | the scan of an existing subdirectory reports links of its parent, none a file link of the parent's level |
| DeepScan.ScanLinkStep | utils/symlink_manager.py:328-358 | a file link or a shortcut link: a created link is reported, a failure changes nothing, and the link is a level file link exactly for a file |
| DeepScan.LinkAdded | utils/symlink_manager.py:329 | the relative path of a placed link is the whole report of that step |
| DeepScan.ScanFileStep | utils/symlink_manager.py:318-332 | one file of the file loop keeps the report exact, its links all level file links |
| DeepScan.ScanMkdirStep | utils/symlink_manager.py:350-352 | the mixed-case `mkdir` keeps the invariant; on failure nothing changes; on success it reports nothing |
| DeepScan.ScanMixedJoin | utils/symlink_manager.py:350-353 | the mixed case reports its subscan's links, none at the parent's level |
| DeepScan.PlaceLinkFailKeeps | utils/symlink_manager.py:154-169 | a link placement that failed still fails after entries are added outside the share, even where the parent was missing |
| DeepScan.SettledStable | utils/symlink_manager.py:321-332 | a share entry whose counterpart exists or cannot be linked stays so under later changes outside the share |
| DeepScan.SettledAllStable | utils/symlink_manager.py:321-332 | the same for a set of entries |
| DeepScan.PlacedSettles | utils/symlink_manager.py:328-358 | after the primitive, the entry is settled: the new link resolves to the share entry, or the call failed with no change |
| DeepScan.SettledStep | utils/symlink_manager.py:318-360 | one more entry of a loop handled: the earlier ones stay settled, and this one is settled |
| DeepScan.LevelDoneIntro | utils/symlink_manager.py:311-360 | the two loops of a level together: files settled, and every subdirectory settled unless the loop stopped at one that abandons |
| DeepScan.MissingStaysMissing | utils/symlink_manager.py:344 | a project path that does not exist below an existing directory keeps failing `exists()` while nothing is added at its key or in the share |
| DeepScan.LevelDoneStable | utils/symlink_manager.py:250-267 | a level that is done stays done while the scans of other names add entries outside the share, none directly below its project directory |
| DeepScan.NewNotUnderLink | utils/symlink_manager.py:258-260 | nothing new lies below a project entry that was a link |
| DeepScan.TouchedBelow | utils/symlink_manager.py:263-267 | entries created under a configured name are within the deep rule's scope |
| DeepScan.DeepBaseNew | utils/symlink_manager.py:263-264 | the `mkdir` of a configured name's project directory creates only in-scope directories that did not exist |
| DeepScan.DeepScanNew | utils/symlink_manager.py:267 | what a configured name's scan creates: new links are scan links of the share, new directories mixed-case |
| DeepScan.DeepStep | utils/symlink_manager.py:250-267 | one iteration keeps the invariant of `_create_deep_symlinks` and its list, and creates only under the name's project directory or above the project root |
| DeepScan.NameUntouched | utils/symlink_manager.py:258-260 | a name not yet handled has its project entry a link exactly when it was one at the start |
| DeepScan.DeepNameStep | utils/symlink_manager.py:250-267 | one iteration keeps every handled name present in the share, whose entry was no link, with an existing project entry |
| DeepScan.DeepLevelStep | utils/symlink_manager.py:250-267 | one iteration keeps every handled name present in the share, whose entry was no link and whose share directory is listable, with its top level done |
| Manager.LinkedEntriesStep | utils/symlink_manager.py:180-183 | handling one more name adds its entry to the removed set exactly when it is a link |
| Manager.RemovalStart | utils/symlink_manager.py:175 | nothing removed before the loop |
| Manager.NotYetRemoved | utils/symlink_manager.py:177-183 | the removals never touch a name not yet handled |
| Manager.RemoveStep | utils/symlink_manager.py:180-183 | an `is_symlink()` entry is unlinked, and unlinking cannot fail; plain entries stay |
| Manager.RemovalDone | utils/symlink_manager.py:177-187 | after the loop no configured project entry is a link |
| Manager.UnlinkConfigured | utils/symlink_manager.py:177-187 | the loop of `remove_symlinks`: it removes exactly the link entries of the names, lists each removed name once, and leaves every other entry |
| Manager.ProjectSymlink | utils/symlink_manager.py:203 | `is_symlink()` of a project name is a link stored at that path |
| Manager.ProjectSymlinks | utils/symlink_manager.py:200-204 | the same for every configured name |
| Manager.DescribesLink | utils/symlink_manager.py:227-232 | a link goes into `symlinks` with its path, its resolved target and `exists()` |
| Manager.DescribesExisting | utils/symlink_manager.py:233-234 | an existing entry that is no link goes into `existing_directories` |
| Manager.DescribesMissing | utils/symlink_manager.py:235-236 | an absent project entry goes into `missing_in_share` with its share path |
| Manager.DescribesPartition | utils/symlink_manager.py:223-236 | the three buckets are disjoint and together hold exactly the configured names |
| Manager.SymlinkManager.constructor | utils/symlink_manager.py:15-34 | the roots, the share root `/share` when none is given, and the five target directory names |
| Manager.SymlinkManager.CreateSymlink | utils/symlink_manager.py:143-169 | the method's effect and result are exactly `PlaceLink` |
| Manager.SymlinkManager.SyncDirectoryRecursive | utils/symlink_manager.py:97-141 | it only adds entries outside the share and reports exactly what it created: each link to the share file of the same relative path, each directory for the share directory of that path (no directory links; files linked only where nothing existed); a quiet start changes nothing; it ends quiet |
| Manager.SymlinkManager.SyncChildren | utils/symlink_manager.py:119-136 | the loop over `iterdir()`: the children's reports joined, every child quiet afterwards |
| Manager.SymlinkManager.SyncEntry | utils/symlink_manager.py:120-136 | one child: the file branch (link only where `exists()` is false) or the recursion |
| Manager.SymlinkManager.SyncName | utils/symlink_manager.py:52-63 | one configured name: a missing share counterpart changes nothing; otherwise the sync's report |
| Manager.SymlinkManager.SyncNext | utils/symlink_manager.py:51-63 | one iteration keeps the loop invariant |
| Manager.SymlinkManager.SyncNames | utils/symlink_manager.py:51-63 | the loop over all configured names ends with the invariant for all of them |
| Manager.SymlinkManager.CreateSymlinks | utils/symlink_manager.py:36-72 | an absent share changes nothing; `skipped_items` is exactly the configured names missing from the share; links and directories are reported exactly, each for the share entry of the same relative path; new entries lie only under present configured names; a quiet start changes nothing; the end is quiet |
| Manager.SymlinkManager.CreateSymlinksTwice | utils/symlink_manager.py:36-72 | a second run right after a first creates no link and no directory |
| Manager.SymlinkManager.RemoveSymlinks | utils/symlink_manager.py:171-189 | exactly the configured names whose project entry is a link are unlinked and listed; nothing else changes |
| Manager.SymlinkManager.ListSymlinks | utils/symlink_manager.py:191-206 | exactly the configured names whose project entry is a link, each once, with no change |
| Manager.SymlinkManager.GetSymlinkInfo | utils/symlink_manager.py:208-238 | the roots, and every configured name in the bucket its project entry calls for |
| Manager.SymlinkManager.ScanAndLinkDirectory | utils/symlink_manager.py:293-367 | it only adds entries outside the share and lists exactly the links it created: files, or shortcut links to listable directories holding no file; new directories are mixed-case ones; files come first; an unlistable directory changes nothing; a listable one ends with its level done |
| Manager.SymlinkManager.ScanFiles | utils/symlink_manager.py:318-332 | the file loop: only level files are linked, and only where nothing existed; afterwards every share file of the level is settled |
| Manager.SymlinkManager.ScanSubdirectories | utils/symlink_manager.py:335-360 | the directory loop: its report is exact and has no file links of the level; unless it stopped every subdirectory is settled, and if it stopped, one of them abandons |
| Manager.SymlinkManager.ScanSubdirectory | utils/symlink_manager.py:336-360 | it abandons exactly when the counterpart is absent and the `iterdir()` or the `mkdir` fails, with no change; otherwise the entry ends settled; an existing counterpart is scanned with its level done; a mixed one ends a directory with its level done; a shortcut places the one link to the share directory, or fails with no change |
| Manager.SymlinkManager.ScanMixed | utils/symlink_manager.py:347-353 | a directory holding a file: `mkdir` and scan, abandoning exactly when the `mkdir` fails; otherwise the counterpart ends a directory with its level done |
| Manager.SymlinkManager.DeepName | utils/symlink_manager.py:251-267 | names missing from the share or already links are skipped with no change; the `mkdir` raises only where it fails; otherwise the project entry ends existing and, for a listable share directory, the scan at line 267 leaves its top level done; it creates only under that name or above the project root |
| Manager.SymlinkManager.CreateDeepSymlinks | utils/symlink_manager.py:240-269 | what the deep rule creates and its exact link list; on completion every configured name present in the share, whose project entry was no link, has an existing project entry, and its top level is done when its share directory is listable; or the raising `mkdir` of such a name |
| Manager.SymlinkManager.CreateDeepSymlinksForExistingDirectory | utils/symlink_manager.py:271-291 | the scan's report and file-first order, and a listable share directory ends with its level done |
| Manager.SetupShareSymlinks | utils/symlink_manager.py:370-379 | construct (the share root `/share` when none is given), then `create_symlinks`: only touched entries are created, a quiet start changes nothing, and the end is quiet |

## Left out

- Logging: every `self.logger` call and message are left out. They change nothing.
- Return values: the source only logs `created_links`, `created_directories`,
  `skipped_items` and `removed_links`. Here the methods return them, so that
  their contents can be stated.
- Arbitrary `OSError` or other exceptions from the system, and
  `PermissionError` types, are left out. A write fails only when the model
  forces it: a blocked parent chain, an occupied slot, or a write into the
  read-only share. A listing fails only for a directory in `denied`, or for
  a non-directory. So `unlink` of a project link never fails.
- `Path.resolve()` of the roots in `__init__`: the roots are taken as already
  resolved. `World` forbids links in or above the share root only; above
  the project root it demands nothing.
- The `resolve()` in `get_symlink_info` is one hop to the link's target.
  `World` makes that exact.
- `World`: the model covers only states where every link points into the
  share and the share holds no links. Links that users made to elsewhere
  are not modelled, and neither are the link cycles those could create.
  `World` also requires the two roots to be disjoint, so the constructor
  does not accept a share inside the project (project `/app`, share
  `/app/share`) or the reverse, although the code does. There, a scan of
  the project could reach the share through itself, and a write into the
  project could change the share.
- Concurrency and races between an `exists()` check and the following write
  are left out. The code is single-threaded.
- Platform link semantics are left out: privileges, and filesystems without
  links.
- Iteration order over `target_directories` and `iterdir()` is chosen
  arbitrarily from a set. Lists are stated by their contents and lack of
  duplicates, not by order, except the file-first order of the deep scan.
- String rendering is left out: relative paths are path suffixes, and
  `str()` is not modelled.
- The `depth` parameter of `_scan_and_link_directory` is unused by the code
  and is not modelled.
- The `is_dir()` check at line 343 always holds for an entry of
  `directories`, since the share does not change. The model always takes
  that branch.
- Manager.SymlinkManager.ScanAndLinkDirectory: completeness is stated one
  level at a time (`LevelDone`), not for the whole tree. A failure abandons
  the rest of a level, and a nested scan's result is not carried up to the
  levels above.
- Manager.SymlinkManager.CreateDeepSymlinks: completeness is stated for the
  top level of each configured name, as for `ScanAndLinkDirectory`. When a
  `mkdir` raises, the result states nothing about the names handled before.
