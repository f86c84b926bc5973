/**
 `SymlinkManager`: mirrors the configured top-level names of a share root
 into a project root. The object holds the two roots, the configured names
 and the filesystem it acts on; every operation of the class is a method
 over that state.
 */
module Manager {
  import opened FsModel
  import opened WorldModel
  import opened LinkPrimitive
  import opened LiveSync
  import opened DeepScan

  /** The names mirrored from the share. */
  const TargetDirectories: set<string> := {"models", "custom_nodes", "input", "output", "user"}

  /** The share root used when none is given: `/share`. */
  const DefaultShareDirectory: Path := ["share"]

  /** The project entries of the names in `names` that are links. */
  ghost function LinkedEntries(fs: FileSystem, project: Path, names: set<string>): set<Path> {
    set t | t in names && IsSymlink(fs, project + [t]) :: project + [t]
  }

  /** Handling one more name adds its project entry when that is a link. */
  lemma LinkedEntriesStep(fs: FileSystem, project: Path, done: set<string>, t: string)
    ensures LinkedEntries(fs, project, done + {t}) ==
            LinkedEntries(fs, project, done) + if IsSymlink(fs, project + [t]) then {project + [t]} else {}
  {
  }

  /** Removing a set of keys and then one more is removing their union. */
  lemma RemoveKeysStep(fs: FileSystem, keys: set<Path>, k: Path)
    ensures fs - (keys + {k}) == (fs - keys) - {k}
  {
  }

  /** What `remove_symlinks` has done from `fs0` by `state`, the names in
      `done` handled: exactly the links among their project entries are
      gone, and none of those entries is a link any more. */
  ghost predicate Removal(fs0: FileSystem, state: FileSystem, share: Path, project: Path, done: set<string>) {
    && World(state, share, project)
    && state == fs0 - LinkedEntries(fs0, project, done)
    && forall t :: t in done ==> !(project + [t] in state && state[project + [t]].Link?)
  }

  /** Before the loop nothing is handled and nothing is removed. */
  lemma RemovalStart(fs0: FileSystem, share: Path, project: Path)
    requires World(fs0, share, project)
    ensures Removal(fs0, fs0, share, project, {})
  {
    assert LinkedEntries(fs0, project, {}) == {};
    assert fs0 - {} == fs0;
  }

  /** The removals so far never touch the project path of a name not yet
      handled. */
  lemma NotYetRemoved(fs0: FileSystem, project: Path, done: set<string>, t: string)
    requires t !in done
    ensures project + [t] !in LinkedEntries(fs0, project, done)
  {
    assert forall u :: project + [u] == project + [t] ==> u == t by {
      forall u | project + [u] == project + [t] ensures u == t {
        assert (project + [u])[|project|] == u;
      }
    }
  }

  /** One more name handled: its project entry is a link now exactly when
      it was one at the start, unlinking it then cannot fail, and the run
      keeps its description with the entry unlinked when it is a link. */
  lemma RemoveStep(fs0: FileSystem, state: FileSystem, state': FileSystem, share: Path, project: Path,
                   done: set<string>, done': set<string>, t: string)
    requires World(fs0, share, project) && Removal(fs0, state, share, project, done) && t !in done
    requires done' == done + {t}
    requires var p := project + [t];
             if IsSymlink(state, p) && Unlink(state, p, share).1 then state' == Unlink(state, p, share).0
             else state' == state
    ensures IsSymlink(state, project + [t]) <==> IsSymlink(fs0, project + [t])
    ensures IsSymlink(state, project + [t]) ==> Unlink(state, project + [t], share).1
    ensures Removal(fs0, state', share, project, done')
  {
    var p := project + [t];
    assert Under(project, p) by {
      assert p[..|project|] == project;
    }
    SymlinkInProject(fs0, share, project, p);
    SymlinkInProject(state, share, project, p);
    var l0 := LinkedEntries(fs0, project, done);
    NotYetRemoved(fs0, project, done, t);
    LinkedEntriesStep(fs0, project, done, t);
    if IsSymlink(state, p) {
      KeyLocates(state, p);
      DisjointRoots(share, project, p);
      WorldRemoveLink(state, share, project, p);
      RemoveKeysStep(fs0, l0, p);
    }
  }

  /** At the end of a run no handled name's project entry is a link. */
  lemma RemovalDone(fs0: FileSystem, state: FileSystem, share: Path, project: Path, done: set<string>)
    requires Removal(fs0, state, share, project, done)
    ensures forall t :: t in done ==> !IsSymlink(state, project + [t])
  {
    forall t | t in done ensures !IsSymlink(state, project + [t]) {
      var p := project + [t];
      assert p[..|project|] == project;
      SymlinkInProject(state, share, project, p);
    }
  }

  /** The loop of `remove_symlinks()` over the names `names`, from `fs0`:
      each project entry that is a link is unlinked (the `OSError` branch
      cannot fire here). Exactly the links among those entries are gone,
      nothing else changes, and afterwards no such entry is a link. */
  method UnlinkConfigured(fs0: FileSystem, share: Path, project: Path, names: set<string>)
    returns (state: FileSystem, removed: seq<string>)
    requires World(fs0, share, project)
    ensures World(state, share, project)
    ensures forall t :: t in removed <==> t in names && IsSymlink(fs0, project + [t])
    ensures forall i, j :: 0 <= i < j < |removed| ==> removed[i] != removed[j]
    ensures state == fs0 - LinkedEntries(fs0, project, names)
    ensures forall t :: t in names ==> !IsSymlink(state, project + [t])
  {
    state, removed := fs0, [];
    var todo := names;
    ghost var done: set<string> := {};
    RemovalStart(fs0, share, project);
    while todo != {}
      invariant Removal(fs0, state, share, project, done)
      invariant todo <= names && forall u :: u in done <==> u in names && u !in todo
      invariant forall t :: t in removed <==> t in done && IsSymlink(fs0, project + [t])
      invariant forall i, j :: 0 <= i < j < |removed| ==> removed[i] != removed[j]
      decreases todo
    {
      var t :| t in todo;
      todo := todo - {t};
      var p := project + [t];
      var state', removed' := state, removed;
      if IsSymlink(state, p) {
        var r := Unlink(state, p, share);
        if r.1 {
          state', removed' := r.0, removed + [t];
        }
      }
      ghost var done' := done + {t};
      RemoveStep(fs0, state, state', share, project, done, done', t);
      state, removed, done := state', removed', done';
    }
    assert done == names;
    RemovalDone(fs0, state, share, project, done);
  }

  /** A link is stored at `p` itself. */
  predicate LinkAt(fs: FileSystem, p: Path) {
    p in fs && fs[p].Link?
  }

  /** In a World, `is_symlink()` on the project entry of a name is
      `LinkAt`. */
  lemma ProjectSymlink(fs: FileSystem, share: Path, project: Path, t: string)
    requires World(fs, share, project)
    ensures IsSymlink(fs, project + [t]) <==> LinkAt(fs, project + [t])
  {
    var p := project + [t];
    assert p[..|project|] == project;
    SymlinkInProject(fs, share, project, p);
  }

  /** `ProjectSymlink` for every name of `names`. */
  lemma ProjectSymlinks(fs: FileSystem, share: Path, project: Path, names: set<string>)
    requires World(fs, share, project)
    ensures forall t :: t in names ==> (IsSymlink(fs, project + [t]) <==> LinkAt(fs, project + [t]))
  {
    forall t | t in names ensures IsSymlink(fs, project + [t]) <==> LinkAt(fs, project + [t]) {
      ProjectSymlink(fs, share, project, t);
    }
  }

  /** One entry of the `symlinks` part of `get_symlink_info`: the link's
      own path, the path it resolves to and whether `exists()` holds. */
  datatype LinkInfo = LinkInfo(target: Path, source: Path, present: bool)

  /** `info` classifies the names in `names` by their project entry in
      `fs`: a link (which leads straight to its target in the share, and
      exists exactly when that target does), an existing entry, or an
      absent one. */
  ghost predicate Describes(info: SymlinkInfo, fs: FileSystem, share: Path, project: Path, names: set<string>) {
    && (forall t :: t in info.symlinks <==> t in names && IsSymlink(fs, project + [t]))
    && (forall t :: t in info.existingDirectories <==>
          t in names && !IsSymlink(fs, project + [t]) && Exists(fs, project + [t]))
    && (forall t :: t in info.missingInShare <==>
          t in names && !IsSymlink(fs, project + [t]) && !Exists(fs, project + [t]))
    && (forall t :: t in info.symlinks ==>
          var p := project + [t];
          && p in fs && fs[p].Link?
          && info.symlinks[t] == LinkInfo(p, fs[p].target, Exists(fs, p))
          && (Exists(fs, p) <==> fs[p].target in fs)
          && (Exists(fs, p) ==> Resolve(fs, p) == Some(fs[p].target)))
    && (forall t :: t in info.existingDirectories ==> info.existingDirectories[t] == project + [t])
    && (forall t :: t in info.missingInShare ==> info.missingInShare[t] == share + [t])
  }

  /** A link at the project path of `t` goes into the `symlinks` bucket. */
  lemma DescribesLink(info: SymlinkInfo, info': SymlinkInfo, fs: FileSystem, share: Path, project: Path,
                      done: set<string>, done': set<string>, t: string)
    requires World(fs, share, project) && t !in done && done' == done + {t}
    requires Describes(info, fs, share, project, done)
    requires IsSymlink(fs, project + [t]) && project + [t] in fs && fs[project + [t]].Link?
    requires var p := project + [t];
             info' == info.(symlinks := info.symlinks[t := LinkInfo(p, fs[p].target, Exists(fs, p))])
    ensures Describes(info', fs, share, project, done')
  {
    LinkInWorldResolves(fs, share, project, project + [t]);
  }

  /** An existing entry that is no link goes into `existing_directories`. */
  lemma DescribesExisting(info: SymlinkInfo, info': SymlinkInfo, fs: FileSystem, share: Path, project: Path,
                          done: set<string>, done': set<string>, t: string)
    requires t !in done && done' == done + {t}
    requires Describes(info, fs, share, project, done)
    requires !IsSymlink(fs, project + [t]) && Exists(fs, project + [t])
    requires info' == info.(existingDirectories := info.existingDirectories[t := project + [t]])
    ensures Describes(info', fs, share, project, done')
  {
  }

  /** An absent entry goes into `missing_in_share`. */
  lemma DescribesMissing(info: SymlinkInfo, info': SymlinkInfo, fs: FileSystem, share: Path, project: Path,
                         done: set<string>, done': set<string>, t: string)
    requires t !in done && done' == done + {t}
    requires Describes(info, fs, share, project, done)
    requires !IsSymlink(fs, project + [t]) && !Exists(fs, project + [t])
    requires info' == info.(missingInShare := info.missingInShare[t := share + [t]])
    ensures Describes(info', fs, share, project, done')
  {
  }

  /** The three buckets of a description partition the names. */
  lemma DescribesPartition(info: SymlinkInfo, fs: FileSystem, share: Path, project: Path, names: set<string>)
    requires Describes(info, fs, share, project, names)
    ensures info.symlinks.Keys + info.existingDirectories.Keys + info.missingInShare.Keys == names
    ensures && info.symlinks.Keys !! info.existingDirectories.Keys
            && info.symlinks.Keys !! info.missingInShare.Keys
            && info.existingDirectories.Keys !! info.missingInShare.Keys
  {
  }

  /** The dictionary `get_symlink_info` returns. */
  datatype SymlinkInfo = SymlinkInfo(
    projectRoot: Path,
    shareDirectory: Path,
    symlinks: map<string, LinkInfo>,
    existingDirectories: map<string, Path>,
    missingInShare: map<string, Path>)

  class SymlinkManager {
    const projectRoot: Path
    const shareRoot: Path
    const targetDirectories: set<string>
    /** The share directories whose `iterdir()` raises `PermissionError`. */
    const denied: set<Path>
    var fs: FileSystem

    ghost predicate Valid()
      reads this
    {
      World(fs, shareRoot, projectRoot)
    }

    /** The roots are taken as already resolved, and the filesystem as one
        in which the manager's invariant holds. The share root defaults to
        `/share`; the listing permissions and the filesystem, which the
        source takes from the machine, are passed by name. */
    constructor (projectRoot: Path, shareRoot: Path := DefaultShareDirectory,
                 nameonly denied: set<Path>, nameonly fs: FileSystem)
      requires World(fs, shareRoot, projectRoot)
      ensures Valid()
      ensures this.projectRoot == projectRoot && this.shareRoot == shareRoot
      ensures this.denied == denied && this.fs == fs
      ensures targetDirectories == TargetDirectories
    {
      this.projectRoot := projectRoot;
      this.shareRoot := shareRoot;
      this.targetDirectories := TargetDirectories;
      this.denied := denied;
      this.fs := fs;
    }

    /** `_create_symlink`: never raises; the outcome is the primitive's. */
    method CreateSymlink(source: Path, target: Path) returns (ok: bool)
      requires Valid() && Under(shareRoot, source) && Under(projectRoot, target)
      modifies this
      ensures Valid()
      ensures (fs, ok) == PlaceLink(old(fs), source, target, shareRoot)
    {
      PlaceLinkKeepsWorld(fs, source, target, shareRoot, projectRoot);
      var r := PlaceLink(fs, source, target, shareRoot);
      fs := r.0;
      ok := r.1;
    }

    /** `_sync_directory_recursive(s, p)` with `p` the project path of the
        share path `s`, both at `rel` below their roots. Returns the
        `links` and `directories` lists. */
    method SyncDirectoryRecursive(s: Path, p: Path, ghost rel: Path) returns (links: seq<Path>, dirs: seq<Path>)
      requires Valid()
      requires rel != [] && s == shareRoot + rel && p == projectRoot + rel && s in fs
      requires |rel| > 1 ==> fs[s] == Dir
      modifies this
      ensures Valid()
      ensures Grows(old(fs), fs) && OutsideShare(old(fs), fs, shareRoot)
      ensures SyncReport(old(fs), fs, shareRoot, projectRoot, rel, Parent(p), links, dirs)
      ensures old(Quiet(fs, shareRoot, denied, s, p)) ==> fs == old(fs) && links == [] && dirs == []
      ensures Quiet(fs, shareRoot, denied, s, p)
      decreases |Below(fs, s)|, 2
    {
      ghost var fs0 := fs;
      links, dirs := [], [];
      assert Under(shareRoot, s) by {
        assert s[..|shareRoot|] == shareRoot;
      }
      AncestorIsDir(fs, s, shareRoot);
      // project_path.relative_to(project_root)
      var relative := p[|projectRoot|..];
      assert relative == rel;
      if !Exists(fs, p) {
        MkdirReport(fs, shareRoot, projectRoot, rel);
        var r := Mkdir(fs, p, shareRoot);
        if !r.1 {
          // mkdir raises; the exception is caught at the end of the body
          return;
        }
        fs := r.0;
        dirs := [relative];
      }
      if !Lists(fs, denied, s) {
        // iterdir raises
        return;
      }
      ghost var fs1 := fs;
      BelowStable(fs0, fs, shareRoot, s);
      var subLinks, subDirs := SyncChildren(s, p, rel);
      SyncJoin(fs0, fs1, fs, shareRoot, projectRoot, rel, Parent(p), links, dirs, subLinks, subDirs);
      links := links + subLinks;
      dirs := dirs + subDirs;
    }

    /** The loop of `_sync_directory_recursive` over the entries of the
        share directory `s`, whose project directory `p` exists. */
    method SyncChildren(s: Path, p: Path, ghost rel: Path) returns (links: seq<Path>, dirs: seq<Path>)
      requires Valid()
      requires rel != [] && s == shareRoot + rel && p == projectRoot + rel
      requires Exists(fs, p) && Lists(fs, denied, s)
      modifies this
      ensures Valid()
      ensures Grows(old(fs), fs) && OutsideShare(old(fs), fs, shareRoot) && Exists(fs, p)
      ensures SyncReport(old(fs), fs, shareRoot, projectRoot, rel, p, links, dirs)
      ensures old(ChildrenQuiet(fs, shareRoot, denied, s, p)) ==> fs == old(fs) && links == [] && dirs == []
      ensures ChildrenQuiet(fs, shareRoot, denied, s, p)
      decreases |Below(fs, s)|, 1
    {
      ghost var fs0 := fs;
      links, dirs := [], [];
      assert Under(shareRoot, s) by {
        assert s[..|shareRoot|] == shareRoot;
      }
      AncestorIsDir(fs, s, shareRoot);
      var todo := Children(fs, s);
      ghost var done: set<string> := {};
      while todo != {}
        invariant Valid() && shareRoot in fs0
        invariant todo <= Children(fs0, s) && forall m :: m in done <==> m in Children(fs0, s) && m !in todo
        invariant Grows(fs0, fs) && OutsideShare(fs0, fs, shareRoot) && Exists(fs, p)
        invariant SyncReport(fs0, fs, shareRoot, projectRoot, rel, p, links, dirs)
        invariant forall m :: m in done ==> ChildQuiet(fs, shareRoot, denied, s, p, m)
        invariant ChildrenQuiet(fs0, shareRoot, denied, s, p) ==> fs == fs0 && links == [] && dirs == []
        decreases todo
      {
        var n :| n in todo;
        todo := todo - {n};
        ghost var fs1 := fs;
        BelowStable(fs0, fs, shareRoot, s);
        if ChildrenQuiet(fs0, shareRoot, denied, s, p) {
          assert ChildQuiet(fs1, shareRoot, denied, s, p, n);
        }
        var subLinks, subDirs := SyncEntry(s, p, n, rel);
        ChildrenStep(fs0, fs1, fs, shareRoot, projectRoot, denied, rel, done, n, links, dirs, subLinks, subDirs);
        links := links + subLinks;
        dirs := dirs + subDirs;
        done := done + {n};
      }
      assert done == Children(fs0, s);
      BelowStable(fs0, fs, shareRoot, s);
    }

    /** One entry `n` of the share directory `s` in the loop of
        `_sync_directory_recursive`: a file gets a link unless something
        already exists at its project path, a directory is synced
        recursively. */
    method SyncEntry(s: Path, p: Path, n: string, ghost rel: Path) returns (links: seq<Path>, dirs: seq<Path>)
      requires Valid()
      requires rel != [] && s == shareRoot + rel && p == projectRoot + rel && s + [n] in fs && Exists(fs, p)
      modifies this
      ensures Valid()
      ensures Grows(old(fs), fs) && OutsideShare(old(fs), fs, shareRoot)
      ensures SyncReport(old(fs), fs, shareRoot, projectRoot, rel, p, links, dirs)
      ensures old(ChildQuiet(fs, shareRoot, denied, s, p, n)) ==> fs == old(fs) && links == [] && dirs == []
      ensures ChildQuiet(fs, shareRoot, denied, s, p, n)
      decreases |Below(fs, s)|, 0
    {
      ghost var fs0 := fs;
      links, dirs := [], [];
      var si := s + [n];
      var pi := p + [n];
      assert Under(shareRoot, s) by {
        assert s[..|shareRoot|] == shareRoot;
      }
      AncestorIsDir(fs, si, shareRoot);
      assert Parent(pi) == p && Under(projectRoot, pi) by {
        assert pi[..|projectRoot|] == projectRoot;
      }
      AppendName(shareRoot, rel, n);
      AppendName(projectRoot, rel, n);
      if fs[si] == File {
        if !Exists(fs, pi) {
          var ok := CreateSymlink(si, pi);
          LinkReport(fs0, fs, ok, shareRoot, projectRoot, rel, n);
          if ok {
            assert p[|projectRoot|..] == rel;
            links := [p[|projectRoot|..] + [n]];
          }
        }
      } else if fs[si] == Dir {
        BelowShrinks(fs, s, n);
        var subLinks, subDirs := SyncDirectoryRecursive(si, pi, rel + [n]);
        SyncWiden(fs0, fs, shareRoot, projectRoot, rel, n, p, subLinks, subDirs);
        links, dirs := subLinks, subDirs;
      }
    }

    /** The body of the loop of `create_symlinks` for the name `t`: skipped
        when its share counterpart is missing, synced otherwise. */
    method SyncName(t: string) returns (found: bool, links: seq<Path>, dirs: seq<Path>)
      requires Valid() && shareRoot in fs
      modifies this
      ensures Valid()
      ensures NameRun(old(fs), fs, shareRoot, projectRoot, denied, t, found, links, dirs)
    {
      links, dirs := [], [];
      var s := shareRoot + [t];
      var p := projectRoot + [t];
      assert Under(shareRoot, s) by {
        assert s[..|shareRoot|] == shareRoot;
      }
      ShareResolves(fs, shareRoot, projectRoot, s);
      found := Exists(fs, s);
      if found {
        assert Parent(p) == projectRoot;
        links, dirs := SyncDirectoryRecursive(s, p, [t]);
        ShareResolves(fs, shareRoot, projectRoot, s);
      }
    }

    /** One turn of the loop of `create_symlinks`: the name `t` is synced,
        added to `skipped` when its share counterpart is missing, and its
        report is appended to `links` and `dirs`. */
    method SyncNext(t: string, ghost fs0: FileSystem, ghost done: set<string>,
                    skipped: seq<string>, links: seq<Path>, dirs: seq<Path>)
      returns (skipped': seq<string>, links': seq<Path>, dirs': seq<Path>)
      requires Valid() && shareRoot in fs && t in targetDirectories && t !in done
      requires NamesProgress(fs0, fs, shareRoot, projectRoot, denied, targetDirectories, done, skipped, links, dirs)
      modifies this
      ensures Valid()
      ensures NamesProgress(fs0, fs, shareRoot, projectRoot, denied, targetDirectories, done + {t}, skipped', links', dirs')
    {
      ghost var fs1 := fs;
      var found, subLinks, subDirs := SyncName(t);
      skipped' := if found then skipped else skipped + [t];
      links', dirs' := links + subLinks, dirs + subDirs;
      NamesStep(fs0, fs1, fs, shareRoot, projectRoot, denied, targetDirectories, done, t, found,
                skipped, links, dirs, subLinks, subDirs, skipped', links', dirs');
    }

    /** `create_symlinks`: the live sync of every configured name whose share
        counterpart exists. Returns `created_links`, `created_directories`
        and `skipped_items`. */
    method CreateSymlinks() returns (links: seq<Path>, dirs: seq<Path>, skipped: seq<string>)
      requires Valid()
      modifies this
      ensures Valid()
      ensures Grows(old(fs), fs) && OutsideShare(old(fs), fs, shareRoot)
      ensures !Exists(old(fs), shareRoot) ==> fs == old(fs) && links == [] && dirs == [] && skipped == []
      ensures forall t :: t in skipped <==>
                Exists(old(fs), shareRoot) && t in targetDirectories && !Exists(old(fs), shareRoot + [t])
      ensures forall i, j :: 0 <= i < j < |skipped| ==> skipped[i] != skipped[j]
      ensures SyncReport(old(fs), fs, shareRoot, projectRoot, [], projectRoot, links, dirs)
      ensures forall k :: k in fs && k !in old(fs) ==> Touched(old(fs), shareRoot, projectRoot, targetDirectories, k)
      ensures old(AllQuiet(fs, shareRoot, projectRoot, denied, targetDirectories)) ==> fs == old(fs) && links == [] && dirs == []
      ensures AllQuiet(fs, shareRoot, projectRoot, denied, targetDirectories)
    {
      links, dirs, skipped := [], [], [];
      if !Exists(fs, shareRoot) {
        return;
      }
      ShareResolves(fs, shareRoot, projectRoot, shareRoot);
      ShareNames(fs, shareRoot, projectRoot);
      links, dirs, skipped := SyncNames();
    }

    /** Idempotence: right after a run of `create_symlinks`, a second run
        on the same share creates no link and no directory. */
    method CreateSymlinksTwice() returns (links: seq<Path>, dirs: seq<Path>)
      requires Valid()
      modifies this
      ensures Valid()
      ensures links == [] && dirs == []
    {
      var _, _, _ := CreateSymlinks();
      ghost var fs1 := fs;
      var skipped;
      links, dirs, skipped := CreateSymlinks();
      assert fs == fs1;
    }

    /** The loop of `create_symlinks` over the configured names, once the
        share root is known to exist. */
    method SyncNames() returns (links: seq<Path>, dirs: seq<Path>, skipped: seq<string>)
      requires Valid() && shareRoot in fs
      modifies this
      ensures Valid()
      ensures NamesProgress(old(fs), fs, shareRoot, projectRoot, denied, targetDirectories, targetDirectories,
                            skipped, links, dirs)
    {
      links, dirs, skipped := [], [], [];
      ghost var fs0 := fs;
      NamesStart(fs, shareRoot, projectRoot, denied, targetDirectories);
      var todo := targetDirectories;
      ghost var done: set<string> := {};
      while todo != {}
        invariant Valid() && todo <= targetDirectories
        invariant forall u :: u in done <==> u in targetDirectories && u !in todo
        invariant NamesProgress(fs0, fs, shareRoot, projectRoot, denied, targetDirectories, done, skipped, links, dirs)
        decreases todo
      {
        var t :| t in todo;
        todo := todo - {t};
        skipped, links, dirs := SyncNext(t, fs0, done, skipped, links, dirs);
        done := done + {t};
      }
      assert done == targetDirectories;
    }

    // -------------------------------------------------------------------
    // The top-level utilities

    /** `remove_symlinks()`: unlinks every configured project entry that is
        a link; the names removed are the ones it logs. */
    method RemoveSymlinks() returns (removed: seq<string>)
      requires Valid()
      modifies this
      ensures Valid()
      ensures forall t :: t in removed <==> t in targetDirectories && IsSymlink(old(fs), projectRoot + [t])
      ensures forall i, j :: 0 <= i < j < |removed| ==> removed[i] != removed[j]
      ensures fs == old(fs) - LinkedEntries(old(fs), projectRoot, targetDirectories)
      ensures forall t :: t in targetDirectories ==> !IsSymlink(fs, projectRoot + [t])
    {
      var state;
      state, removed := UnlinkConfigured(fs, shareRoot, projectRoot, targetDirectories);
      fs := state;
    }

    /** `list_symlinks()`: the configured names whose project entry is a
        link, each once. */
    method ListSymlinks() returns (names: seq<string>)
      requires Valid()
      ensures forall t :: t in names <==> t in targetDirectories && IsSymlink(fs, projectRoot + [t])
      ensures forall i, j :: 0 <= i < j < |names| ==> names[i] != names[j]
    {
      var state, share, project := fs, shareRoot, projectRoot;
      names := [];
      var todo := targetDirectories;
      ghost var done: set<string> := {};
      while todo != {}
        invariant todo <= targetDirectories && forall u :: u in done <==> u in targetDirectories && u !in todo
        invariant forall t :: t in names <==> t in done && LinkAt(state, project + [t])
        invariant forall i, j :: 0 <= i < j < |names| ==> names[i] != names[j]
        decreases todo
      {
        var t :| t in todo;
        todo := todo - {t};
        ProjectSymlink(state, share, project, t);
        if IsSymlink(state, project + [t]) {
          names := names + [t];
        }
        done := done + {t};
      }
      assert done == targetDirectories;
      ProjectSymlinks(state, share, project, targetDirectories);
    }

    /** `get_symlink_info()`: every configured name falls in exactly one of
        three buckets by its project entry: a link (with the path it leads
        to and whether that exists), an existing entry, or an absent one;
        the last bucket, named `missing_in_share`, maps the name to its
        share path whatever the share holds. */
    method GetSymlinkInfo() returns (info: SymlinkInfo)
      requires Valid()
      ensures info.projectRoot == projectRoot && info.shareDirectory == shareRoot
      ensures Describes(info, fs, shareRoot, projectRoot, targetDirectories)
    {
      var state, share, project := fs, shareRoot, projectRoot;
      info := SymlinkInfo(project, share, map[], map[], map[]);
      var todo := targetDirectories;
      ghost var done: set<string> := {};
      while todo != {}
        invariant World(state, share, project) && todo <= targetDirectories
        invariant forall u :: u in done <==> u in targetDirectories && u !in todo
        invariant info.projectRoot == project && info.shareDirectory == share
        invariant Describes(info, state, share, project, done)
        decreases todo
      {
        var t :| t in todo;
        todo := todo - {t};
        var p := project + [t];
        assert Under(project, p) by {
          assert p[..|project|] == project;
        }
        SymlinkInProject(state, share, project, p);
        var info';
        ghost var done' := done + {t};
        if IsSymlink(state, p) {
          info' := info.(symlinks := info.symlinks[t := LinkInfo(p, state[p].target, Exists(state, p))]);
          DescribesLink(info, info', state, share, project, done, done', t);
        } else if Exists(state, p) {
          info' := info.(existingDirectories := info.existingDirectories[t := p]);
          DescribesExisting(info, info', state, share, project, done, done', t);
        } else {
          info' := info.(missingInShare := info.missingInShare[t := share + [t]]);
          DescribesMissing(info, info', state, share, project, done, done', t);
        }
        info, done := info', done';
      }
      assert done == targetDirectories;
    }

    // -------------------------------------------------------------------
    // The second rule: `_scan_and_link_directory` and its callers

    /** `_scan_and_link_directory(s, p, depth)`: link the share files
        directly in `s` first, then handle each share subdirectory. Every
        exception is caught at the end of the body, so the call returns the
        links created so far; a failing `iterdir()` of `s` returns none. */
    method ScanAndLinkDirectory(s: Path, p: Path) returns (links: seq<Path>)
      requires Valid() && Under(shareRoot, s) && Under(projectRoot, p)
      modifies this
      ensures Valid()
      ensures Grows(old(fs), fs) && OutsideShare(old(fs), fs, shareRoot)
      ensures ScanReport(old(fs), fs, projectRoot, denied, s, p, links)
      ensures FilesFirst(old(fs), projectRoot, s, p, links)
      ensures !Lists(old(fs), denied, s) ==> fs == old(fs) && links == []
      ensures Lists(old(fs), denied, s) ==> LevelDone(fs, shareRoot, denied, s, p)
      decreases |Below(fs, s)|, 3
    {
      links := [];
      if !Lists(fs, denied, s) {
        // iterdir raises
        return;
      }
      ghost var fs0 := fs;
      if s != shareRoot {
        AncestorIsDir(fs, s, shareRoot);
      }
      // In the link-free share `is_file()` and `is_dir()` are the kinds of the entries.
      var files := set n | n in Children(fs, s) && fs[s + [n]] == File;
      var directories := set n | n in Children(fs, s) && fs[s + [n]] == Dir;
      var fileLinks := ScanFiles(s, p, files);
      ghost var fs1 := fs;
      BelowStable(fs0, fs, shareRoot, s);
      var dirLinks, stopped := ScanSubdirectories(s, p, directories);
      ScanJoin(fs0, fs1, fs, shareRoot, projectRoot, denied, s, p, fileLinks, dirLinks);
      LevelDoneIntro(fs0, fs1, fs, shareRoot, projectRoot, denied, s, p, files, directories, stopped);
      links := fileLinks + dirLinks;
    }

    /** The first loop of `_scan_and_link_directory`: a link for each share
        file of `files` whose project counterpart does not exist. */
    method ScanFiles(s: Path, p: Path, files: set<string>) returns (links: seq<Path>)
      requires Valid() && Under(shareRoot, s) && Under(projectRoot, p) && s in fs
      requires forall n :: n in files ==> s + [n] in fs && fs[s + [n]] == File
      modifies this
      ensures Valid()
      ensures Grows(old(fs), fs) && OutsideShare(old(fs), fs, shareRoot)
      ensures ScanReport(old(fs), fs, projectRoot, denied, s, p, links)
      ensures forall i :: 0 <= i < |links| ==> LevelFile(old(fs), s, p, projectRoot + links[i])
      ensures forall n :: n in files ==> Settled(fs, shareRoot, s, p, n)
    {
      ghost var fs0 := fs;
      links := [];
      if s != shareRoot {
        AncestorIsDir(fs, s, shareRoot);
      }
      var todo := files;
      while todo != {}
        invariant Valid() && shareRoot in fs0 && todo <= files
        invariant Grows(fs0, fs) && OutsideShare(fs0, fs, shareRoot)
        invariant ScanReport(fs0, fs, projectRoot, denied, s, p, links)
        invariant forall i :: 0 <= i < |links| ==> LevelFile(fs0, s, p, projectRoot + links[i])
        invariant forall m :: m in files && m !in todo ==> Settled(fs, shareRoot, s, p, m)
        decreases todo
      {
        var n :| n in todo;
        ghost var todo0 := todo;
        todo := todo - {n};
        var si := s + [n];
        var pi := p + [n];
        ghost var fs1 := fs;
        if !Exists(fs, pi) {
          assert Under(shareRoot, si) && Under(projectRoot, pi) by {
            assert si[..|shareRoot|] == s[..|shareRoot|] && pi[..|projectRoot|] == p[..|projectRoot|];
          }
          var ok := CreateSymlink(si, pi);
          var links' := if ok then links + [pi[|projectRoot|..]] else links;
          ScanFileStep(fs0, fs1, fs, ok, shareRoot, projectRoot, denied, s, p, n, links, links');
          PlacedSettles(fs1, fs, ok, shareRoot, projectRoot, s, p, n);
          links := links';
        }
        SettledStep(fs1, fs, shareRoot, projectRoot, s, p, files, todo0, todo, n);
      }
    }

    /** The second loop of `_scan_and_link_directory`, over the share
        subdirectories `dirs` of `s`; it stops at the first entry whose
        handling raises, and `stopped` tells whether it did. */
    method ScanSubdirectories(s: Path, p: Path, dirs: set<string>) returns (links: seq<Path>, stopped: bool)
      requires Valid() && Under(shareRoot, s) && Under(projectRoot, p)
      requires forall n :: n in dirs ==> s + [n] in fs && fs[s + [n]] == Dir
      modifies this
      ensures Valid()
      ensures Grows(old(fs), fs) && OutsideShare(old(fs), fs, shareRoot)
      ensures ScanReport(old(fs), fs, projectRoot, denied, s, p, links)
      ensures forall i :: 0 <= i < |links| ==> !LevelFile(old(fs), s, p, projectRoot + links[i])
      ensures !stopped ==> forall n :: n in dirs ==> Settled(fs, shareRoot, s, p, n)
      ensures stopped ==> exists n :: n in dirs && Abandons(fs, shareRoot, denied, s, p, n)
      decreases |Below(fs, s)|, 2
    {
      ghost var fs0 := fs;
      links, stopped := [], false;
      var todo := dirs;
      ghost var last := "";
      while todo != {} && !stopped
        invariant Valid() && todo <= dirs
        invariant Grows(fs0, fs) && OutsideShare(fs0, fs, shareRoot)
        invariant ScanReport(fs0, fs, projectRoot, denied, s, p, links)
        invariant forall i :: 0 <= i < |links| ==> !LevelFile(fs0, s, p, projectRoot + links[i])
        invariant !stopped ==> forall m :: m in dirs && m !in todo ==> Settled(fs, shareRoot, s, p, m)
        invariant stopped ==> last in dirs && Abandons(fs, shareRoot, denied, s, p, last)
        decreases todo
      {
        var n :| n in todo;
        ghost var todo0 := todo;
        todo := todo - {n};
        ghost var fs1 := fs;
        BelowStable(fs0, fs, shareRoot, s);
        var sub, stop := ScanSubdirectory(s, p, n);
        ScanJoin(fs0, fs1, fs, shareRoot, projectRoot, denied, s, p, links, sub);
        if !stop {
          SettledStep(fs1, fs, shareRoot, projectRoot, s, p, dirs, todo0, todo, n);
        }
        links, stopped, last := links + sub, stop, n;
      }
    }

    /** One entry of the second loop: the share subdirectory `n` of `s`.
        `abandon` is set when handling it raises inside the loop's `try`
        (listing it fails, or so does the `mkdir` of the mixed case), which
        ends the loop. */
    method ScanSubdirectory(s: Path, p: Path, n: string) returns (links: seq<Path>, abandon: bool)
      requires Valid() && Under(shareRoot, s) && Under(projectRoot, p)
      requires s + [n] in fs && fs[s + [n]] == Dir
      modifies this
      ensures Valid()
      ensures Grows(old(fs), fs) && OutsideShare(old(fs), fs, shareRoot)
      ensures ScanReport(old(fs), fs, projectRoot, denied, s, p, links)
      ensures forall i :: 0 <= i < |links| ==> !LevelFile(old(fs), s, p, projectRoot + links[i])
      ensures abandon <==> Abandons(old(fs), shareRoot, denied, s, p, n)
      ensures abandon ==> fs == old(fs) && links == []
      ensures !abandon ==> Settled(fs, shareRoot, s, p, n)
      ensures Exists(old(fs), p + [n]) && Lists(old(fs), denied, s + [n]) ==>
                LevelDone(fs, shareRoot, denied, s + [n], p + [n])
      ensures !Exists(old(fs), p + [n]) && HasFile(old(fs), s + [n]) && !abandon ==>
                IsDir(fs, p + [n]) && LevelDone(fs, shareRoot, denied, s + [n], p + [n])
      ensures !Exists(old(fs), p + [n]) && Lists(old(fs), denied, s + [n]) && !HasFile(old(fs), s + [n]) ==>
                || (p + [n] in fs && fs[p + [n]] == Link(s + [n]) && links == [(p + [n])[|projectRoot|..]])
                || (PlaceLink(old(fs), s + [n], p + [n], shareRoot) == (old(fs), false) && fs == old(fs) && links == [])
      decreases |Below(fs, s)|, 1
    {
      links, abandon := [], false;
      var si := s + [n];
      var pi := p + [n];
      assert Under(shareRoot, si) && Under(projectRoot, pi) by {
        assert si[..|shareRoot|] == s[..|shareRoot|] && pi[..|projectRoot|] == p[..|projectRoot|];
      }
      ShareResolves(fs, shareRoot, projectRoot, si);
      AncestorIsDir(fs, si, shareRoot);
      BelowShrinks(fs, s, n);
      ghost var fs0 := fs;
      if Exists(fs, pi) {
        // the project entry exists: scan it for new files
        if IsDir(fs, si) {
          links := ScanAndLinkDirectory(si, pi);
          ScanWiden(fs0, fs, projectRoot, denied, s, p, n, links);
          ResolveMonotone(fs0, fs, pi);
        }
        return;
      }
      if !Lists(fs, denied, si) {
        // iterdir raises
        abandon := true;
        return;
      }
      if HasFile(fs, si) {
        links, abandon := ScanMixed(s, p, n);
      } else {
        // the shortcut: one link to the share directory
        ghost var fs1 := fs;
        var ok := CreateSymlink(si, pi);
        ScanLinkStep(fs1, fs, ok, shareRoot, projectRoot, denied, s, p, n);
        PlacedSettles(fs1, fs, ok, shareRoot, projectRoot, s, p, n);
        PlaceLinkInWorld(fs1, si, pi, shareRoot);
        if ok {
          links := [pi[|projectRoot|..]];
        }
      }
    }

    /** The mixed case of the second loop: the share subdirectory `n` of
        `s` holds a file and its project counterpart does not exist, so the
        counterpart is created with `mkdir(parents=True, exist_ok=True)`
        (not reported) and scanned. A failing `mkdir` raises. */
    method ScanMixed(s: Path, p: Path, n: string) returns (links: seq<Path>, abandon: bool)
      requires Valid() && Under(shareRoot, s) && Under(projectRoot, p) && shareRoot in fs
      requires Lists(fs, denied, s + [n]) && HasFile(fs, s + [n]) && !Exists(fs, p + [n])
      modifies this
      ensures Valid()
      ensures Grows(old(fs), fs) && OutsideShare(old(fs), fs, shareRoot)
      ensures ScanReport(old(fs), fs, projectRoot, denied, s, p, links)
      ensures forall i :: 0 <= i < |links| ==> !LevelFile(old(fs), s, p, projectRoot + links[i])
      ensures abandon <==> !Mkdir(old(fs), p + [n], shareRoot).1
      ensures abandon ==> fs == old(fs) && links == []
      ensures !abandon ==> IsDir(fs, p + [n]) && LevelDone(fs, shareRoot, denied, s + [n], p + [n])
      decreases |Below(fs, s)|, 0
    {
      links, abandon := [], false;
      var si := s + [n];
      var pi := p + [n];
      assert Under(shareRoot, si) && Under(projectRoot, pi) by {
        assert si[..|shareRoot|] == s[..|shareRoot|] && pi[..|projectRoot|] == p[..|projectRoot|];
      }
      BelowShrinks(fs, s, n);
      ghost var fs0 := fs;
      MkdirKeepsWorld(fs, shareRoot, projectRoot, pi);
      MkdirInWorld(fs, shareRoot, pi);
      var r := Mkdir(fs, pi, shareRoot);
      if !r.1 {
        // mkdir raises
        abandon := true;
        return;
      }
      fs := r.0;
      ghost var fs1 := fs;
      BelowStable(fs0, fs, shareRoot, si);
      var sub := ScanAndLinkDirectory(si, pi);
      ScanMixedJoin(fs0, fs1, fs, shareRoot, projectRoot, denied, s, p, n, sub);
      ResolveMonotone(fs1, fs, pi);
      links := sub;
    }

    /** One configured name `t` of `_create_deep_symlinks`, in a run that
        started from `fs0` and has listed `la` so far: skipped when the share
        has no `t` or the project entry is a link; otherwise the project
        directory is created when missing (a failing `mkdir` raises out of
        the whole run) and scanned. */
    method DeepName(t: string, ghost fs0: FileSystem, ghost la: seq<Path>) returns (lb: seq<Path>, raised: bool)
      requires Valid() && World(fs0, shareRoot, projectRoot) && t in targetDirectories
      requires Grows(fs0, fs) && OutsideShare(fs0, fs, shareRoot)
      requires DeepScanned(fs0, fs, shareRoot, projectRoot, denied, targetDirectories)
      requires DeepListed(fs0, fs, shareRoot, projectRoot, denied, la)
      requires IsSymlink(fs, projectRoot + [t]) <==> IsSymlink(fs0, projectRoot + [t])
      modifies this
      ensures Valid()
      ensures Grows(old(fs), fs) && OutsideShare(old(fs), fs, shareRoot)
      ensures forall k :: k in fs && k !in old(fs) ==>
                Under(k, projectRoot) || (StrictlyUnder(projectRoot, k) && k[|projectRoot|] == t)
      ensures !Exists(fs0, shareRoot + [t]) || old(IsSymlink(fs, projectRoot + [t])) ==>
                fs == old(fs) && lb == [] && !raised
      ensures raised ==> && fs == old(fs) && Exists(fs0, shareRoot + [t]) && !IsSymlink(fs0, projectRoot + [t])
                         && !Exists(fs, projectRoot + [t]) && !Mkdir(fs, projectRoot + [t], shareRoot).1
      ensures !raised && Exists(fs0, shareRoot + [t]) && !IsSymlink(fs0, projectRoot + [t]) ==>
                Exists(fs, projectRoot + [t])
      ensures && !raised && Exists(fs0, shareRoot + [t]) && !IsSymlink(fs0, projectRoot + [t])
              && Lists(fs0, denied, shareRoot + [t]) ==>
                LevelDone(fs, shareRoot, denied, shareRoot + [t], projectRoot + [t])
      ensures !raised ==> && DeepScanned(fs0, fs, shareRoot, projectRoot, denied, targetDirectories)
                          && DeepListed(fs0, fs, shareRoot, projectRoot, denied, la + lb)
    {
      lb, raised := [], false;
      var sb := shareRoot + [t];
      var pb := projectRoot + [t];
      assert Under(shareRoot, sb) && Under(projectRoot, pb) by {
        assert sb[..|shareRoot|] == shareRoot && pb[..|projectRoot|] == projectRoot;
      }
      ShareResolves(fs0, shareRoot, projectRoot, sb);
      ShareResolves(fs, shareRoot, projectRoot, sb);
      if !Exists(fs, sb) || IsSymlink(fs, pb) {
        return;
      }
      assert Parent(sb) == shareRoot;
      if shareRoot !in fs0 {
        ChildOfMissing(fs0, sb);
      }
      ghost var fs1 := fs;
      if !Exists(fs, pb) {
        MkdirInWorld(fs, shareRoot, pb);
        MkdirKeepsWorld(fs, shareRoot, projectRoot, pb);
        var r := Mkdir(fs, pb, shareRoot);
        if !r.1 {
          // mkdir raises: nothing catches it in `_create_deep_symlinks`
          raised := true;
          return;
        }
        fs := r.0;
      }
      ghost var fs2 := fs;
      lb := ScanAndLinkDirectory(sb, pb);
      DeepStep(fs0, fs1, fs2, fs, shareRoot, projectRoot, denied, targetDirectories, t, la, lb);
      ResolveMonotone(fs2, fs, pb);
    }

    /** `_create_deep_symlinks()`: every configured name in turn; the run
        either ends with the list of the links it created or is ended by the
        `mkdir` of a project directory, which nothing catches. */
    method CreateDeepSymlinks() returns (result: DeepResult)
      requires Valid()
      modifies this
      ensures Valid()
      ensures Grows(old(fs), fs) && OutsideShare(old(fs), fs, shareRoot)
      ensures DeepScanned(old(fs), fs, shareRoot, projectRoot, denied, targetDirectories)
      ensures result.Done? ==> DeepListed(old(fs), fs, shareRoot, projectRoot, denied, result.links)
      ensures result.Done? ==>
                forall t :: t in targetDirectories && Exists(old(fs), shareRoot + [t]) && !IsSymlink(old(fs), projectRoot + [t]) ==>
                  Exists(fs, projectRoot + [t])
      ensures result.Done? ==>
                forall t :: && t in targetDirectories && Exists(old(fs), shareRoot + [t]) && !IsSymlink(old(fs), projectRoot + [t])
                            && Lists(old(fs), denied, shareRoot + [t]) ==>
                  LevelDone(fs, shareRoot, denied, shareRoot + [t], projectRoot + [t])
      ensures result.Raised? ==>
                && result.name in targetDirectories && Exists(old(fs), shareRoot + [result.name])
                && !IsSymlink(old(fs), projectRoot + [result.name])
                && !Exists(fs, projectRoot + [result.name]) && !Mkdir(fs, projectRoot + [result.name], shareRoot).1
    {
      ghost var fs0 := fs;
      var links: seq<Path> := [];
      var todo := targetDirectories;
      while todo != {}
        invariant Valid() && World(fs0, shareRoot, projectRoot) && todo <= targetDirectories
        invariant Grows(fs0, fs) && OutsideShare(fs0, fs, shareRoot)
        invariant DeepScanned(fs0, fs, shareRoot, projectRoot, denied, targetDirectories)
        invariant DeepListed(fs0, fs, shareRoot, projectRoot, denied, links)
        invariant forall k :: k in fs && k !in fs0 && StrictlyUnder(projectRoot, k) ==> k[|projectRoot|] !in todo
        invariant forall u ::
                    u in targetDirectories && u !in todo && Exists(fs0, shareRoot + [u]) && !IsSymlink(fs0, projectRoot + [u])
                    ==> Exists(fs, projectRoot + [u])
        invariant forall u ::
                    && u in targetDirectories && u !in todo && Exists(fs0, shareRoot + [u]) && !IsSymlink(fs0, projectRoot + [u])
                    && Lists(fs0, denied, shareRoot + [u])
                    ==> LevelDone(fs, shareRoot, denied, shareRoot + [u], projectRoot + [u])
        decreases todo
      {
        var t :| t in todo;
        NameUntouched(fs0, fs, shareRoot, projectRoot, todo, t);
        ghost var todo0 := todo;
        todo := todo - {t};
        ghost var fs1 := fs;
        var sub, raised := DeepName(t, fs0, links);
        if raised {
          return Raised(t);
        }
        DeepLevelStep(fs0, fs1, fs, shareRoot, projectRoot, denied, targetDirectories, todo0, todo, t);
        DeepNameStep(fs0, fs1, fs, shareRoot, projectRoot, targetDirectories, todo0, todo, t);
        links := links + sub;
      }
      return Done(links);
    }

    /** `_create_deep_symlinks_for_existing_directory(s, p)`: the scan of
        `s` into `p`; the scan raises nothing, so the surrounding `try`
        never fires. */
    method CreateDeepSymlinksForExistingDirectory(s: Path, p: Path) returns (links: seq<Path>)
      requires Valid() && Under(shareRoot, s) && Under(projectRoot, p)
      modifies this
      ensures Valid()
      ensures Grows(old(fs), fs) && OutsideShare(old(fs), fs, shareRoot)
      ensures ScanReport(old(fs), fs, projectRoot, denied, s, p, links)
      ensures FilesFirst(old(fs), projectRoot, s, p, links)
      ensures Lists(old(fs), denied, s) ==> LevelDone(fs, shareRoot, denied, s, p)
    {
      links := ScanAndLinkDirectory(s, p);
    }
  }

  /** `setup_share_symlinks(project_root, share_directory)`: a fresh manager
      running `create_symlinks()` once; the result is the new filesystem. A
      second run from that state changes nothing. */
  method SetupShareSymlinks(projectRoot: Path, shareRoot: Path := DefaultShareDirectory,
                            nameonly denied: set<Path>, nameonly fs: FileSystem)
    returns (fs': FileSystem)
    requires World(fs, shareRoot, projectRoot)
    ensures World(fs', shareRoot, projectRoot)
    ensures Grows(fs, fs') && OutsideShare(fs, fs', shareRoot)
    ensures !Exists(fs, shareRoot) ==> fs' == fs
    ensures forall k :: k in fs' && k !in fs ==> Touched(fs, shareRoot, projectRoot, TargetDirectories, k)
    ensures AllQuiet(fs, shareRoot, projectRoot, denied, TargetDirectories) ==> fs' == fs
    ensures AllQuiet(fs', shareRoot, projectRoot, denied, TargetDirectories)
  {
    var manager := new SymlinkManager(projectRoot, shareRoot, denied := denied, fs := fs);
    var _, _, _ := manager.CreateSymlinks();
    fs' := manager.fs;
  }
}
