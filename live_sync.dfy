/**
 The rule of the live sync (`_sync_directory_recursive`, called by
 `create_symlinks`): recurse into every share directory, create the project
 directory when it does not exist, and link each share file whose project
 counterpart does not exist. This module states what one run reports, and
 `Quiet`: the condition under which a run changes nothing, which every run
 establishes.
 */
module LiveSync {
  import opened FsModel
  import opened WorldModel
  import opened LinkPrimitive

  /** The entries strictly below `s`; the recursion measure. */
  function Below(fs: FileSystem, s: Path): set<Path> {
    set k | k in fs && StrictlyUnder(s, k)
  }

  lemma BelowShrinks(fs: FileSystem, s: Path, n: string)
    requires s + [n] in fs
    ensures |Below(fs, s + [n])| < |Below(fs, s)|
  {
    var c := s + [n];
    assert c[..|s|] == s;
    var a := Below(fs, c);
    var b := Below(fs, s);
    forall k | k in a ensures k in b - {c} {
      assert k[..|s|] == k[..|c|][..|s|];
    }
    assert a <= b - {c};
    assert b - {c} == a + ((b - {c}) - a);
  }

  /** Writes outside the share leave the share subtree as it was. */
  lemma BelowStable(fs: FileSystem, fs': FileSystem, share: Path, s: Path)
    requires Grows(fs, fs') && OutsideShare(fs, fs', share) && Under(share, s)
    ensures Below(fs', s) == Below(fs, s)
    ensures Children(fs', s) == Children(fs, s)
    ensures s in fs' ==> s in fs
  {
    forall k | k in fs' && StrictlyUnder(s, k) ensures k in fs {
      assert k[..|share|] == k[..|s|][..|share|];
    }
    forall n | s + [n] in fs' ensures s + [n] in fs {
      assert (s + [n])[..|share|] == s[..|share|];
    }
  }

  /** A path below one that exists also has every prefix existing. */
  lemma {:induction false} PrefixExists(fs: FileSystem, k: Path, p: Path)
    requires Exists(fs, p) && Under(k, p)
    ensures Exists(fs, k)
    decreases |p|
  {
    if k != p {
      assert Under(k, Parent(p));
      PrefixExists(fs, k, Parent(p));
    }
  }

  lemma AppendName(root: Path, rel: Path, n: string)
    ensures root + rel + [n] == root + (rel + [n])
  {
  }

  // ---------------------------------------------------------------------
  // Failures that stay failures

  /** A `mkdir(parents=True)` that fails on a missing path keeps failing,
      and the path keeps missing, after more entries appear outside the
      share. */
  lemma {:induction false} MkdirFailStable(fs: FileSystem, fs': FileSystem, share: Path, p: Path)
    requires WellFormed(fs) && LinksIntoShare(fs, share) && ShareLinkFree(fs, share) && share in fs
    requires Grows(fs, fs') && OutsideShare(fs, fs', share)
    requires !Exists(fs, p) && !Mkdir(fs, p, share).1
    ensures !Exists(fs', p) && !Mkdir(fs', p, share).1
    decreases |p|
  {
    var q := Parent(p);
    assert p == q + [Name(p)];
    if !Exists(fs, q) {
      MkdirInWorld(fs, share, p);
      MkdirInWorld(fs, share, q);
      MkdirFailStable(fs, fs', share, q);
    } else if IsDir(fs, q) {
      MkdirDanglingStable(fs, fs', share, p);
    } else {
      ResolveMonotone(fs, fs', q);
      MkdirBlocked(fs', p, q, share);
    }
  }

  /** The case of `MkdirFailStable` where the parent is a directory: the
      slot holds a dangling link or lies in the share, and stays so. */
  lemma MkdirDanglingStable(fs: FileSystem, fs': FileSystem, share: Path, p: Path)
    requires LinksIntoShare(fs, share) && ShareLinkFree(fs, share)
    requires Grows(fs, fs') && OutsideShare(fs, fs', share)
    requires p != [] && IsDir(fs, Parent(p))
    requires !Exists(fs, p) && !Mkdir(fs, p, share).1
    ensures !Exists(fs', p) && !Mkdir(fs', p, share).1
  {
    ResolveMonotone(fs, fs', Parent(p));
    SlotMonotone(fs, fs', p);
    MkdirUnderDir(fs, p, share);
    SlotStaysDead(fs, fs', share, p);
    MkdirUnderDir(fs', p, share);
  }

  /** A slot holding a dangling link, or lying in the share, stays taken
      and missing as entries are added outside the share. */
  lemma SlotStaysDead(fs: FileSystem, fs': FileSystem, share: Path, p: Path)
    requires LinksIntoShare(fs, share) && ShareLinkFree(fs, share)
    requires Grows(fs, fs') && OutsideShare(fs, fs', share)
    requires p != [] && Slot(fs, p).Some? && Slot(fs', p) == Slot(fs, p)
    requires Resolve(fs', Parent(p)) == Resolve(fs, Parent(p))
    requires !Exists(fs, p) && !Free(fs, p, share)
    ensures !Exists(fs', p) && !Free(fs', p, share)
  {
    var e := Slot(fs, p).value;
    if e in fs {
      assert fs[e].Link?;
      var t := fs[e].target;
      assert t !in fs;
      assert t !in fs' && fs'[e] == fs[e];
    } else {
      assert e !in fs';
    }
  }

  /** A placement that fails below an existing parent keeps failing. */
  lemma PlaceLinkFailStable(fs: FileSystem, fs': FileSystem, share: Path, source: Path, target: Path)
    requires target != [] && Exists(fs, Parent(target)) && Grows(fs, fs')
    requires !PlaceLink(fs, source, target, share).1
    ensures !PlaceLink(fs', source, target, share).1
  {
    var q := Parent(target);
    assert target == q + [Name(target)];
    ResolveMonotone(fs, fs', q);
    if IsDir(fs, q) {
      assert Mkdir(fs, q, share) == (fs, true);
      assert Mkdir(fs', q, share) == (fs', true);
      SlotMonotone(fs, fs', target);
    } else {
      MkdirBlocked(fs', q, q, share);
    }
  }

  // ---------------------------------------------------------------------
  // When a run changes nothing

  /** A run of the live sync on `s` and `p` changes nothing: the project
      directory exists or cannot be created, and when it exists and the
      share directory can be listed, every child is quiet. */
  ghost predicate Quiet(fs: FileSystem, share: Path, denied: set<Path>, s: Path, p: Path)
    decreases |Below(fs, s)|, 1
  {
    && (Exists(fs, p) || Mkdir(fs, p, share) == (fs, false))
    && (Exists(fs, p) && Lists(fs, denied, s) ==>
          forall n :: n in Children(fs, s) ==> ChildQuiet(fs, share, denied, s, p, n))
  }

  /** Every child of `s` is quiet. */
  ghost predicate ChildrenQuiet(fs: FileSystem, share: Path, denied: set<Path>, s: Path, p: Path) {
    forall n :: n in Children(fs, s) ==> ChildQuiet(fs, share, denied, s, p, n)
  }

  /** A share file whose project counterpart exists or cannot be linked; a
      share directory whose run is quiet. */
  ghost predicate ChildQuiet(fs: FileSystem, share: Path, denied: set<Path>, s: Path, p: Path, n: string)
    decreases |Below(fs, s)|, 0
  {
    s + [n] in fs &&
    match fs[s + [n]]
    case File => Exists(fs, p + [n]) || PlaceLink(fs, s + [n], p + [n], share) == (fs, false)
    case Dir => BelowShrinks(fs, s, n); Quiet(fs, share, denied, s + [n], p + [n])
    case Link(_) => true
  }

  /** Quietness survives every change the live sync makes elsewhere. */
  lemma {:induction false} QuietStable(fs: FileSystem, fs': FileSystem, share: Path, project: Path,
                                      denied: set<Path>, s: Path, p: Path)
    requires World(fs, share, project) && World(fs', share, project) && share in fs
    requires Grows(fs, fs') && OutsideShare(fs, fs', share) && Under(share, s)
    requires Quiet(fs, share, denied, s, p)
    ensures Quiet(fs', share, denied, s, p)
    decreases |Below(fs, s)|, 1
  {
    if Exists(fs, p) {
      ResolveMonotone(fs, fs', p);
    } else {
      MkdirFailStable(fs, fs', share, p);
      MkdirInWorld(fs', share, p);
    }
    if Exists(fs', p) && Lists(fs', denied, s) {
      BelowStable(fs, fs', share, s);
      forall n | n in Children(fs', s) ensures ChildQuiet(fs', share, denied, s, p, n) {
        ChildQuietStable(fs, fs', share, project, denied, s, p, n);
      }
    }
  }

  lemma {:induction false} ChildQuietStable(fs: FileSystem, fs': FileSystem, share: Path, project: Path,
                                           denied: set<Path>, s: Path, p: Path, n: string)
    requires World(fs, share, project) && World(fs', share, project) && share in fs
    requires Grows(fs, fs') && OutsideShare(fs, fs', share) && Under(share, s)
    requires Exists(fs, p) && ChildQuiet(fs, share, denied, s, p, n)
    ensures ChildQuiet(fs', share, denied, s, p, n)
    decreases |Below(fs, s)|, 0
  {
    var c := s + [n];
    assert Under(share, c) by {
      assert c[..|share|] == s[..|share|];
    }
    assert c == s + [n] && (p + [n])[..|p|] == p && Parent(p + [n]) == p;
    match fs[c]
    case File =>
      if Exists(fs, p + [n]) {
        ResolveMonotone(fs, fs', p + [n]);
      } else {
        PlaceLinkFailStable(fs, fs', share, c, p + [n]);
        ResolveMonotone(fs, fs', p);
        PlaceLinkUnderExisting(fs', c, p + [n], share);
      }
    case Dir =>
      BelowShrinks(fs, s, n);
      QuietStable(fs, fs', share, project, denied, c, p + [n]);
    case Link(_) =>
  }

  // ---------------------------------------------------------------------
  // What a run reports

  /** `x` (relative to the project root, below `rel`) is a link the run
      created: a new entry pointing at the share file of the same relative
      path. */
  ghost predicate SyncLink(fs0: FileSystem, fs: FileSystem, share: Path, project: Path, rel: Path, x: Path) {
    && StrictlyUnder(rel, x)
    && project + x !in fs0 && project + x in fs && fs[project + x] == Link(share + x)
    && share + x in fs0 && fs0[share + x] == File
  }

  /** `x` (relative to the project root, at or below `rel`) is a directory
      the run created for an entry of the share of the same relative path:
      a share directory, or, for a configured name, whatever its share entry
      is. */
  ghost predicate SyncDir(fs0: FileSystem, fs: FileSystem, share: Path, project: Path, rel: Path, x: Path) {
    && Under(rel, x) && project + x !in fs0 && project + x in fs && fs[project + x] == Dir
    && share + x in fs0 && (|x| > 1 ==> fs0[share + x] == Dir)
  }

  /** The `links` and `directories` lists of a run on `rel` starting in
      `fs0` and ending in `fs`: each entry is something the run created,
      none is listed twice, and every entry the run created is listed,
      except directories at or above `outer` (the missing ancestors that
      `mkdir(parents=True)` creates on the way). Nothing is created where
      `exists()` held before. */
  ghost predicate SyncReport(fs0: FileSystem, fs: FileSystem, share: Path, project: Path, rel: Path,
                             outer: Path, links: seq<Path>, dirs: seq<Path>) {
    && (forall i :: 0 <= i < |links| ==> SyncLink(fs0, fs, share, project, rel, links[i]))
    && (forall i, j :: 0 <= i < j < |links| ==> links[i] != links[j])
    && (forall i :: 0 <= i < |dirs| ==> SyncDir(fs0, fs, share, project, rel, dirs[i]))
    && (forall i, j :: 0 <= i < j < |dirs| ==> dirs[i] != dirs[j])
    && (forall k :: k in fs && k !in fs0 ==> !Exists(fs0, k))
    && (forall k :: k in fs && k !in fs0 && fs[k] != Dir ==> Under(project, k) && k[|project|..] in links)
    && (forall k :: k in fs && k !in fs0 && fs[k] == Dir ==>
          (Under(project, k) && k[|project|..] in dirs) || Under(k, outer))
  }

  /** A successful `mkdir(parents=True)` of a missing path creates it. */
  lemma MkdirCreates(fs0: FileSystem, share: Path, p: Path)
    requires WellFormed(fs0) && LinksIntoShare(fs0, share) && share in fs0
    requires !Exists(fs0, p) && Mkdir(fs0, p, share).1
    ensures p !in fs0 && p in Mkdir(fs0, p, share).0 && Mkdir(fs0, p, share).0[p] == Dir
    ensures forall k :: k in Mkdir(fs0, p, share).0 && k !in fs0 ==>
              Mkdir(fs0, p, share).0[k] == Dir && Under(k, p) && !Exists(fs0, k)
  {
    MkdirInWorld(fs0, share, p);
    assert Mkdir(fs0, p, share).0 != fs0;
  }

  /** The report of a run that has only created the project directory
      `project + rel` (with its missing ancestors). */
  lemma SyncAfterMkdir(fs0: FileSystem, fs1: FileSystem, share: Path, project: Path, rel: Path)
    requires Grows(fs0, fs1)
    requires project + rel !in fs0 && project + rel in fs1 && fs1[project + rel] == Dir
    requires forall k :: k in fs1 && k !in fs0 ==> fs1[k] == Dir && Under(k, project + rel) && !Exists(fs0, k)
    requires rel != [] && share + rel in fs0 && (|rel| > 1 ==> fs0[share + rel] == Dir)
    ensures SyncReport(fs0, fs1, share, project, rel, Parent(project + rel), [], [rel])
  {
    var p := project + rel;
    assert p[|project|..] == rel;
    assert Under(project, p);
    assert SyncDir(fs0, fs1, share, project, rel, rel);
    forall k | k in fs1 && k !in fs0
      ensures (Under(project, k) && k[|project|..] in [rel]) || Under(k, Parent(p))
    {
      if |k| == |p| {
        assert k == p;
      } else {
        assert Parent(p)[..|k|] == p[..|k|];
      }
    }
  }

  /** What the `mkdir(parents=True, exist_ok=True)` of a missing project
      directory `project + rel` does: it fails without change, or creates
      the directory with its missing ancestors, the directory being the
      only one reported. */
  lemma MkdirReport(fs0: FileSystem, share: Path, project: Path, rel: Path)
    requires World(fs0, share, project) && share in fs0
    requires rel != [] && !Exists(fs0, project + rel)
    requires share + rel in fs0 && (|rel| > 1 ==> fs0[share + rel] == Dir)
    ensures var r := Mkdir(fs0, project + rel, share);
            && World(r.0, share, project) && Grows(fs0, r.0) && OutsideShare(fs0, r.0, share)
            && (!r.1 ==> r.0 == fs0)
            && (r.1 ==> Exists(r.0, project + rel)
                        && SyncReport(fs0, r.0, share, project, rel, Parent(project + rel), [], [rel]))
  {
    var p := project + rel;
    MkdirInWorld(fs0, share, p);
    MkdirKeepsWorld(fs0, share, project, p);
    var r := Mkdir(fs0, p, share);
    if r.1 {
      MkdirCreates(fs0, share, p);
      SyncAfterMkdir(fs0, r.0, share, project, rel);
    }
  }

  /** The report after one more file link `rel + [n]`. */
  lemma SyncAfterLink(fs0: FileSystem, fs: FileSystem, share: Path, project: Path, rel: Path, outer: Path, n: string,
                      links: seq<Path>, dirs: seq<Path>)
    requires Grows(fs0, fs) && OutsideShare(fs0, fs, share)
    requires SyncReport(fs0, fs, share, project, rel, outer, links, dirs)
    requires project + rel + [n] !in fs && !Exists(fs, project + rel + [n])
    requires share + rel + [n] in fs && fs[share + rel + [n]] == File
    ensures var fs' := fs[project + rel + [n] := Link(share + rel + [n])];
            SyncReport(fs0, fs', share, project, rel, outer, links + [rel + [n]], dirs)
  {
    var x := rel + [n];
    var k := project + x;
    assert project + rel + [n] == k && share + rel + [n] == share + x;
    var fs' := fs[k := Link(share + x)];
    assert Under(share, share + x) by {
      assert (share + x)[..|share|] == share;
    }
    assert StrictlyUnder(rel, x) by {
      assert x[..|rel|] == rel;
    }
    assert Under(project, k) && k[|project|..] == x by {
      assert k[..|project|] == project;
    }
    if Exists(fs0, k) {
      ResolveMonotone(fs0, fs, k);
    }
    assert SyncLink(fs0, fs', share, project, rel, x);
    var links' := links + [x];
    forall i | 0 <= i < |links'| ensures SyncLink(fs0, fs', share, project, rel, links'[i]) {
      if i < |links| {
        assert links'[i] == links[i];
      }
    }
  }

  /** A report on the child `rel + [n]` is also a report on `rel`. */
  lemma SyncWiden(fs1: FileSystem, fs2: FileSystem, share: Path, project: Path,
                  rel: Path, n: string, outer: Path, lb: seq<Path>, db: seq<Path>)
    requires SyncReport(fs1, fs2, share, project, rel + [n], outer, lb, db)
    ensures SyncReport(fs1, fs2, share, project, rel, outer, lb, db)
  {
    forall x | Under(rel + [n], x) ensures StrictlyUnder(rel, x) && Under(rel, x) {
      assert x[..|rel|] == x[..|rel + [n]|][..|rel|];
    }
    forall i | 0 <= i < |lb| ensures SyncLink(fs1, fs2, share, project, rel, lb[i]) {
      assert SyncLink(fs1, fs2, share, project, rel + [n], lb[i]);
    }
    forall i | 0 <= i < |db| ensures SyncDir(fs1, fs2, share, project, rel, db[i]) {
      assert SyncDir(fs1, fs2, share, project, rel + [n], db[i]);
    }
  }

  /** The file `rel + [n]` of the share, seen by the sync of `rel` once the
      project directory `project + rel` exists: when nothing exists at its
      project path the primitive is called, and either fails without
      change or places the one reported link. Afterwards the child is
      quiet. */
  lemma LinkReport(fs0: FileSystem, fs: FileSystem, ok: bool, share: Path, project: Path, rel: Path, n: string)
    requires WellFormed(fs0) && LinksIntoShare(fs0, share) && share in fs0 && WellFormed(fs)
    requires share + rel + [n] in fs0 && fs0[share + rel + [n]] == File
    requires Exists(fs0, project + rel) && !Exists(fs0, project + rel + [n])
    requires (fs, ok) == PlaceLink(fs0, share + rel + [n], project + rel + [n], share)
    ensures Grows(fs0, fs) && OutsideShare(fs0, fs, share)
    ensures !ok ==> fs == fs0
    ensures SyncReport(fs0, fs, share, project, rel, project + rel, if ok then [rel + [n]] else [], [])
    ensures Exists(fs, project + rel + [n]) || PlaceLink(fs, share + rel + [n], project + rel + [n], share) == (fs, false)
  {
    var si := share + rel + [n];
    var pi := project + rel + [n];
    assert Parent(pi) == project + rel;
    PlaceLinkUnderExisting(fs0, si, pi, share);
    if ok {
      assert fs == fs0[pi := Link(si)];
      SyncAfterLink(fs0, fs0, share, project, rel, project + rel, n, [], []);
      assert [] + [rel + [n]] == [rel + [n]];
      LinkResolves(fs, pi);
    } else {
      assert fs == fs0;
    }
  }

  /** Appending the report of a later run on `rel`, started where the
      project directory `project + rel` already existed, to an earlier
      report on `rel`. */
  lemma SyncJoin(fs0: FileSystem, fs1: FileSystem, fs2: FileSystem, share: Path, project: Path,
                 rel: Path, outer: Path, la: seq<Path>, da: seq<Path>, lb: seq<Path>, db: seq<Path>)
    requires Grows(fs0, fs1) && Grows(fs1, fs2) && OutsideShare(fs0, fs1, share)
    requires Exists(fs1, project + rel) || outer == project + rel
    requires SyncReport(fs0, fs1, share, project, rel, outer, la, da)
    requires SyncReport(fs1, fs2, share, project, rel, project + rel, lb, db)
    ensures SyncReport(fs0, fs2, share, project, rel, outer, la + lb, da + db)
  {
    var p := project + rel;
    forall x | share + x in fs1 ensures share + x in fs0 {
      assert (share + x)[..|share|] == share;
    }
    forall k | k in fs2 && k !in fs0 ensures !Exists(fs0, k) {
      if k in fs1 {
      } else if Exists(fs0, k) {
        ResolveMonotone(fs0, fs1, k);
      }
    }
    forall k | k in fs2 && k !in fs1 && fs2[k] == Dir && Under(k, p)
      ensures Under(k, outer)
    {
      if Exists(fs1, p) {
        PrefixExists(fs1, k, p);
      }
    }
    var ls := la + lb;
    forall i | 0 <= i < |ls| ensures SyncLink(fs0, fs2, share, project, rel, ls[i]) {
      if i < |la| {
        assert ls[i] == la[i];
      } else {
        assert ls[i] == lb[i - |la|];
      }
    }
    forall i, j | 0 <= i < j < |ls| ensures ls[i] != ls[j] {
      if i < |la| && j >= |la| {
        assert ls[i] == la[i] && ls[j] == lb[j - |la|];
        assert project + la[i] in fs1;
      }
    }
    var ds := da + db;
    forall i | 0 <= i < |ds| ensures SyncDir(fs0, fs2, share, project, rel, ds[i]) {
      if i < |da| {
        assert ds[i] == da[i];
      } else {
        assert ds[i] == db[i - |da|];
      }
    }
    forall i, j | 0 <= i < j < |ds| ensures ds[i] != ds[j] {
      if i < |da| && j >= |da| {
        assert ds[i] == da[i] && ds[j] == db[j - |da|];
        assert project + da[i] in fs1;
      }
    }
  }

  /** One more entry `n` handled by the loop of the sync of `rel`: the
      reports join, and the entries handled before stay quiet. */
  lemma ChildrenStep(fs0: FileSystem, fs1: FileSystem, fs: FileSystem, share: Path, project: Path,
                     denied: set<Path>, rel: Path, done: set<string>, n: string,
                     la: seq<Path>, da: seq<Path>, lb: seq<Path>, db: seq<Path>)
    requires World(fs1, share, project) && World(fs, share, project) && share in fs1
    requires Grows(fs0, fs1) && Grows(fs1, fs) && OutsideShare(fs0, fs1, share) && OutsideShare(fs1, fs, share)
    requires Under(share, share + rel) && Exists(fs1, project + rel)
    requires forall m :: m in done ==> ChildQuiet(fs1, share, denied, share + rel, project + rel, m)
    requires ChildQuiet(fs, share, denied, share + rel, project + rel, n)
    requires SyncReport(fs0, fs1, share, project, rel, project + rel, la, da)
    requires SyncReport(fs1, fs, share, project, rel, project + rel, lb, db)
    ensures forall m :: m in done + {n} ==> ChildQuiet(fs, share, denied, share + rel, project + rel, m)
    ensures SyncReport(fs0, fs, share, project, rel, project + rel, la + lb, da + db)
    ensures Exists(fs, project + rel)
  {
    SyncJoin(fs0, fs1, fs, share, project, rel, project + rel, la, da, lb, db);
    forall m | m in done + {n} ensures ChildQuiet(fs, share, denied, share + rel, project + rel, m) {
      if m != n {
        ChildQuietStable(fs1, fs, share, project, denied, share + rel, project + rel, m);
      }
    }
    ResolveMonotone(fs1, fs, project + rel);
  }

  /** Appending the report of the run on the child `rel + [n]`, whose
      project directory already existed, to the report of its parent. */
  lemma SyncCompose(fs0: FileSystem, fs1: FileSystem, fs2: FileSystem, share: Path, project: Path,
                    rel: Path, outer: Path, n: string, la: seq<Path>, da: seq<Path>, lb: seq<Path>, db: seq<Path>)
    requires Grows(fs0, fs1) && Grows(fs1, fs2) && OutsideShare(fs0, fs1, share)
    requires Exists(fs1, project + rel) || outer == project + rel
    requires SyncReport(fs0, fs1, share, project, rel, outer, la, da)
    requires SyncReport(fs1, fs2, share, project, rel + [n], project + rel, lb, db)
    ensures SyncReport(fs0, fs2, share, project, rel, outer, la + lb, da + db)
  {
    SyncWiden(fs1, fs2, share, project, rel, n, project + rel, lb, db);
    SyncJoin(fs0, fs1, fs2, share, project, rel, outer, la, da, lb, db);
  }

  // ---------------------------------------------------------------------
  // `create_symlinks`: the live sync of every configured name

  /** A run of the live sync changes nothing for the name `t`. */
  ghost predicate NameQuiet(fs: FileSystem, share: Path, project: Path, denied: set<Path>, t: string) {
    Exists(fs, share + [t]) ==> Quiet(fs, share, denied, share + [t], project + [t])
  }

  /** A run of `create_symlinks` over `names` changes nothing. */
  ghost predicate AllQuiet(fs: FileSystem, share: Path, project: Path, denied: set<Path>, names: set<string>) {
    Exists(fs, share) ==> forall t :: t in names ==> NameQuiet(fs, share, project, denied, t)
  }

  /** The entries a run of `create_symlinks` may create: an ancestor of the
      project root, or an entry below the project directory of a
      configured name present in the share. */
  ghost predicate Touched(fs0: FileSystem, share: Path, project: Path, names: set<string>, k: Path) {
    Under(k, project) ||
    (StrictlyUnder(project, k) && k[|project|] in names && share + [k[|project|]] in fs0)
  }

  lemma NameQuietStable(fs: FileSystem, fs': FileSystem, share: Path, project: Path, denied: set<Path>, t: string)
    requires World(fs, share, project) && World(fs', share, project) && share in fs
    requires Grows(fs, fs') && OutsideShare(fs, fs', share)
    requires NameQuiet(fs, share, project, denied, t)
    ensures NameQuiet(fs', share, project, denied, t)
  {
    var s := share + [t];
    assert Under(share, s) by {
      assert s[..|share|] == share;
    }
    ShareResolves(fs, share, project, s);
    ShareResolves(fs', share, project, s);
    if Exists(fs', s) {
      QuietStable(fs, fs', share, project, denied, s, project + [t]);
    }
  }

  /** What the loop of `create_symlinks` has established once it has
      handled the configured names `done`, starting from `fs0`: `skipped`
      lists, once each, the handled names missing from the share; the
      reports of the names handled so far join into `links` and `dirs`;
      everything created is touched; every handled name is quiet now; and
      nothing has changed when the whole run is one that changes nothing. */
  ghost predicate NamesProgress(fs0: FileSystem, fs: FileSystem, share: Path, project: Path,
                                denied: set<Path>, names: set<string>, done: set<string>,
                                skipped: seq<string>, links: seq<Path>, dirs: seq<Path>) {
    && Grows(fs0, fs) && OutsideShare(fs0, fs, share)
    && (forall t :: t in skipped <==> t in done && share + [t] !in fs0)
    && (forall i, j :: 0 <= i < j < |skipped| ==> skipped[i] != skipped[j])
    && SyncReport(fs0, fs, share, project, [], project, links, dirs)
    && (forall k :: k in fs && k !in fs0 ==> Touched(fs0, share, project, names, k))
    && (forall t :: t in done ==> NameQuiet(fs, share, project, denied, t))
    && (AllQuiet(fs0, share, project, denied, names) ==> fs == fs0 && links == [] && dirs == [])
  }

  /** The outcome of the run for the configured name `t` from `fs` to
      `fs'`: `found` says whether its share counterpart exists, a missing
      one changes nothing, the run reports what it created, a quiet name
      changes nothing, and the name is quiet afterwards. */
  ghost predicate NameRun(fs: FileSystem, fs': FileSystem, share: Path, project: Path,
                          denied: set<Path>, t: string, found: bool, links: seq<Path>, dirs: seq<Path>) {
    && Grows(fs, fs') && OutsideShare(fs, fs', share)
    && (found <==> Exists(fs, share + [t]))
    && (!found ==> fs' == fs && links == [] && dirs == [])
    && SyncReport(fs, fs', share, project, [t], project, links, dirs)
    && (NameQuiet(fs, share, project, denied, t) ==> fs' == fs && links == [] && dirs == [])
    && NameQuiet(fs', share, project, denied, t)
  }

  lemma NamesStart(fs: FileSystem, share: Path, project: Path, denied: set<Path>, names: set<string>)
    ensures NamesProgress(fs, fs, share, project, denied, names, {}, [], [], [])
  {
  }

  /** The share counterpart of `t` exists after the earlier names' runs
      exactly when it was there before them. */
  lemma FoundStable(fs0: FileSystem, fs1: FileSystem, share: Path, project: Path, t: string)
    requires World(fs1, share, project)
    requires Grows(fs0, fs1) && OutsideShare(fs0, fs1, share)
    ensures Exists(fs1, share + [t]) <==> share + [t] in fs0
  {
    var s := share + [t];
    assert Under(share, s) by {
      assert s[..|share|] == share;
    }
    ShareResolves(fs1, share, project, s);
  }

  /** The names handled earlier stay quiet through the run for `t`. */
  lemma DoneQuiet(fs1: FileSystem, fs: FileSystem, share: Path, project: Path, denied: set<Path>,
                  done: set<string>, t: string)
    requires World(fs1, share, project) && World(fs, share, project) && share in fs1
    requires Grows(fs1, fs) && OutsideShare(fs1, fs, share)
    requires forall u :: u in done ==> NameQuiet(fs1, share, project, denied, u)
    requires NameQuiet(fs, share, project, denied, t)
    ensures forall u :: u in done + {t} ==> NameQuiet(fs, share, project, denied, u)
  {
    forall u | u in done + {t} ensures NameQuiet(fs, share, project, denied, u) {
      if u != t {
        NameQuietStable(fs1, fs, share, project, denied, u);
      }
    }
  }

  /** In a run that changes nothing, the name `t` is quiet before its run. */
  lemma QuietBefore(fs0: FileSystem, share: Path, project: Path, denied: set<Path>,
                    names: set<string>, t: string)
    requires World(fs0, share, project) && share in fs0 && t in names
    requires AllQuiet(fs0, share, project, denied, names)
    ensures NameQuiet(fs0, share, project, denied, t)
  {
    ShareResolves(fs0, share, project, share);
  }

  /** `skipped` gains `t` exactly when its share counterpart is missing. */
  lemma SkippedStep(fs0: FileSystem, share: Path, done: set<string>, t: string, found: bool,
                    skipped: seq<string>)
    requires t !in done && (found <==> share + [t] in fs0)
    requires forall u :: u in skipped <==> u in done && share + [u] !in fs0
    requires forall i, j :: 0 <= i < j < |skipped| ==> skipped[i] != skipped[j]
    ensures var skipped' := if found then skipped else skipped + [t];
            && (forall u :: u in skipped' <==> u in done + {t} && share + [u] !in fs0)
            && (forall i, j :: 0 <= i < j < |skipped'| ==> skipped'[i] != skipped'[j])
  {
  }

  /** The report of the run for `t` joins the reports of the names before. */
  lemma NameCompose(fs0: FileSystem, fs1: FileSystem, fs: FileSystem, share: Path, project: Path,
                    t: string, la: seq<Path>, da: seq<Path>, lb: seq<Path>, db: seq<Path>)
    requires Grows(fs0, fs1) && Grows(fs1, fs) && OutsideShare(fs0, fs1, share)
    requires SyncReport(fs0, fs1, share, project, [], project, la, da)
    requires SyncReport(fs1, fs, share, project, [t], project, lb, db)
    ensures SyncReport(fs0, fs, share, project, [], project, la + lb, da + db)
  {
    assert [] + [t] == [t];
    assert project + [] == project;
    SyncCompose(fs0, fs1, fs, share, project, [], project, t, la, da, lb, db);
  }

  /** One more configured name `t` handled by the loop of
      `create_symlinks`. */
  lemma NamesStep(fs0: FileSystem, fs1: FileSystem, fs: FileSystem, share: Path, project: Path,
                  denied: set<Path>, names: set<string>, done: set<string>, t: string, found: bool,
                  skipped: seq<string>, la: seq<Path>, da: seq<Path>, lb: seq<Path>, db: seq<Path>,
                  skipped': seq<string>, links: seq<Path>, dirs: seq<Path>)
    requires World(fs1, share, project) && World(fs, share, project)
    requires share in fs1 && t in names && t !in done
    requires NamesProgress(fs0, fs1, share, project, denied, names, done, skipped, la, da)
    requires NameRun(fs1, fs, share, project, denied, t, found, lb, db)
    requires skipped' == (if found then skipped else skipped + [t]) && links == la + lb && dirs == da + db
    ensures NamesProgress(fs0, fs, share, project, denied, names, done + {t}, skipped', links, dirs)
  {
    FoundStable(fs0, fs1, share, project, t);
    SkippedStep(fs0, share, done, t, found, skipped);
    NameCompose(fs0, fs1, fs, share, project, t, la, da, lb, db);
    if found {
      TouchedStep(fs0, fs1, fs, share, project, names, t, lb, db);
    }
    DoneQuiet(fs1, fs, share, project, denied, done, t);
    if AllQuiet(fs0, share, project, denied, names) {
      QuietBefore(fs1, share, project, denied, names, t);
      assert fs == fs0 && links == [] && dirs == [];
    }
    assert Grows(fs0, fs) && OutsideShare(fs0, fs, share);
  }

  /** The entries the run for the name `t` creates are touched entries. */
  lemma TouchedStep(fs0: FileSystem, fs1: FileSystem, fs2: FileSystem, share: Path, project: Path,
                    names: set<string>, t: string, lb: seq<Path>, db: seq<Path>)
    requires Grows(fs0, fs1) && t in names && share + [t] in fs0
    requires forall k :: k in fs1 && k !in fs0 ==> Touched(fs0, share, project, names, k)
    requires SyncReport(fs1, fs2, share, project, [t], project, lb, db)
    ensures forall k :: k in fs2 && k !in fs0 ==> Touched(fs0, share, project, names, k)
  {
    forall k | k in fs2 && k !in fs1 && !Under(k, project)
      ensures StrictlyUnder(project, k) && k[|project|] == t
    {
      var x := k[|project|..];
      assert k == project + x;
      assert x[0] == t;
    }
  }
}
