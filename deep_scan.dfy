/**
 The second linking rule (`_scan_and_link_directory`, reached through
 `_create_deep_symlinks` and `_create_deep_symlinks_for_existing_directory`):
 at each level the share files are linked first, then each share
 subdirectory is handled. A subdirectory whose project counterpart exists is
 scanned again; an absent one holding a file directly is created with
 `mkdir` and scanned (the mixed case); an absent one holding no file becomes
 a single directory link (the shortcut). This module states what a scan of
 the share directory `s` into the project directory `p` creates and reports.
 */
module DeepScan {
  import opened FsModel
  import opened WorldModel
  import opened LinkPrimitive
  import opened LiveSync

  /** What `_create_deep_symlinks` ends with: its list of created links, or
      the exception raised by the `mkdir` of the project directory of the
      configured name `name`. */
  datatype DeepResult = Done(links: seq<Path>) | Raised(name: string)

  /** `any(item.is_file() for item in d.iterdir())`: some entry directly in
      `d` is a file. */
  predicate HasFile(fs: FileSystem, d: Path) {
    exists n :: n in Children(fs, d) && fs[d + [n]] == File
  }

  /** In the link-free share `HasFile` is the code's test itself: some entry
      listed by `iterdir()` answers `is_file()`. */
  lemma HasFileIsFile(fs: FileSystem, share: Path, project: Path, d: Path)
    requires World(fs, share, project) && Under(share, d)
    ensures HasFile(fs, d) <==> exists n :: n in Children(fs, d) && IsFile(fs, d + [n])
  {
    forall n | n in Children(fs, d) ensures IsFile(fs, d + [n]) <==> fs[d + [n]] == File {
      assert Under(share, d + [n]) by {
        assert (d + [n])[..|share|] == d[..|share|];
      }
      ShareResolves(fs, share, project, d + [n]);
    }
  }

  /** The share path mirrored by `k`, at or below `p`, when `p` mirrors `s`. */
  function Counterpart(s: Path, p: Path, k: Path): Path
    requires Under(p, k)
  {
    s + k[|p|..]
  }

  /** `k`, below `p`, is a link the scan created: a new entry pointing at its
      share counterpart, which is a file, or a listable directory holding no
      file directly (the shortcut). */
  ghost predicate ScanLink(fs0: FileSystem, fs: FileSystem, denied: set<Path>, s: Path, p: Path, k: Path) {
    && StrictlyUnder(p, k) && k !in fs0 && k in fs
    && fs[k] == Link(Counterpart(s, p, k))
    && Counterpart(s, p, k) in fs0
    && (|| fs0[Counterpart(s, p, k)] == File
        || (Lists(fs0, denied, Counterpart(s, p, k)) && !HasFile(fs0, Counterpart(s, p, k))))
  }

  /** `k`, below `p`, mirrors a listable share directory holding a file
      directly: the mixed case, made a real directory and scanned. */
  ghost predicate MixedDir(fs0: FileSystem, denied: set<Path>, s: Path, p: Path, k: Path) {
    StrictlyUnder(p, k) && Lists(fs0, denied, Counterpart(s, p, k)) && HasFile(fs0, Counterpart(s, p, k))
  }

  /** `k` lies directly in `p` and mirrors a share file. */
  ghost predicate LevelFile(fs0: FileSystem, s: Path, p: Path, k: Path) {
    |k| == |p| + 1 && Under(p, k) && Counterpart(s, p, k) in fs0 && fs0[Counterpart(s, p, k)] == File
  }

  /** The list returned by a scan of `s` into `p` starting in `fs0` and
      ending in `fs` (paths relative to `project`): each entry is a link the
      scan created, none is listed twice, and every link created is listed.
      Nothing is created where `exists()` held before; the directories
      created, which are not listed, are mixed-case directories or `p` and
      its ancestors (which the primitive may create). */
  ghost predicate ScanReport(fs0: FileSystem, fs: FileSystem, project: Path, denied: set<Path>,
                             s: Path, p: Path, links: seq<Path>) {
    && (forall i :: 0 <= i < |links| ==> ScanLink(fs0, fs, denied, s, p, project + links[i]))
    && (forall i, j :: 0 <= i < j < |links| ==> links[i] != links[j])
    && (forall k :: k in fs && k !in fs0 ==> !Exists(fs0, k))
    && (forall k :: k in fs && k !in fs0 && fs[k] != Dir ==>
          ScanLink(fs0, fs, denied, s, p, k) && Under(project, k) && k[|project|..] in links)
    && (forall k :: k in fs && k !in fs0 && fs[k] == Dir ==> Under(k, p) || MixedDir(fs0, denied, s, p, k))
  }

  /** Every file link of the level `p` comes before every other link. */
  ghost predicate FilesFirst(fs0: FileSystem, project: Path, s: Path, p: Path, links: seq<Path>) {
    forall i, j :: 0 <= i < j < |links| && LevelFile(fs0, s, p, project + links[j]) ==>
      LevelFile(fs0, s, p, project + links[i])
  }

  // ---------------------------------------------------------------------
  // The share as the scan sees it does not change

  /** Writes outside the share change neither a share entry, nor whether a
      share directory can be listed, nor whether it holds a file. */
  lemma ShareEntryStable(fs0: FileSystem, fs1: FileSystem, share: Path, denied: set<Path>, d: Path)
    requires Grows(fs0, fs1) && OutsideShare(fs0, fs1, share) && Under(share, d)
    ensures d in fs1 <==> d in fs0
    ensures d in fs0 ==> fs1[d] == fs0[d]
    ensures Lists(fs1, denied, d) <==> Lists(fs0, denied, d)
    ensures HasFile(fs1, d) <==> HasFile(fs0, d)
  {
    BelowStable(fs0, fs1, share, d);
    if HasFile(fs1, d) {
      var n :| n in Children(fs1, d) && fs1[d + [n]] == File;
      assert n in Children(fs0, d) && fs0[d + [n]] == File;
    }
    if HasFile(fs0, d) {
      var n :| n in Children(fs0, d) && fs0[d + [n]] == File;
      assert n in Children(fs1, d) && fs1[d + [n]] == File;
    }
  }

  /** The same for the share counterpart of a project path. */
  lemma CounterpartStable(fs0: FileSystem, fs1: FileSystem, share: Path, denied: set<Path>,
                          s: Path, p: Path, k: Path)
    requires Grows(fs0, fs1) && OutsideShare(fs0, fs1, share) && Under(share, s) && Under(p, k)
    ensures var c := Counterpart(s, p, k);
            && (c in fs1 <==> c in fs0) && (c in fs0 ==> fs1[c] == fs0[c])
            && (Lists(fs1, denied, c) <==> Lists(fs0, denied, c))
            && (HasFile(fs1, c) <==> HasFile(fs0, c))
  {
    var c := Counterpart(s, p, k);
    assert c[..|share|] == s[..|share|];
    ShareEntryStable(fs0, fs1, share, denied, c);
  }

  // ---------------------------------------------------------------------
  // Composing reports

  /** Appending the report of a later scan step to an earlier one. */
  lemma ScanJoin(fs0: FileSystem, fs1: FileSystem, fs2: FileSystem, share: Path, project: Path,
                 denied: set<Path>, s: Path, p: Path, la: seq<Path>, lb: seq<Path>)
    requires Grows(fs0, fs1) && Grows(fs1, fs2) && OutsideShare(fs0, fs1, share) && Under(share, s)
    requires ScanReport(fs0, fs1, project, denied, s, p, la)
    requires ScanReport(fs1, fs2, project, denied, s, p, lb)
    ensures ScanReport(fs0, fs2, project, denied, s, p, la + lb)
    ensures forall i :: 0 <= i < |lb| ==>
              (LevelFile(fs1, s, p, project + lb[i]) <==> LevelFile(fs0, s, p, project + lb[i]))
  {
    forall k | Under(p, k)
      ensures var c := Counterpart(s, p, k);
              && (c in fs1 <==> c in fs0) && (c in fs0 ==> fs1[c] == fs0[c])
              && (Lists(fs1, denied, c) <==> Lists(fs0, denied, c))
              && (HasFile(fs1, c) <==> HasFile(fs0, c))
    {
      CounterpartStable(fs0, fs1, share, denied, s, p, k);
    }
    forall k | k in fs2 && k !in fs0 ensures !Exists(fs0, k) {
      if k !in fs1 && Exists(fs0, k) {
        ResolveMonotone(fs0, fs1, k);
      }
    }
    forall k | k in fs2 && k !in fs0 && fs2[k] != Dir
      ensures ScanLink(fs0, fs2, denied, s, p, k) && Under(project, k) && k[|project|..] in la + lb
    {
      if k in fs1 {
        assert ScanLink(fs0, fs1, denied, s, p, k) && k[|project|..] in la;
      } else {
        assert ScanLink(fs1, fs2, denied, s, p, k) && k[|project|..] in lb;
      }
    }
    forall k | k in fs2 && k !in fs0 && fs2[k] == Dir
      ensures Under(k, p) || MixedDir(fs0, denied, s, p, k)
    {
      if k in fs1 {
        assert Under(k, p) || MixedDir(fs0, denied, s, p, k);
      } else {
        assert Under(k, p) || MixedDir(fs1, denied, s, p, k);
      }
    }
    var ls := la + lb;
    forall i | 0 <= i < |ls| ensures ScanLink(fs0, fs2, denied, s, p, project + ls[i]) {
      if i < |la| {
        assert ls[i] == la[i];
        assert ScanLink(fs0, fs1, denied, s, p, project + la[i]);
      } else {
        assert ls[i] == lb[i - |la|];
      }
    }
    forall i, j | 0 <= i < j < |ls| ensures ls[i] != ls[j] {
      if i < |la| && j >= |la| {
        assert ls[i] == la[i] && ls[j] == lb[j - |la|];
        assert project + la[i] in fs1;
      }
    }
  }

  /** A report on the subdirectory `n` (scanned where its project
      counterpart existed) is a report on the level above, and none of its
      links lies directly in `p`. */
  lemma ScanWiden(fs1: FileSystem, fs2: FileSystem, project: Path, denied: set<Path>,
                  s: Path, p: Path, n: string, lb: seq<Path>)
    requires Exists(fs1, p + [n])
    requires ScanReport(fs1, fs2, project, denied, s + [n], p + [n], lb)
    ensures ScanReport(fs1, fs2, project, denied, s, p, lb)
    ensures forall i :: 0 <= i < |lb| ==> !LevelFile(fs1, s, p, project + lb[i])
  {
    var c := p + [n];
    forall k | StrictlyUnder(c, k)
      ensures StrictlyUnder(p, k) && Counterpart(s + [n], c, k) == Counterpart(s, p, k)
    {
      assert k[..|p|] == k[..|c|][..|p|];
      assert k[|p|..] == [n] + k[|c|..] by {
        assert k[|p|] == c[|p|];
      }
    }
    forall k | k in fs2 && k !in fs1 && fs2[k] == Dir && Under(k, c) ensures Under(k, p) {
      assert !Exists(fs1, k) && k != c;
      assert p[..|k|] == c[..|k|];
    }
    forall i | 0 <= i < |lb| ensures ScanLink(fs1, fs2, denied, s, p, project + lb[i]) {
      assert ScanLink(fs1, fs2, denied, s + [n], c, project + lb[i]);
    }
  }

  // ---------------------------------------------------------------------
  // Single steps

  /** One more file `n` of the first loop of `_scan_and_link_directory`:
      the report and the level-file property extend to the new list. */
  lemma ScanFileStep(fs0: FileSystem, fs1: FileSystem, fs: FileSystem, ok: bool, share: Path, project: Path,
                     denied: set<Path>, s: Path, p: Path, n: string, links: seq<Path>, links': seq<Path>)
    requires WellFormed(fs1) && LinksIntoShare(fs1, share) && share in fs1
    requires Under(share, s) && Under(project, p)
    requires s + [n] in fs1 && fs1[s + [n]] == File && !Exists(fs1, p + [n])
    requires (fs, ok) == PlaceLink(fs1, s + [n], p + [n], share)
    requires Grows(fs0, fs1) && OutsideShare(fs0, fs1, share)
    requires ScanReport(fs0, fs1, project, denied, s, p, links)
    requires forall i :: 0 <= i < |links| ==> LevelFile(fs0, s, p, project + links[i])
    requires links' == if ok then links + [(p + [n])[|project|..]] else links
    ensures Grows(fs0, fs) && OutsideShare(fs0, fs, share)
    ensures ScanReport(fs0, fs, project, denied, s, p, links')
    ensures forall i :: 0 <= i < |links'| ==> LevelFile(fs0, s, p, project + links'[i])
  {
    ScanLinkStep(fs1, fs, ok, share, project, denied, s, p, n);
    var l := if ok then [(p + [n])[|project|..]] else [];
    ScanJoin(fs0, fs1, fs, share, project, denied, s, p, links, l);
    assert links' == links + l;
  }

  /** The primitive called for the share entry `n` of `s` (a file, or a
      shortcut directory) whose project counterpart does not exist: it
      fails without change or places the one reported link. */
  lemma ScanLinkStep(fs1: FileSystem, fs: FileSystem, ok: bool, share: Path, project: Path,
                     denied: set<Path>, s: Path, p: Path, n: string)
    requires WellFormed(fs1) && LinksIntoShare(fs1, share) && share in fs1
    requires Under(share, s) && Under(project, p)
    requires s + [n] in fs1
    requires fs1[s + [n]] == File || (Lists(fs1, denied, s + [n]) && !HasFile(fs1, s + [n]))
    requires !Exists(fs1, p + [n])
    requires (fs, ok) == PlaceLink(fs1, s + [n], p + [n], share)
    ensures Grows(fs1, fs) && OutsideShare(fs1, fs, share)
    ensures !ok ==> fs == fs1
    ensures var l := if ok then [(p + [n])[|project|..]] else [];
            && ScanReport(fs1, fs, project, denied, s, p, l)
            && forall i :: 0 <= i < |l| ==>
                 (LevelFile(fs1, s, p, project + l[i]) <==> fs1[s + [n]] == File)
  {
    PlaceLinkInWorld(fs1, s + [n], p + [n], share);
    if ok {
      LinkAdded(fs1, fs, project, denied, s, p, n);
    }
  }

  /** The report of a step that placed the link `p + [n]` to `s + [n]` and
      created only missing ancestors of it besides. */
  lemma LinkAdded(fs1: FileSystem, fs: FileSystem, project: Path, denied: set<Path>, s: Path, p: Path, n: string)
    requires Under(project, p) && Grows(fs1, fs)
    requires s + [n] in fs1
    requires fs1[s + [n]] == File || (Lists(fs1, denied, s + [n]) && !HasFile(fs1, s + [n]))
    requires p + [n] !in fs1 && !Exists(fs1, p + [n]) && p + [n] in fs && fs[p + [n]] == Link(s + [n])
    requires forall k :: k in fs && k !in fs1 && k != p + [n] ==>
               fs[k] == Dir && StrictlyUnder(k, p + [n]) && !Exists(fs1, k)
    ensures var y := (p + [n])[|project|..];
            && ScanReport(fs1, fs, project, denied, s, p, [y])
            && (LevelFile(fs1, s, p, project + y) <==> fs1[s + [n]] == File)
  {
    var si := s + [n];
    var pi := p + [n];
    assert StrictlyUnder(p, pi) && pi[|p|..] == [n] by {
      assert pi[..|p|] == p;
    }
    assert Counterpart(s, p, pi) == si;
    var y := pi[|project|..];
    assert project + y == pi by {
      assert pi[..|project|] == p[..|project|];
    }
    assert ScanLink(fs1, fs, denied, s, p, pi);
    forall k | k in fs && k !in fs1 && k != pi ensures Under(k, p) {
      assert k == pi[..|k|];
      assert p[..|k|] == pi[..|k|];
    }
  }

  /** The `mkdir(parents=True, exist_ok=True)` of the mixed case: the
      project counterpart of a share directory holding a file is missing;
      the call fails without change or creates it, reporting no link. */
  lemma ScanMkdirStep(fs1: FileSystem, share: Path, project: Path, denied: set<Path>,
                      s: Path, p: Path, n: string)
    requires World(fs1, share, project) && share in fs1
    requires Under(share, s) && Under(project, p)
    requires !Exists(fs1, p + [n]) && Lists(fs1, denied, s + [n]) && HasFile(fs1, s + [n])
    ensures var r := Mkdir(fs1, p + [n], share);
            && World(r.0, share, project) && Grows(fs1, r.0) && OutsideShare(fs1, r.0, share)
            && (!r.1 ==> r.0 == fs1)
            && (r.1 ==> Exists(r.0, p + [n]) && ScanReport(fs1, r.0, project, denied, s, p, []))
  {
    var pi := p + [n];
    MkdirInWorld(fs1, share, pi);
    MkdirKeepsWorld(fs1, share, project, pi);
    assert StrictlyUnder(p, pi) && pi[|p|..] == [n] by {
      assert pi[..|p|] == p;
    }
    assert Counterpart(s, p, pi) == s + [n];
    var r := Mkdir(fs1, pi, share);
    if r.1 {
      var fs := r.0;
      assert forall k :: k in fs && k !in fs1 ==> fs[k] == Dir && Under(k, pi) && !Exists(fs1, k);
      forall k | k in fs && k !in fs1 ensures Under(k, p) || MixedDir(fs1, denied, s, p, k) {
        if k != pi {
          assert p[..|k|] == pi[..|k|];
        }
      }
      assert ScanReport(fs1, fs, project, denied, s, p, []);
    }
  }

  /** The whole mixed case once `mkdir` succeeded: the scan of the share
      subdirectory into the new project directory, seen from the parent. */
  lemma ScanMixedJoin(fs0: FileSystem, fs1: FileSystem, fs: FileSystem, share: Path, project: Path,
                      denied: set<Path>, s: Path, p: Path, n: string, sub: seq<Path>)
    requires World(fs0, share, project) && share in fs0
    requires Under(share, s) && Under(project, p)
    requires !Exists(fs0, p + [n]) && Lists(fs0, denied, s + [n]) && HasFile(fs0, s + [n])
    requires Mkdir(fs0, p + [n], share) == (fs1, true)
    requires Grows(fs1, fs) && OutsideShare(fs1, fs, share)
    requires ScanReport(fs1, fs, project, denied, s + [n], p + [n], sub)
    ensures Grows(fs0, fs) && OutsideShare(fs0, fs, share)
    ensures ScanReport(fs0, fs, project, denied, s, p, sub)
    ensures forall i :: 0 <= i < |sub| ==> !LevelFile(fs0, s, p, project + sub[i])
  {
    ScanMkdirStep(fs0, share, project, denied, s, p, n);
    ScanWiden(fs1, fs, project, denied, s, p, n, sub);
    ScanJoin(fs0, fs1, fs, share, project, denied, s, p, [], sub);
    assert [] + sub == sub;
  }

  // ---------------------------------------------------------------------
  // What one level of the scan leaves done

  /** The share entry `n` of `s` is settled in `fs`: its project counterpart
      `p + [n]` exists, or placing a link there fails and changes nothing.
      Handling a share file once more would then do nothing. */
  ghost predicate Settled(fs: FileSystem, share: Path, s: Path, p: Path, n: string) {
    Exists(fs, p + [n]) || PlaceLink(fs, s + [n], p + [n], share) == (fs, false)
  }

  /** Handling the share subdirectory `n` of `s` raises inside the second
      loop's `try`: its project counterpart does not exist, and either
      listing it fails or it holds a file and the `mkdir` of the mixed case
      fails. */
  ghost predicate Abandons(fs: FileSystem, share: Path, denied: set<Path>, s: Path, p: Path, n: string) {
    && !Exists(fs, p + [n])
    && (!Lists(fs, denied, s + [n]) || (HasFile(fs, s + [n]) && !Mkdir(fs, p + [n], share).1))
  }

  /** One level of the scan of `s` into `p` is done in `fs`: every share file
      directly in `s` is settled, and either every share subdirectory is
      settled too or the second loop stopped at one whose handling raises. */
  ghost predicate LevelDone(fs: FileSystem, share: Path, denied: set<Path>, s: Path, p: Path) {
    && (forall n :: n in Children(fs, s) && fs[s + [n]] == File ==> Settled(fs, share, s, p, n))
    && (|| (forall n :: n in Children(fs, s) && fs[s + [n]] == Dir ==> Settled(fs, share, s, p, n))
        || (exists n :: n in Children(fs, s) && fs[s + [n]] == Dir && Abandons(fs, share, denied, s, p, n)))
  }

  /** A placement that fails keeps failing as entries are added outside the
      share, whether or not the parent of `target` exists yet. */
  lemma PlaceLinkFailKeeps(fs: FileSystem, fs': FileSystem, share: Path, source: Path, target: Path)
    requires WellFormed(fs) && LinksIntoShare(fs, share) && ShareLinkFree(fs, share) && share in fs
    requires Grows(fs, fs') && OutsideShare(fs, fs', share)
    requires target != [] && !PlaceLink(fs, source, target, share).1
    ensures !PlaceLink(fs', source, target, share).1
  {
    var q := Parent(target);
    if Exists(fs, q) {
      PlaceLinkFailStable(fs, fs', share, source, target);
    } else {
      // a successful `mkdir` of the missing parent would leave a free slot
      MkdirInWorld(fs, share, q);
      PlaceLinkInWorld(fs, source, target, share);
      MkdirFailStable(fs, fs', share, q);
    }
  }

  /** Being settled survives every change made outside the share. */
  lemma SettledStable(fs: FileSystem, fs': FileSystem, share: Path, project: Path, s: Path, p: Path, n: string)
    requires World(fs, share, project) && World(fs', share, project) && share in fs
    requires Grows(fs, fs') && OutsideShare(fs, fs', share)
    requires Settled(fs, share, s, p, n)
    ensures Settled(fs', share, s, p, n)
  {
    if Exists(fs, p + [n]) {
      ResolveMonotone(fs, fs', p + [n]);
    } else {
      PlaceLinkFailKeeps(fs, fs', share, s + [n], p + [n]);
      PlaceLinkInWorld(fs', s + [n], p + [n], share);
    }
  }

  /** `SettledStable` for every name of `names`. */
  lemma SettledAllStable(fs: FileSystem, fs': FileSystem, share: Path, project: Path, s: Path, p: Path,
                         names: set<string>)
    requires World(fs, share, project) && World(fs', share, project) && share in fs
    requires Grows(fs, fs') && OutsideShare(fs, fs', share)
    requires forall n :: n in names ==> Settled(fs, share, s, p, n)
    ensures forall n :: n in names ==> Settled(fs', share, s, p, n)
  {
    forall n | n in names ensures Settled(fs', share, s, p, n) {
      SettledStable(fs, fs', share, project, s, p, n);
    }
  }

  /** The entry `n` handled by the primitive (a share file, or a shortcut
      directory) is settled afterwards: the new link leads to the share
      entry, or the call failed and changed nothing. */
  lemma PlacedSettles(fs1: FileSystem, fs: FileSystem, ok: bool, share: Path, project: Path,
                      s: Path, p: Path, n: string)
    requires World(fs1, share, project) && World(fs, share, project) && share in fs1
    requires Under(share, s) && s + [n] in fs1
    requires (fs, ok) == PlaceLink(fs1, s + [n], p + [n], share)
    ensures Settled(fs, share, s, p, n)
  {
    var si := s + [n];
    PlaceLinkInWorld(fs1, si, p + [n], share);
    if ok {
      assert Under(share, si) by {
        assert si[..|share|] == s[..|share|];
      }
      LinkResolves(fs, p + [n]);
    }
  }

  /** One more name `n` of `names` handled, `todo0` shrinking to `todo`:
      the names handled before stay settled and `n` is settled now. */
  lemma SettledStep(fs1: FileSystem, fs: FileSystem, share: Path, project: Path, s: Path, p: Path,
                    names: set<string>, todo0: set<string>, todo: set<string>, n: string)
    requires World(fs1, share, project) && World(fs, share, project)
    requires Grows(fs1, fs) && OutsideShare(fs1, fs, share)
    requires Under(share, s) && s + [n] in fs1 && todo == todo0 - {n}
    requires forall m :: m in names && m !in todo0 ==> Settled(fs1, share, s, p, m)
    requires Settled(fs, share, s, p, n)
    ensures forall m :: m in names && m !in todo ==> Settled(fs, share, s, p, m)
  {
    assert StrictlyUnder(share, s + [n]) by {
      assert (s + [n])[..|share|] == s[..|share|];
    }
    AncestorIsDir(fs1, s + [n], share);
    forall m | m in names && m !in todo ensures Settled(fs, share, s, p, m) {
      if m != n {
        SettledStable(fs1, fs, share, project, s, p, m);
      }
    }
  }

  /** The two loops of a level put together: the files settled by the
      first loop stay settled through the second. */
  lemma LevelDoneIntro(fs0: FileSystem, fs1: FileSystem, fs: FileSystem, share: Path, project: Path,
                       denied: set<Path>, s: Path, p: Path, files: set<string>, dirs: set<string>, stopped: bool)
    requires World(fs1, share, project) && World(fs, share, project) && share in fs0
    requires Grows(fs0, fs1) && Grows(fs1, fs) && OutsideShare(fs0, fs1, share) && OutsideShare(fs1, fs, share)
    requires Under(share, s) && s in fs0
    requires forall n :: n in files <==> n in Children(fs0, s) && fs0[s + [n]] == File
    requires forall n :: n in dirs <==> n in Children(fs0, s) && fs0[s + [n]] == Dir
    requires forall n :: n in files ==> Settled(fs1, share, s, p, n)
    requires !stopped ==> forall n :: n in dirs ==> Settled(fs, share, s, p, n)
    requires stopped ==> exists n :: n in dirs && Abandons(fs, share, denied, s, p, n)
    ensures LevelDone(fs, share, denied, s, p)
  {
    SettledAllStable(fs1, fs, share, project, s, p, files);
    BelowStable(fs0, fs1, share, s);
    BelowStable(fs1, fs, share, s);
  }

  /** A missing path below an existing directory stays missing while no
      entry appears at its own key and nothing is added to the share. */
  lemma MissingStaysMissing(fs1: FileSystem, fs: FileSystem, share: Path, q: Path)
    requires LinksIntoShare(fs1, share) && Grows(fs1, fs) && OutsideShare(fs1, fs, share)
    requires q != [] && Exists(fs1, Parent(q)) && !Exists(fs1, q)
    requires q in fs ==> q in fs1
    ensures !Exists(fs, q)
  {
    var pq := Parent(q);
    assert q == pq + [Name(q)];
    ResolveMonotone(fs1, fs, pq);
    ResolvesLexicallyOrIntoShare(fs1, share, pq);
    var d := Resolve(fs1, pq).value;
    var e := d + [Name(q)];
    if d != pq {
      assert e[..|share|] == d[..|share|];
    }
  }

  /** A level once done stays done while entries are added outside the
      share, none of them directly below `p`, an existing project path. */
  lemma LevelDoneStable(fs1: FileSystem, fs: FileSystem, share: Path, project: Path, denied: set<Path>,
                        s: Path, p: Path)
    requires World(fs1, share, project) && World(fs, share, project) && share in fs1
    requires Grows(fs1, fs) && OutsideShare(fs1, fs, share)
    requires Under(share, s) && Exists(fs1, p)
    requires forall n :: p + [n] in fs ==> p + [n] in fs1
    requires LevelDone(fs1, share, denied, s, p)
    ensures LevelDone(fs, share, denied, s, p)
  {
    BelowStable(fs1, fs, share, s);
    forall n | n in Children(fs1, s) && Settled(fs1, share, s, p, n)
      ensures Settled(fs, share, s, p, n)
    {
      SettledStable(fs1, fs, share, project, s, p, n);
    }
    forall n | n in Children(fs1, s) && Abandons(fs1, share, denied, s, p, n)
      ensures Abandons(fs, share, denied, s, p, n)
    {
      assert Under(share, s + [n]) by {
        assert (s + [n])[..|share|] == s[..|share|];
      }
      ShareEntryStable(fs1, fs, share, denied, s + [n]);
      if HasFile(fs1, s + [n]) && !Mkdir(fs1, p + [n], share).1 {
        MkdirFailStable(fs1, fs, share, p + [n]);
      } else {
        assert Parent(p + [n]) == p;
        MissingStaysMissing(fs1, fs, share, p + [n]);
      }
    }
  }

  // ---------------------------------------------------------------------
  // `_create_deep_symlinks`: the scan of every configured name

  /** The entries a run of `_create_deep_symlinks` may create: an ancestor
      of the project root, or an entry at or below the project directory of
      a configured name present in the share whose project entry is not a
      link. */
  ghost predicate DeepTouched(fs0: FileSystem, share: Path, project: Path, names: set<string>, k: Path) {
    || Under(k, project)
    || (&& StrictlyUnder(project, k) && k[|project|] in names
        && Exists(fs0, share + [k[|project|]]) && !IsSymlink(fs0, project + [k[|project|]]))
  }

  /** What a run of `_create_deep_symlinks` from `fs0` has done by `fs`:
      it created only touched entries, none where `exists()` held; every new
      non-directory is a scan link of the share tree; every new directory
      is an ancestor of the project root, the project directory of a
      configured name, or a mixed-case directory. */
  ghost predicate DeepScanned(fs0: FileSystem, fs: FileSystem, share: Path, project: Path,
                              denied: set<Path>, names: set<string>) {
    && (forall k :: k in fs && k !in fs0 ==> !Exists(fs0, k) && DeepTouched(fs0, share, project, names, k))
    && (forall k :: k in fs && k !in fs0 && fs[k] != Dir ==> ScanLink(fs0, fs, denied, share, project, k))
    && (forall k :: k in fs && k !in fs0 && fs[k] == Dir ==>
          Under(k, project) || |k| == |project| + 1 || MixedDir(fs0, denied, share, project, k))
  }

  /** The list `_create_deep_symlinks` returns: exactly the links created,
      each once. */
  ghost predicate DeepListed(fs0: FileSystem, fs: FileSystem, share: Path, project: Path,
                             denied: set<Path>, links: seq<Path>) {
    && (forall i :: 0 <= i < |links| ==> ScanLink(fs0, fs, denied, share, project, project + links[i]))
    && (forall i, j :: 0 <= i < j < |links| ==> links[i] != links[j])
    && (forall k :: k in fs && k !in fs0 && fs[k] != Dir ==> Under(project, k) && k[|project|..] in links)
  }

  /** Nothing new lies at or below a project entry that was a link: an
      entry there would need a real directory in its place. */
  lemma NewNotUnderLink(fs0: FileSystem, fs: FileSystem, share: Path, project: Path, k: Path)
    requires World(fs0, share, project) && WellFormed(fs) && Grows(fs0, fs)
    requires k in fs && k !in fs0 && StrictlyUnder(project, k)
    ensures !IsSymlink(fs0, project + [k[|project|]])
  {
    var b := project + [k[|project|]];
    if IsSymlink(fs0, b) {
      SlotLexicallyOrInShare(fs0, share, b);
      var e := Locate(fs0, b).value;
      assert e == b;
      assert k[..|project| + 1] == k[..|project|] + [k[|project|]];
      assert b in fs0 && k != b;
      assert k[..|k|] == k;
      assert StrictlyUnder(b, k);
      AncestorIsDir(fs, k, b);
    }
  }

  /** An entry created at or below the project directory of the configured
      name `t`, present in the share, is a touched entry. */
  lemma TouchedBelow(fs0: FileSystem, fs: FileSystem, share: Path, project: Path, names: set<string>,
                     t: string, k: Path)
    requires World(fs0, share, project) && WellFormed(fs) && Grows(fs0, fs)
    requires k in fs && k !in fs0 && t in names && Exists(fs0, share + [t]) && Under(project + [t], k)
    ensures DeepTouched(fs0, share, project, names, k)
    ensures StrictlyUnder(project, k) && k[|project|] == t
  {
    var b := project + [t];
    assert k[..|b|] == b;
    assert k[|project|] == b[|project|];
    NewNotUnderLink(fs0, fs, share, project, k);
  }

  /** The directories created for the project directory of the name `t`. */
  lemma DeepBaseNew(fs0: FileSystem, fs1: FileSystem, fs2: FileSystem, fs: FileSystem, share: Path, project: Path,
                    names: set<string>, t: string)
    requires World(fs0, share, project) && WellFormed(fs)
    requires Grows(fs0, fs1) && Grows(fs1, fs2) && Grows(fs2, fs)
    requires t in names && Exists(fs0, share + [t])
    requires forall k :: k in fs2 && k !in fs1 ==> fs2[k] == Dir && Under(k, project + [t]) && !Exists(fs1, k)
    ensures forall k :: k in fs2 && k !in fs1 ==>
              && !Exists(fs0, k) && DeepTouched(fs0, share, project, names, k)
              && (Under(k, project) || |k| == |project| + 1)
              && (Under(k, project) || (StrictlyUnder(project, k) && k[|project|] == t))
  {
    var b := project + [t];
    forall k | k in fs2 && k !in fs1
      ensures !Exists(fs0, k) && DeepTouched(fs0, share, project, names, k)
      ensures Under(k, project) || |k| == |project| + 1
      ensures Under(k, project) || (StrictlyUnder(project, k) && k[|project|] == t)
    {
      if Exists(fs0, k) {
        ResolveMonotone(fs0, fs1, k);
      }
      if |k| <= |project| {
        assert project[..|k|] == b[..|k|];
      } else {
        TouchedBelow(fs0, fs, share, project, names, t, k);
      }
    }
  }

  /** The entries created by the scan of the name `t`. */
  lemma DeepScanNew(fs0: FileSystem, fs2: FileSystem, fs: FileSystem, share: Path, project: Path,
                    denied: set<Path>, names: set<string>, t: string, lb: seq<Path>)
    requires World(fs0, share, project) && WellFormed(fs) && Under(share, share + [t])
    requires Grows(fs0, fs2) && Grows(fs2, fs) && OutsideShare(fs0, fs2, share)
    requires t in names && Exists(fs0, share + [t]) && Exists(fs2, project + [t])
    requires ScanReport(fs2, fs, project, denied, share + [t], project + [t], lb)
    requires ScanReport(fs2, fs, project, denied, share, project, lb)
    ensures forall k :: k in fs && k !in fs2 ==>
              && !Exists(fs0, k) && DeepTouched(fs0, share, project, names, k)
              && (fs[k] != Dir ==> ScanLink(fs0, fs, denied, share, project, k))
              && (fs[k] == Dir ==> Under(k, project) || MixedDir(fs0, denied, share, project, k))
              && (Under(k, project) || (StrictlyUnder(project, k) && k[|project|] == t))
  {
    var b := project + [t];
    forall k | k in fs && k !in fs2
      ensures !Exists(fs0, k) && DeepTouched(fs0, share, project, names, k)
      ensures Under(k, project) || (StrictlyUnder(project, k) && k[|project|] == t)
      ensures fs[k] != Dir ==> ScanLink(fs0, fs, denied, share, project, k)
      ensures fs[k] == Dir ==> Under(k, project) || MixedDir(fs0, denied, share, project, k)
    {
      if Exists(fs0, k) {
        ResolveMonotone(fs0, fs2, k);
      }
      assert Under(k, b) ==> Exists(fs2, k) by {
        if Under(k, b) {
          PrefixExists(fs2, k, b);
        }
      }
      if fs[k] != Dir {
        assert ScanLink(fs2, fs, denied, share + [t], b, k);
        assert ScanLink(fs2, fs, denied, share, project, k);
      } else {
        assert Under(k, b) || MixedDir(fs2, denied, share + [t], b, k);
        assert Under(k, project) || MixedDir(fs2, denied, share, project, k);
      }
      assert StrictlyUnder(b, k);
      assert Under(project, k) by {
        assert k[..|project|] == k[..|b|][..|project|];
      }
      CounterpartStable(fs0, fs2, share, denied, share, project, k);
      TouchedBelow(fs0, fs, share, project, names, t, k);
    }
  }

  /** One more configured name `t` handled by `_create_deep_symlinks`: from
      `fs1` the project directory `project + [t]` is created when missing
      (reaching `fs2`), then scanned (reaching `fs`); the run so far keeps
      its description. */
  lemma DeepStep(fs0: FileSystem, fs1: FileSystem, fs2: FileSystem, fs: FileSystem, share: Path, project: Path,
                 denied: set<Path>, names: set<string>, t: string, la: seq<Path>, lb: seq<Path>)
    requires World(fs0, share, project) && World(fs, share, project) && share in fs0
    requires Grows(fs0, fs1) && Grows(fs1, fs2) && Grows(fs2, fs)
    requires OutsideShare(fs0, fs1, share) && OutsideShare(fs1, fs2, share)
    requires DeepScanned(fs0, fs1, share, project, denied, names) && DeepListed(fs0, fs1, share, project, denied, la)
    requires t in names && Exists(fs0, share + [t]) && Exists(fs2, project + [t])
    requires forall k :: k in fs2 && k !in fs1 ==> fs2[k] == Dir && Under(k, project + [t]) && !Exists(fs1, k)
    requires ScanReport(fs2, fs, project, denied, share + [t], project + [t], lb)
    ensures DeepScanned(fs0, fs, share, project, denied, names) && DeepListed(fs0, fs, share, project, denied, la + lb)
    ensures forall k :: k in fs && k !in fs1 ==> Under(k, project) || (StrictlyUnder(project, k) && k[|project|] == t)
  {
    assert Under(share, share + [t]) by {
      assert (share + [t])[..|share|] == share;
    }
    ScanWiden(fs2, fs, project, denied, share, project, t, lb);
    DeepBaseNew(fs0, fs1, fs2, fs, share, project, names, t);
    DeepScanNew(fs0, fs2, fs, share, project, denied, names, t, lb);
    forall k | k in fs1 && k !in fs0 && fs1[k] != Dir ensures ScanLink(fs0, fs, denied, share, project, k) {
      assert ScanLink(fs0, fs1, denied, share, project, k);
    }
    var ls := la + lb;
    forall i | 0 <= i < |ls| ensures ScanLink(fs0, fs, denied, share, project, project + ls[i]) {
      if i < |la| {
        assert ls[i] == la[i];
        assert ScanLink(fs0, fs1, denied, share, project, project + la[i]);
      } else {
        assert ls[i] == lb[i - |la|];
        assert ScanLink(fs2, fs, denied, share, project, project + lb[i - |la|]);
      }
    }
    forall i, j | 0 <= i < j < |ls| ensures ls[i] != ls[j] {
      if i < |la| && j >= |la| {
        assert ls[i] == la[i] && ls[j] == lb[j - |la|];
        assert project + la[i] in fs1;
      }
    }
  }

  /** A name not yet handled has had nothing created at or below its project
      entry, so whether that entry is a link is as it was at the start. */
  lemma NameUntouched(fs0: FileSystem, fs: FileSystem, share: Path, project: Path, todo: set<string>, t: string)
    requires World(fs0, share, project) && World(fs, share, project) && Grows(fs0, fs)
    requires forall k :: k in fs && k !in fs0 && StrictlyUnder(project, k) ==> k[|project|] !in todo
    requires t in todo
    ensures IsSymlink(fs, project + [t]) <==> IsSymlink(fs0, project + [t])
  {
    var b := project + [t];
    assert Under(project, b) && b[|project|] == t by {
      assert b[..|project|] == project;
    }
    SymlinkInProject(fs0, share, project, b);
    SymlinkInProject(fs, share, project, b);
  }

  /** One more configured name `t` handled by `_create_deep_symlinks`, from
      `fs1` to `fs`: new entries below the project root still lie below
      handled names only, and every handled name present in the share whose
      project entry was not a link has its project entry existing. */
  lemma DeepNameStep(fs0: FileSystem, fs1: FileSystem, fs: FileSystem, share: Path, project: Path,
                     names: set<string>, todo0: set<string>, todo: set<string>, t: string)
    requires Grows(fs1, fs) && todo == todo0 - {t}
    requires forall k :: k in fs1 && k !in fs0 && StrictlyUnder(project, k) ==> k[|project|] !in todo0
    requires forall k :: k in fs && k !in fs1 ==> Under(k, project) || (StrictlyUnder(project, k) && k[|project|] == t)
    requires forall u :: u in names && u !in todo0 && Exists(fs0, share + [u]) && !IsSymlink(fs0, project + [u]) ==>
               Exists(fs1, project + [u])
    requires Exists(fs0, share + [t]) && !IsSymlink(fs0, project + [t]) ==> Exists(fs, project + [t])
    ensures forall k :: k in fs && k !in fs0 && StrictlyUnder(project, k) ==> k[|project|] !in todo
    ensures forall u :: u in names && u !in todo && Exists(fs0, share + [u]) && !IsSymlink(fs0, project + [u]) ==>
              Exists(fs, project + [u])
  {
    forall u | u in names && u !in todo && u != t && Exists(fs0, share + [u]) && !IsSymlink(fs0, project + [u])
      ensures Exists(fs, project + [u])
    {
      ResolveMonotone(fs1, fs, project + [u]);
    }
  }

  /** One more configured name `t` handled by `_create_deep_symlinks`, from
      `fs1` to `fs`: every handled name present in the share, whose project
      entry was not a link and whose share directory is listable, has its
      top level done. The scans of other names create nothing directly
      below its project directory, so its level stays done. */
  lemma DeepLevelStep(fs0: FileSystem, fs1: FileSystem, fs: FileSystem, share: Path, project: Path,
                      denied: set<Path>, names: set<string>, todo0: set<string>, todo: set<string>, t: string)
    requires World(fs0, share, project) && World(fs1, share, project) && World(fs, share, project)
    requires Grows(fs0, fs1) && Grows(fs1, fs) && OutsideShare(fs1, fs, share) && todo == todo0 - {t}
    requires forall k :: k in fs && k !in fs1 ==> Under(k, project) || (StrictlyUnder(project, k) && k[|project|] == t)
    requires forall u :: u in names && u !in todo0 && Exists(fs0, share + [u]) && !IsSymlink(fs0, project + [u]) ==>
               Exists(fs1, project + [u])
    requires forall u :: u in names && u !in todo0 && Exists(fs0, share + [u]) && !IsSymlink(fs0, project + [u])
                         && Lists(fs0, denied, share + [u]) ==>
               LevelDone(fs1, share, denied, share + [u], project + [u])
    requires Exists(fs0, share + [t]) && !IsSymlink(fs0, project + [t]) && Lists(fs0, denied, share + [t]) ==>
               LevelDone(fs, share, denied, share + [t], project + [t])
    ensures forall u :: u in names && u !in todo && Exists(fs0, share + [u]) && !IsSymlink(fs0, project + [u])
                        && Lists(fs0, denied, share + [u]) ==>
              LevelDone(fs, share, denied, share + [u], project + [u])
  {
    forall u | && u in names && u !in todo && u != t && Exists(fs0, share + [u]) && !IsSymlink(fs0, project + [u])
               && Lists(fs0, denied, share + [u])
      ensures LevelDone(fs, share, denied, share + [u], project + [u])
    {
      var b := project + [u];
      assert Hangs(fs0, share + [u]) && Parent(share + [u]) == share;
      assert Under(share, share + [u]) by {
        assert (share + [u])[..|share|] == share;
      }
      forall n | b + [n] in fs ensures b + [n] in fs1 {
        assert (b + [n])[..|project|] == project && (b + [n])[|project|] == u;
      }
      LevelDoneStable(fs1, fs, share, project, denied, share + [u], b);
    }
  }
}
