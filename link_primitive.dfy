/**
 `_create_symlink(source, target)`: make sure the parent of `target` is a
 directory (`mkdir(parents=True, exist_ok=True)`), then place a link to
 `source` at `target`. Every `OSError` and every other exception is caught
 and turned into `false`, so the primitive never raises; directories created
 before a failure are not removed.
 */
module LinkPrimitive {
  import opened FsModel
  import opened WorldModel

  /** The primitive as a state transformer: the new filesystem and the
      returned boolean. On failure nothing but directories was added. */
  function PlaceLink(fs: FileSystem, source: Path, target: Path, share: Path): (r: (FileSystem, bool))
    requires target != []
    ensures Grows(fs, r.0)
    ensures !r.1 ==> forall k :: k in r.0 && k !in fs ==> r.0[k] == Dir
  {
    var (fs1, ok1) := Mkdir(fs, Parent(target), share);
    if !ok1 then (fs1, false) else SymlinkTo(fs1, target, source, share)
  }

  /** `true` is returned only when `target` is now a link to `source`, and
      the link is the only entry added besides directories. */
  lemma PlaceLinkSucceeds(fs: FileSystem, source: Path, target: Path, share: Path)
    requires target != []
    requires PlaceLink(fs, source, target, share).1
    ensures IsSymlink(PlaceLink(fs, source, target, share).0, target)
    ensures var fs' := PlaceLink(fs, source, target, share).0;
            fs'[Locate(fs', target).value] == Link(source)
    ensures var fs' := PlaceLink(fs, source, target, share).0;
            forall k :: k in fs' && k !in fs && k != Locate(fs', target).value ==> fs'[k] == Dir
  {
    var (fs1, ok1) := Mkdir(fs, Parent(target), share);
    assert ok1 && PlaceLink(fs, source, target, share) == SymlinkTo(fs1, target, source, share);
    var e := Slot(fs1, target).value;
    assert PlaceLink(fs, source, target, share).0 == fs1[e := Link(source)];
    AddLinkLocates(fs1, target, e, source);
  }

  /** `mkdir(parents=True)` fails when an ancestor of `p` (or `p` itself)
      exists but is not a directory. */
  lemma {:induction false} MkdirBlocked(fs: FileSystem, p: Path, k: Path, share: Path)
    requires k != [] && Under(k, p)
    requires Exists(fs, k) && !IsDir(fs, k)
    ensures !Mkdir(fs, p, share).1
    decreases |p|
  {
    var q := Parent(p);
    if p == k {
      assert p == q + [Name(p)];
      assert IsDir(fs, q) by {
        ParentOfExisting(fs, p);
      }
      assert Mkdir(fs, q, share) == (fs, true);
    } else {
      assert Under(k, q);
      MkdirBlocked(fs, q, k, share);
    }
  }

  /** Blocked parent chain: a strict ancestor of `target` that exists but is
      not a directory makes the primitive fail. */
  lemma PlaceLinkBlockedParent(fs: FileSystem, source: Path, target: Path, share: Path, k: Path)
    requires target != [] && k != [] && StrictlyUnder(k, target)
    requires Exists(fs, k) && !IsDir(fs, k)
    ensures !PlaceLink(fs, source, target, share).1
  {
    assert Under(k, Parent(target));
    MkdirBlocked(fs, Parent(target), k, share);
  }

  /** Anything already sitting at `target` — a file, a directory, a link,
      even a dangling one that `exists()` reports as absent — makes the
      primitive fail without any change. */
  lemma PlaceLinkOccupied(fs: FileSystem, source: Path, target: Path, share: Path)
    requires target != [] && Locate(fs, target).Some?
    ensures PlaceLink(fs, source, target, share) == (fs, false)
  {
    var q := Parent(target);
    assert target == q + [Name(target)];
    assert IsDir(fs, q);
    assert Mkdir(fs, q, share) == (fs, true);
  }

  /** In a World whose share exists the primitive is all-or-nothing: on
      failure the filesystem is as before; on success the link sits at
      `target` itself, which was free and lies outside the share, and only
      missing ancestors of `target` were created besides it. */
  lemma PlaceLinkInWorld(fs: FileSystem, source: Path, target: Path, share: Path)
    requires WellFormed(fs) && LinksIntoShare(fs, share) && share in fs
    requires target != []
    ensures !PlaceLink(fs, source, target, share).1 ==> PlaceLink(fs, source, target, share).0 == fs
    ensures PlaceLink(fs, source, target, share).1 ==>
              var fs1 := Mkdir(fs, Parent(target), share).0;
              && PlaceLink(fs, source, target, share).0 == fs1[target := Link(source)]
              && target !in fs1 && !Under(share, target) && !Exists(fs, target)
    ensures forall k :: k in PlaceLink(fs, source, target, share).0 && k !in fs && k != target ==>
              StrictlyUnder(k, target) && !Exists(fs, k)
  {
    if Locate(fs, target).Some? {
      PlaceLinkOccupied(fs, source, target, share);
      return;
    }
    var q := Parent(target);
    assert target == q + [Name(target)];
    MkdirInWorld(fs, share, q);
    MkdirKeepsLinks(fs, share, q);
    var (fs1, ok1) := Mkdir(fs, q, share);
    assert forall k :: Under(k, q) ==> StrictlyUnder(k, target);
    if ok1 {
      MkdirWellFormed(fs, q, share);
      if fs1 != fs {
        assert q != [];
        ChildOfMissing(fs, target);
      }
      MkdirStepInWorld(fs, fs1, share, target);
    }
  }

  /** When the parent of `target` already exists, as it does at every call
      in this file, no directory is created: the primitive either fails
      without change or adds exactly the link at `target`. */
  lemma PlaceLinkUnderExisting(fs: FileSystem, source: Path, target: Path, share: Path)
    requires WellFormed(fs) && LinksIntoShare(fs, share) && share in fs
    requires target != [] && Exists(fs, Parent(target))
    ensures !PlaceLink(fs, source, target, share).1 ==> PlaceLink(fs, source, target, share).0 == fs
    ensures PlaceLink(fs, source, target, share).1 ==>
              && PlaceLink(fs, source, target, share).0 == fs[target := Link(source)]
              && target !in fs && !Under(share, target)
  {
    PlaceLinkInWorld(fs, source, target, share);
    MkdirInWorld(fs, share, Parent(target));
  }

  /** `_should_create_symlink(source, target)`: the source exists and the
      target does not. Nothing in the manager calls it. The root always
      exists, so an accepted target is never the root. */
  predicate ShouldCreateSymlink(fs: FileSystem, source: Path, target: Path): (r: bool)
    ensures r ==> target != []
  {
    Exists(fs, source) && !Exists(fs, target)
  }

  /** When the check refuses an existing source, the primitive would have
      failed without any change: the target is occupied. */
  lemma ShouldCreateSymlinkVeto(fs: FileSystem, source: Path, target: Path, share: Path)
    requires target != []
    requires Exists(fs, source) && !ShouldCreateSymlink(fs, source, target)
    ensures PlaceLink(fs, source, target, share) == (fs, false)
  {
    ParentOfExisting(fs, target);
    PlaceLinkOccupied(fs, source, target, share);
  }

  /** When the check accepts and the primitive succeeds, the target now
      exists and leads to the source. */
  lemma ShouldCreateSymlinkResolves(fs: FileSystem, source: Path, target: Path, share: Path, project: Path)
    requires World(fs, share, project) && share in fs
    requires Under(share, source) && Under(project, target) && target != []
    requires ShouldCreateSymlink(fs, source, target) && PlaceLink(fs, source, target, share).1
    ensures Resolve(PlaceLink(fs, source, target, share).0, target) == Some(source)
  {
    var fs' := PlaceLink(fs, source, target, share).0;
    PlaceLinkInWorld(fs, source, target, share);
    PlaceLinkKeepsWorld(fs, source, target, share, project);
    ShareResolves(fs, share, project, source);
    assert fs'[target] == Link(source) && source in fs';
    LinkInWorldResolves(fs', share, project, target);
  }

  /** The check does not see a dangling link at the target, since
      `exists()` follows it: it accepts, yet the primitive fails. */
  lemma ShouldCreateSymlinkDangling(fs: FileSystem, source: Path, target: Path, share: Path, project: Path)
    requires World(fs, share, project) && Exists(fs, source)
    requires target in fs && fs[target].Link? && fs[target].target !in fs
    ensures ShouldCreateSymlink(fs, source, target)
    ensures PlaceLink(fs, source, target, share) == (fs, false)
  {
    LinkInWorldResolves(fs, share, project, target);
    KeyLocates(fs, target);
    PlaceLinkOccupied(fs, source, target, share);
  }

  /** A link from a project path to a share path keeps a World. */
  lemma PlaceLinkKeepsWorld(fs: FileSystem, source: Path, target: Path, share: Path, project: Path)
    requires World(fs, share, project) && Under(share, source) && Under(project, target) && target != []
    ensures World(PlaceLink(fs, source, target, share).0, share, project)
  {
    var q := Parent(target);
    MkdirKeepsWorld(fs, share, project, q);
    var fs1 := Mkdir(fs, q, share).0;
    if PlaceLink(fs, source, target, share).1 {
      SlotLexicallyOrInShare(fs1, share, target);
      WorldAddLink(fs1, share, project, target, source);
    }
  }
}
