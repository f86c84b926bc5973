/**
 The filesystem states the symlink manager works in, and what its two
 writes (`mkdir(parents=True, exist_ok=True)` and `symlink_to`) can do there.

 `World(fs, share, project)`:
 - the map is a tree;
 - the share root and the project root are disjoint (neither lies below the
   other);
 - nothing in the share or above its root is a link, and every link in the
   filesystem points at a path in the share (as every link the manager
   itself creates does).

 Nothing is demanded of the entries above the project root. A resolved
 project root has only real directories above it; should one of them be a
 link instead, it leads into the share, where every write fails, and the
 contracts hold there as well.

 In such a state every path resolves either to itself or into the share, and
 since writes into the share fail, everything the manager creates lands at
 the very path it asked for.
 */
module WorldModel {
  import opened FsModel

  predicate World(fs: FileSystem, share: Path, project: Path) {
    && WellFormed(fs)
    && share != [] && project != []
    && !Under(share, project) && !Under(project, share)
    && ShareLinkFree(fs, share)
    && LinksIntoShare(fs, share)
  }

  /** No link in the share, nor above its root. */
  predicate ShareLinkFree(fs: FileSystem, share: Path) {
    forall k :: k in fs && (Under(share, k) || Under(k, share)) ==> !fs[k].Link?
  }

  /** Every link points at a path in the share. */
  predicate LinksIntoShare(fs: FileSystem, share: Path) {
    forall k :: k in fs && fs[k].Link? ==> Under(share, fs[k].target)
  }

  /** Every entry of `fs'` that `fs` lacks lies outside the share. */
  predicate OutsideShare(fs: FileSystem, fs': FileSystem, share: Path) {
    forall k :: k in fs' && k !in fs ==> !Under(share, k)
  }

  /** Two maps that grow into each other are equal. */
  lemma GrowsBothWays(fs: FileSystem, fs': FileSystem)
    requires Grows(fs, fs')
    requires forall k :: k in fs' ==> k in fs
    ensures fs' == fs
  {
    assert fs'.Keys == fs.Keys;
  }

  /** A path with no link on the way resolves to itself when it is an entry
      and to nothing otherwise. */
  lemma {:induction false} LinkFreeResolves(fs: FileSystem, t: Path)
    requires WellFormed(fs)
    requires forall k :: k in fs && Under(k, t) ==> !fs[k].Link?
    ensures Resolve(fs, t) == if t == [] || t in fs then Some(t) else None
    decreases |t|
  {
    if t != [] {
      var q := Parent(t);
      assert t == q + [Name(t)];
      forall k | k in fs && Under(k, q) ensures !fs[k].Link? {
        assert Under(k, t);
      }
      LinkFreeResolves(fs, q);
      if t in fs {
        KeyResolves(fs, t);
      }
    }
  }

  /** A path in the share resolves to itself exactly when it is an entry. */
  lemma ShareResolves(fs: FileSystem, share: Path, project: Path, t: Path)
    requires World(fs, share, project) && Under(share, t)
    ensures Resolve(fs, t) == if t in fs then Some(t) else None
    ensures Exists(fs, t) <==> t in fs
    ensures IsDir(fs, t) <==> t in fs && fs[t] == Dir
    ensures IsFile(fs, t) <==> t in fs && fs[t] == File
  {
    forall k | k in fs && Under(k, t) ensures !fs[k].Link? {
      if |k| <= |share| {
        assert Under(k, share);
      } else {
        assert Under(share, k);
      }
    }
    LinkFreeResolves(fs, t);
  }

  /** A name has an existing share counterpart exactly when the
      counterpart is a key of the map. */
  lemma ShareNames(fs: FileSystem, share: Path, project: Path)
    requires World(fs, share, project)
    ensures forall t :: Exists(fs, share + [t]) <==> share + [t] in fs
  {
    forall t ensures Exists(fs, share + [t]) <==> share + [t] in fs {
      var s := share + [t];
      assert Under(share, s) by {
        assert s[..|share|] == share;
      }
      ShareResolves(fs, share, project, s);
    }
  }

  /** In a World every path resolves to itself or into the share. */
  lemma {:induction false} ResolvesLexicallyOrIntoShare(fs: FileSystem, share: Path, q: Path)
    requires LinksIntoShare(fs, share)
    requires Resolve(fs, q).Some?
    ensures Resolve(fs, q).value == q || Under(share, Resolve(fs, q).value)
    decreases |q|
  {
    if q != [] {
      var pq := Parent(q);
      assert q == pq + [Name(q)];
      var d := Resolve(fs, pq).value;
      ResolvesLexicallyOrIntoShare(fs, share, pq);
      var e := d + [Name(q)];
      assert e in fs;
      if !fs[e].Link? {
        assert Resolve(fs, q).value == e;
        if d != pq {
          assert e[..|share|] == d[..|share|];
        }
      }
    }
  }

  /** In a World an entry named by `q` sits at `q` itself or in the share. */
  lemma SlotLexicallyOrInShare(fs: FileSystem, share: Path, q: Path)
    requires LinksIntoShare(fs, share)
    requires Slot(fs, q).Some?
    ensures Slot(fs, q).value == q || Under(share, Slot(fs, q).value)
  {
    var pq := Parent(q);
    assert q == pq + [Name(q)];
    var d := Resolve(fs, pq).value;
    ResolvesLexicallyOrIntoShare(fs, share, pq);
    var e := d + [Name(q)];
    assert Slot(fs, q).value == e;
    if d != pq {
      assert e[..|share|] == d[..|share|];
    }
  }

  /** Adding real directories outside the share keeps a World. */
  lemma WorldGrowsByDirs(fs: FileSystem, fs': FileSystem, share: Path, project: Path)
    requires World(fs, share, project) && WellFormed(fs') && Grows(fs, fs')
    requires forall k :: k in fs' && k !in fs ==> fs'[k] == Dir
    ensures World(fs', share, project)
  {
  }

  /** A new link in the project to a path in the share keeps a World. */
  lemma WorldAddLink(fs: FileSystem, share: Path, project: Path, k: Path, t: Path)
    requires World(fs, share, project)
    requires k != [] && k !in fs && IsDirAt(fs, Parent(k)) && Under(project, k) && Under(share, t)
    ensures World(fs[k := Link(t)], share, project)
  {
    DisjointRoots(share, project, k);
    var fs' := fs[k := Link(t)];
    forall j | j in fs' ensures Hangs(fs', j) {
      if j != k {
        assert Hangs(fs, j);
      }
    }
  }

  /** A path in the project is neither in the share nor above it. */
  lemma DisjointRoots(share: Path, project: Path, k: Path)
    requires !Under(share, project) && !Under(project, share) && Under(project, k)
    ensures !Under(share, k) && !Under(k, share)
  {
    if Under(share, k) || Under(k, share) {
      PrefixesMeet(share, project, k);
    }
  }

  /** Two prefixes of one path are prefixes of each other. */
  lemma PrefixesMeet(a: Path, b: Path, k: Path)
    requires Under(b, k) && (Under(a, k) || Under(k, a))
    ensures Under(a, b) || Under(b, a)
  {
    if |a| <= |b| {
      assert b[..|a|] == k[..|a|];
    } else {
      assert a[..|b|] == k[..|b|];
    }
  }

  /** In a World, `is_symlink()` on a project path holds exactly when a
      link is stored at that very path. */
  lemma SymlinkInProject(fs: FileSystem, share: Path, project: Path, p: Path)
    requires World(fs, share, project) && Under(project, p)
    ensures IsSymlink(fs, p) <==> p in fs && fs[p].Link?
  {
    if p in fs {
      KeyLocates(fs, p);
    }
    if Locate(fs, p).Some? {
      SlotLexicallyOrInShare(fs, share, p);
    }
  }

  /** A link in a World leads straight to its target in the share:
      `exists()` holds exactly when the target is an entry, and then the
      link resolves to it. */
  lemma LinkInWorldResolves(fs: FileSystem, share: Path, project: Path, p: Path)
    requires World(fs, share, project) && p in fs && fs[p].Link?
    ensures Exists(fs, p) <==> fs[p].target in fs
    ensures Exists(fs, p) ==> Resolve(fs, p) == Some(fs[p].target)
  {
    var t := fs[p].target;
    assert Under(share, t);
    assert t in fs ==> !fs[t].Link?;
    var q := Parent(p);
    assert p == q + [Name(p)] && Hangs(fs, p);
    if |p| > 1 {
      KeyResolves(fs, q);
    }
    assert Resolve(fs, q) == Some(q) && IsDirAt(fs, q);
    assert Resolve(fs, p) == if t in fs then Some(t) else None;
  }

  /** Removing a link keeps a World: nothing hangs below a link. */
  lemma WorldRemoveLink(fs: FileSystem, share: Path, project: Path, k: Path)
    requires World(fs, share, project) && k in fs && fs[k].Link?
    ensures World(fs - {k}, share, project)
  {
    var fs' := fs - {k};
    forall j | j in fs' ensures Hangs(fs', j) {
      assert Hangs(fs, j);
    }
  }

  /** `mkdir(parents=True)` keeps a World: it only adds real directories
      outside the share. */
  lemma MkdirKeepsWorld(fs: FileSystem, share: Path, project: Path, p: Path)
    requires World(fs, share, project)
    ensures World(Mkdir(fs, p, share).0, share, project)
  {
    MkdirWellFormed(fs, p, share);
    WorldGrowsByDirs(fs, Mkdir(fs, p, share).0, share, project);
  }

  /** `mkdir(parents=True)` adds no link. */
  lemma MkdirKeepsLinks(fs: FileSystem, share: Path, p: Path)
    requires LinksIntoShare(fs, share)
    ensures LinksIntoShare(Mkdir(fs, p, share).0, share)
  {
  }

  /** A path whose (non-root) parent is missing is missing too. */
  lemma ChildOfMissing(fs: FileSystem, p: Path)
    requires WellFormed(fs) && p != [] && Parent(p) != [] && Parent(p) !in fs
    ensures p !in fs
  {
    assert p in fs ==> Hangs(fs, p);
  }

  /** One level of `mkdir(parents=True)` in a World whose share exists:
      given what the parent step established, `os.mkdir(p)` either fails
      leaving the state as it was before the whole call, or creates `p`
      itself. */
  lemma MkdirStepInWorld(fs: FileSystem, fs1: FileSystem, share: Path, p: Path)
    requires share in fs && LinksIntoShare(fs1, share)
    requires p != [] && !IsDir(fs, p)
    requires Grows(fs, fs1) && IsDir(fs1, Parent(p))
    requires forall k :: k in fs1 && k !in fs ==> Under(k, Parent(p))
    requires fs1 != fs ==>
               Resolve(fs1, Parent(p)) == Some(Parent(p)) && !Exists(fs, Parent(p)) && p !in fs && Parent(p) != []
               && !Under(share, Parent(p))
    ensures !Free(fs1, p, share) ==> fs1 == fs
    ensures Free(fs1, p, share) ==> Slot(fs1, p) == Some(p) && p !in fs1 && !Exists(fs, p)
  {
    var q := Parent(p);
    assert p == q + [Name(p)];
    var d := Resolve(fs1, q).value;
    var e := d + [Name(p)];
    assert Slot(fs1, p) == Some(e);
    if fs1 != fs {
      assert e == p;
      assert !Under(p, q);
      assert Under(share, e) ==> share == p;
    } else if !Exists(fs, p) {
      SlotLexicallyOrInShare(fs1, share, p);
    } else {
      assert e in fs;
    }
  }

  /** What `mkdir(parents=True, exist_ok=True)` does in a World whose share
      exists: it either fails and changes nothing, or succeeds with `p` a
      directory; everything it creates is a prefix of `p` that did not
      exist before. */
  lemma {:induction false} MkdirInWorld(fs: FileSystem, share: Path, p: Path)
    requires WellFormed(fs) && LinksIntoShare(fs, share) && share in fs
    ensures !Mkdir(fs, p, share).1 ==> Mkdir(fs, p, share).0 == fs
    ensures Mkdir(fs, p, share).1 ==> IsDir(Mkdir(fs, p, share).0, p)
    ensures Mkdir(fs, p, share).1 && Mkdir(fs, p, share).0 != fs ==>
              Resolve(Mkdir(fs, p, share).0, p) == Some(p) && p !in fs && !Exists(fs, p)
    ensures forall k :: k in Mkdir(fs, p, share).0 && k !in fs ==> Under(k, p) && !Exists(fs, k)
    decreases |p|
  {
    if p == [] || IsDir(fs, p) {
      return;
    }
    var q := Parent(p);
    MkdirInWorld(fs, share, q);
    MkdirKeepsLinks(fs, share, q);
    var (fs1, ok1) := Mkdir(fs, q, share);
    if ok1 {
      assert forall k :: Under(k, q) ==> Under(k, p);
      if fs1 != fs {
        ChildOfMissing(fs, p);
      }
      MkdirStepInWorld(fs, fs1, share, p);
      if Free(fs1, p, share) {
        MkdirInWorldCreates(fs, fs1, share, p);
      } else {
        assert Mkdir(fs, p, share) == (fs, false);
      }
    }
  }

  /** The last level of `MkdirInWorld` when `os.mkdir(p)` succeeds: `p`
      itself is created, and is a directory reached at `p`. */
  lemma MkdirInWorldCreates(fs: FileSystem, fs1: FileSystem, share: Path, p: Path)
    requires p != [] && !IsDir(fs, p) && Mkdir(fs, Parent(p), share) == (fs1, true)
    requires forall k :: k in fs1 && k !in fs ==> Under(k, Parent(p)) && !Exists(fs, k)
    requires Free(fs1, p, share) && Slot(fs1, p) == Some(p) && !Exists(fs, p)
    ensures Mkdir(fs, p, share) == (fs1[p := Dir], true)
    ensures Resolve(fs1[p := Dir], p) == Some(p) && IsDir(fs1[p := Dir], p)
    ensures forall k :: k in fs1[p := Dir] && k !in fs ==> Under(k, p) && !Exists(fs, k)
  {
    var fs2 := fs1[p := Dir];
    assert Mkdir(fs, p, share) == MkdirOne(fs1, p, share);
    AddDirResolves(fs1, p, p);
    assert forall k :: Under(k, Parent(p)) ==> Under(k, p);
  }
}
