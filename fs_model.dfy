/**
 An abstract filesystem: a finite map from absolute paths to entries, with
 the pathlib queries and the three mutations the symlink manager uses.

 A path is the sequence of its components; the root is the empty path and is
 never itself a key of the map. Queries follow links the way `stat(2)` does
 (`exists`, `is_file`, `is_dir`) or stop at the last component the way
 `lstat(2)` does (`is_symlink`). A link is followed by looking its target up
 directly; under the invariant of `World` every link targets an entry of the
 read-only share, which is never itself a link, so that single hop is what
 the operating system would do.
 */
module FsModel {

  datatype Option<T> = None | Some(value: T)

  type Path = seq<string>

  datatype Node = File | Dir | Link(target: Path)

  type FileSystem = map<Path, Node>

  /** `p` is `root` or lies below it. */
  predicate Under(root: Path, p: Path) {
    |root| <= |p| && p[..|root|] == root
  }

  /** `p` lies strictly below `root`. */
  predicate StrictlyUnder(root: Path, p: Path) {
    |root| < |p| && p[..|root|] == root
  }

  function Parent(p: Path): Path
    requires p != []
  {
    p[..|p| - 1]
  }

  function Name(p: Path): string
    requires p != []
  {
    p[|p| - 1]
  }

  /** `k` is not the root and hangs off the root or off a real directory. */
  predicate Hangs(fs: FileSystem, k: Path) {
    k != [] && (|k| == 1 || (Parent(k) in fs && fs[Parent(k)] == Dir))
  }

  /** Every entry hangs off the root or off a real directory. (The fact for
      one entry `k` is drawn by mentioning `Hangs(fs, k)`.) */
  predicate WellFormed(fs: FileSystem) {
    forall k {:trigger Hangs(fs, k)} :: k in fs ==> Hangs(fs, k)
  }

  /** A real location (a key or the root) that is a directory. */
  predicate IsDirAt(fs: FileSystem, d: Path) {
    d == [] || (d in fs && fs[d] == Dir)
  }

  /** The real location `p` resolves to, following links; None when some
      component is missing, is not a directory, or is a dangling link. */
  function Resolve(fs: FileSystem, p: Path): (r: Option<Path>)
    decreases |p|
    ensures r.Some? ==> r.value == [] || (r.value in fs && !fs[r.value].Link?)
  {
    if p == [] then Some([])
    else
      match Resolve(fs, Parent(p))
      case None => None
      case Some(d) =>
        var e := d + [Name(p)];
        if !IsDirAt(fs, d) || e !in fs then None
        else
          match fs[e]
          case Link(t) => if t in fs && !fs[t].Link? then Some(t) else None
          case _ => Some(e)
  }

  /** Where an entry named by `p` sits or would be created: the real parent
      directory followed by the last component. */
  function Slot(fs: FileSystem, p: Path): (r: Option<Path>)
    ensures r.Some? ==> p != [] && r.value != [] && Name(r.value) == Name(p) && IsDirAt(fs, Parent(r.value))
  {
    if p == [] then None
    else
      match Resolve(fs, Parent(p))
      case None => None
      case Some(d) => if IsDirAt(fs, d) then (assert (d + [Name(p)])[..|d|] == d; Some(d + [Name(p)])) else None
  }

  /** The key of the entry `p` names itself, without following a final link. */
  function Locate(fs: FileSystem, p: Path): (r: Option<Path>)
    ensures r.Some? ==> r.value in fs && Slot(fs, p) == r
    ensures r.None? ==> Slot(fs, p).None? || Slot(fs, p).value !in fs
  {
    match Slot(fs, p)
    case None => None
    case Some(e) => if e in fs then Some(e) else None
  }

  /** pathlib `exists()`: an existing path other than the root has a
      parent that is a directory. */
  predicate Exists(fs: FileSystem, p: Path): (r: bool)
    ensures r && p != [] ==> Resolve(fs, Parent(p)).Some? && IsDirAt(fs, Resolve(fs, Parent(p)).value)
  {
    Resolve(fs, p).Some?
  }

  /** pathlib `is_dir()`: only an existing path is a directory. */
  predicate IsDir(fs: FileSystem, p: Path): (r: bool)
    ensures r ==> Exists(fs, p)
  {
    Resolve(fs, p).Some? && IsDirAt(fs, Resolve(fs, p).value)
  }

  /** pathlib `is_file()`: only an existing path is a file, and never one
      that is a directory. */
  predicate IsFile(fs: FileSystem, p: Path): (r: bool)
    ensures r ==> Exists(fs, p) && !IsDir(fs, p)
  {
    Resolve(fs, p).Some? && Resolve(fs, p).value != [] && fs[Resolve(fs, p).value] == File
  }

  /** pathlib `is_symlink()`: the root is never a link, and a link that
      exists resolves to somewhere other than where it is stored. */
  predicate IsSymlink(fs: FileSystem, p: Path): (r: bool)
    ensures r ==> p != [] && (Exists(fs, p) ==> Resolve(fs, p) != Locate(fs, p))
  {
    Locate(fs, p).Some? && fs[Locate(fs, p).value].Link?
  }

  /** The names listed by `iterdir()` on the real directory `d`. */
  function Children(fs: FileSystem, d: Path): (r: set<string>)
    ensures forall n :: n in r <==> d + [n] in fs
  {
    var r := set k | k in fs && |k| == |d| + 1 && k[..|d|] == d :: k[|d|];
    assert forall n :: d + [n] in fs ==> n in r by {
      forall n | d + [n] in fs ensures n in r {
        var k := d + [n];
        assert k[..|d|] == d && k[|d|] == n;
      }
    }
    assert forall n :: n in r ==> d + [n] in fs by {
      forall n | n in r ensures d + [n] in fs {
        var k :| k in fs && |k| == |d| + 1 && k[..|d|] == d && k[|d|] == n;
        assert k == d + [n];
      }
    }
    r
  }

  /** `iterdir()` on the share path `s` succeeds: `s` is a real directory
      whose listing is permitted (`denied` holds the unreadable ones). */
  predicate Lists(fs: FileSystem, denied: set<Path>, s: Path) {
    s in fs && fs[s] == Dir && s !in denied
  }

  /** Every entry of `fs` is still there, unchanged, in `fs'`. */
  predicate Grows(fs: FileSystem, fs': FileSystem) {
    forall k :: k in fs ==> k in fs' && fs'[k] == fs[k]
  }

  /** The slot `p` names can take a new entry: its parent resolves to a
      directory, nothing (not even a dangling link) sits there, and it does
      not lie in the read-only tree `share`. */
  predicate Free(fs: FileSystem, p: Path, share: Path) {
    Slot(fs, p).Some? && Slot(fs, p).value !in fs && !Under(share, Slot(fs, p).value)
  }

  /** `os.mkdir(p)`: creates a directory at `p` when its parent resolves to a
      directory and the name is free (a dangling link also occupies it) and
      does not lie in the read-only tree `share`. */
  function MkdirOne(fs: FileSystem, p: Path, share: Path): (r: (FileSystem, bool))
    ensures r.1 <==> Free(fs, p, share)
    ensures r.1 ==> r.0 == fs[Slot(fs, p).value := Dir]
    ensures !r.1 ==> r.0 == fs
  {
    match Slot(fs, p)
    case None => (fs, false)
    case Some(e) => if e in fs || Under(share, e) then (fs, false) else (fs[e := Dir], true)
  }

  /** `Path.mkdir(parents=True, exist_ok=True)`: succeeds at once when `p`
      already resolves to a directory; otherwise makes sure of the parent
      first and then creates `p` itself. Directories created before a
      failure stay. */
  function Mkdir(fs: FileSystem, p: Path, share: Path): (r: (FileSystem, bool))
    decreases |p|
    ensures Grows(fs, r.0)
    ensures forall k :: k in r.0 && k !in fs ==> r.0[k] == Dir && !Under(share, k)
  {
    if p == [] || IsDir(fs, p) then (fs, true)
    else
      var (fs1, ok1) := Mkdir(fs, Parent(p), share);
      if !ok1 then (fs1, false) else MkdirOne(fs1, p, share)
  }

  /** `Path.symlink_to(target)`: places a link at `p` when its parent resolves
      to a directory and the name is free (a dangling link also occupies it)
      and does not lie in the read-only tree `share`. */
  function SymlinkTo(fs: FileSystem, p: Path, target: Path, share: Path): (r: (FileSystem, bool))
    ensures r.1 <==> Free(fs, p, share)
    ensures r.1 ==> r.0 == fs[Slot(fs, p).value := Link(target)]
    ensures !r.1 ==> r.0 == fs
  {
    match Slot(fs, p)
    case None => (fs, false)
    case Some(e) => if e in fs || Under(share, e) then (fs, false) else (fs[e := Link(target)], true)
  }

  /** `Path.unlink()`: removes the entry `p` names unless it is a directory. */
  function Unlink(fs: FileSystem, p: Path, share: Path): (r: (FileSystem, bool))
    ensures r.1 <==> Locate(fs, p).Some? && !fs[Locate(fs, p).value].Dir? && !Under(share, Locate(fs, p).value)
    ensures r.1 ==> r.0 == fs - {Locate(fs, p).value}
    ensures !r.1 ==> r.0 == fs
  {
    match Locate(fs, p)
    case None => (fs, false)
    case Some(e) =>
      if fs[e].Dir? || Under(share, e) then (fs, false) else (fs - {e}, true)
  }

  // ---------------------------------------------------------------------
  // Facts about resolution

  /** Adding entries never makes a path stop resolving, nor move it. */
  lemma {:induction false} ResolveMonotone(fs: FileSystem, fs': FileSystem, p: Path)
    requires Grows(fs, fs')
    requires Resolve(fs, p).Some?
    ensures Resolve(fs', p) == Resolve(fs, p)
    decreases |p|
  {
    if p != [] {
      ResolveMonotone(fs, fs', Parent(p));
    }
  }

  /** The slot a path names, and the entry there, survive added entries. */
  lemma SlotMonotone(fs: FileSystem, fs': FileSystem, p: Path)
    requires Grows(fs, fs')
    requires Slot(fs, p).Some?
    ensures Slot(fs', p) == Slot(fs, p)
    ensures Locate(fs, p).Some? ==> Locate(fs', p) == Locate(fs, p)
  {
    ResolveMonotone(fs, fs', Parent(p));
  }

  /** Every ancestor of an entry is a real directory entry. */
  lemma {:induction false} AncestorIsDir(fs: FileSystem, k: Path, a: Path)
    requires WellFormed(fs) && k in fs
    requires a != [] && StrictlyUnder(a, k)
    ensures a in fs && fs[a] == Dir
    decreases |k|
  {
    assert |k| > 1 && Hangs(fs, k);
    var q := Parent(k);
    assert q in fs && fs[q] == Dir;
    if |a| < |q| {
      assert q[..|a|] == a;
      AncestorIsDir(fs, q, a);
    } else {
      assert a == q;
    }
  }

  /** Nothing lies below a file or a link. */
  lemma NothingBelowLeaf(fs: FileSystem, a: Path, k: Path)
    requires WellFormed(fs) && a in fs && fs[a] != Dir
    requires k in fs
    ensures !StrictlyUnder(a, k)
  {
    if StrictlyUnder(a, k) {
      assert Hangs(fs, a);
      AncestorIsDir(fs, k, a);
    }
  }

  /** An entry that is not a link is its own real location. */
  lemma {:induction false} KeyResolves(fs: FileSystem, k: Path)
    requires WellFormed(fs) && k in fs && !fs[k].Link?
    ensures Resolve(fs, k) == Some(k)
    ensures Slot(fs, k) == Some(k) && Locate(fs, k) == Some(k)
    decreases |k|
  {
    var q := Parent(k);
    assert k == q + [Name(k)] && Hangs(fs, k);
    if |k| > 1 {
      KeyResolves(fs, q);
    }
  }

  /** Every entry is found at its own key, without following a final link. */
  lemma KeyLocates(fs: FileSystem, k: Path)
    requires WellFormed(fs) && k in fs
    ensures Slot(fs, k) == Some(k) && Locate(fs, k) == Some(k)
  {
    var q := Parent(k);
    assert k == q + [Name(k)] && Hangs(fs, k);
    if |k| > 1 {
      KeyResolves(fs, q);
    }
  }

  /** A link whose target is an entry that is not a link resolves to it. */
  lemma LinkResolves(fs: FileSystem, k: Path)
    requires WellFormed(fs) && k in fs && fs[k].Link?
    requires fs[k].target in fs && !fs[fs[k].target].Link?
    ensures Resolve(fs, k) == Some(fs[k].target)
    ensures Locate(fs, k) == Some(k)
  {
    var q := Parent(k);
    assert k == q + [Name(k)] && Hangs(fs, k);
    if |k| > 1 {
      KeyResolves(fs, q);
    }
  }

  /** A path that resolves has a parent that resolves to a directory. */
  lemma ParentOfExisting(fs: FileSystem, p: Path)
    requires p != [] && Exists(fs, p)
    ensures IsDir(fs, Parent(p)) && Slot(fs, p).Some? && Locate(fs, p).Some?
  {
  }

  /** `os.mkdir` keeps the map a tree, and on success `p` is a directory. */
  lemma MkdirOneWellFormed(fs: FileSystem, p: Path, share: Path)
    requires WellFormed(fs)
    ensures WellFormed(MkdirOne(fs, p, share).0)
    ensures MkdirOne(fs, p, share).1 ==> IsDir(MkdirOne(fs, p, share).0, p)
  {
    if MkdirOne(fs, p, share).1 {
      var e := Slot(fs, p).value;
      AddDirWellFormed(fs, e);
      AddDirResolves(fs, p, e);
    }
  }

  /** A directory added in a real directory keeps the map a tree. */
  lemma AddDirWellFormed(fs: FileSystem, e: Path)
    requires WellFormed(fs) && e != [] && IsDirAt(fs, Parent(e))
    ensures WellFormed(fs[e := Dir])
  {
    var fs2 := fs[e := Dir];
    forall k | k in fs2 ensures Hangs(fs2, k) {
      if k != e {
        assert Hangs(fs, k);
      }
    }
  }

  /** A directory added in the free slot `p` names makes `p` a directory. */
  lemma AddDirResolves(fs: FileSystem, p: Path, e: Path)
    requires Slot(fs, p) == Some(e) && e !in fs
    ensures Resolve(fs[e := Dir], p) == Some(e) && IsDir(fs[e := Dir], p)
  {
    var fs2 := fs[e := Dir];
    var q := Parent(p);
    var d := Resolve(fs, q).value;
    assert Grows(fs, fs2);
    ResolveMonotone(fs, fs2, q);
    assert e == d + [Name(p)] && IsDirAt(fs2, d);
    assert e in fs2 && fs2[e] == Dir;
    assert Resolve(fs2, p) == Some(e);
  }

  /** A link added in the free slot `p` names is found at `p`. */
  lemma AddLinkLocates(fs: FileSystem, p: Path, e: Path, target: Path)
    requires Slot(fs, p) == Some(e) && e !in fs
    ensures Locate(fs[e := Link(target)], p) == Some(e) && IsSymlink(fs[e := Link(target)], p)
  {
    var fs2 := fs[e := Link(target)];
    assert Grows(fs, fs2);
    SlotMonotone(fs, fs2, p);
  }

  /** Below a directory, `mkdir(parents=True)` of a missing `p` is one
      `os.mkdir`. */
  lemma MkdirUnderDir(fs: FileSystem, p: Path, share: Path)
    requires p != [] && IsDir(fs, Parent(p)) && !IsDir(fs, p)
    ensures Mkdir(fs, p, share) == MkdirOne(fs, p, share)
  {
    assert Mkdir(fs, Parent(p), share) == (fs, true);
  }

  /** `mkdir` keeps the map a tree, and on success `p` is a directory. */
  lemma {:induction false} MkdirWellFormed(fs: FileSystem, p: Path, share: Path)
    requires WellFormed(fs)
    ensures WellFormed(Mkdir(fs, p, share).0)
    ensures Mkdir(fs, p, share).1 ==> IsDir(Mkdir(fs, p, share).0, p)
    decreases |p|
  {
    if p != [] && !IsDir(fs, p) {
      MkdirWellFormed(fs, Parent(p), share);
      MkdirOneWellFormed(Mkdir(fs, Parent(p), share).0, p, share);
    }
  }
}
