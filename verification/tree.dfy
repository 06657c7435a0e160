/** The filesystem every stage rewrites, as an immutable value: a map from
    relative path to file record plus the set of directories, both relative
    to the stage's root directory (the root itself is implicit and never
    stored). Also the one directory-tree algorithm the stages share: the
    bottom-up removal of empty directories (`os.walk(..., topdown=False)`
    followed by `os.rmdir` of every listed sub-directory found empty). */
module FileTree {
  import opened Basics

  type Name = string

  /** A path relative to a stage root, one name per level. */
  type Path = seq<Name>

  /** A regular file: its size, an identifier for its content, and the three
      timestamp slots the OS keeps (creation, last access, last write), each
      as a FILETIME tick count. */
  datatype File = File(size: nat, content: nat, created: int, accessed: int, written: int)

  datatype Tree = Tree(files: map<Path, File>, dirs: set<Path>)

  const EmptyTree := Tree(map[], {})

  /** `a` is `b` or an ancestor of `b`. */
  predicate IsPrefix(a: Path, b: Path) {
    |a| <= |b| && b[..|a|] == a
  }

  /** `d` is a proper ancestor of `p`. */
  predicate Below(d: Path, p: Path) {
    |d| < |p| && p[..|d|] == d
  }

  /** `p` names an entry directly inside directory `d`. */
  predicate IsChild(d: Path, p: Path) {
    |p| == |d| + 1 && p[..|d|] == d
  }

  /** Directory part of a path. */
  function Parent(p: Path): Path
    requires p != []
  {
    p[..|p| - 1]
  }

  /** Last name of a path. */
  function Base(p: Path): Name
    requires p != []
  {
    p[|p| - 1]
  }

  /** `os.path.exists` for a path below the root. */
  predicate Exists(t: Tree, p: Path) {
    p in t.files || p in t.dirs
  }

  /** A tree the OS could hold: files and directories are disjoint, the
      root is not stored, and every proper prefix of an entry is a directory. */
  predicate WF(t: Tree) {
    && [] !in t.dirs
    && (forall p | p in t.files :: p != [] && p !in t.dirs)
    && (forall p, i | p in t.files && 0 < i < |p| :: p[..i] in t.dirs)
    && (forall d, i | d in t.dirs && 0 < i < |d| :: d[..i] in t.dirs)
  }

  /** The names `os.listdir(d)` returns. */
  function Entries(t: Tree, d: Path): (r: set<Name>)
    ensures forall n :: n in r <==> Exists(t, d + [n])
  {
    var r := set p | p in t.files.Keys + t.dirs && IsChild(d, p) :: p[|d|];
    assert forall n :: Exists(t, d + [n]) ==> (d + [n])[|d|] in r;
    assert forall p :: IsChild(d, p) ==> p == d + [p[|d|]];
    r
  }

  /** `os.listdir(d)` is non-empty. */
  predicate HasChild(t: Tree, d: Path) {
    (exists p | p in t.files :: IsChild(d, p)) || (exists c | c in t.dirs :: IsChild(d, c))
  }

  /** The proper non-empty prefixes of `p`: the directories that
      `os.makedirs(os.path.dirname(p), exist_ok=True)` guarantees. */
  function Ancestors(p: Path): (r: set<Path>)
    ensures forall i :: 0 < i < |p| ==> p[..i] in r
    ensures forall a :: a in r ==> a != [] && Below(a, p)
  {
    set i | 0 < i < |p| :: p[..i]
  }

  /** Places record `f` at `p` (creating or replacing it), after creating
      the missing parent directories. */
  function Put(t: Tree, p: Path, f: File): Tree {
    Tree(t.files[p := f], t.dirs + Ancestors(p))
  }

  /** Removes the file at `p`. */
  function Delete(t: Tree, p: Path): Tree {
    t.(files := t.files - {p})
  }

  // ---------------------------------------------------------------------
  // Bottom-up removal of empty directories.

  /** A directory survives the bottom-up pass iff something pins it: a file
      somewhere below it, or a directory at or below it whose removal fails
      (`faults` are the directories whose `os.listdir`/`os.rmdir` raises). */
  predicate Pinned(t: Tree, faults: set<Path>, d: Path) {
    || (exists p | p in t.files :: Below(d, p))
    || (exists e | e in t.dirs && e in faults :: IsPrefix(d, e))
  }

  /** The declarative outcome of the bottom-up pass: every unpinned directory
      is gone, the files are untouched. */
  function PruneEmpty(t: Tree, faults: set<Path>): (r: Tree)
    ensures r.files == t.files
    ensures r.dirs <= t.dirs
    ensures forall d :: d in t.dirs && (exists p | p in t.files :: Below(d, p)) ==> d in r.dirs
  {
    t.(dirs := set d | d in t.dirs && Pinned(t, faults, d))
  }

  /** The order in which `os.walk(top, topdown=False)` presents the
      sub-directories of `top` for the emptiness check: each directory once,
      and never before a directory below it. */
  predicate BottomUpOrder(t: Tree, order: seq<Path>) {
    && Distinct(order)
    && (forall d | d in t.dirs :: d in order)
    && (forall i | 0 <= i < |order| :: order[i] in t.dirs)
    && (forall i, j :: 0 <= i < j < |order| ==> !Below(order[i], order[j]))
  }

  /** The pass itself: visit the directories descendants-first and remove
      each one whose listing is empty at that moment, unless its removal
      fails. It removes exactly the unpinned directories. */
  method PruneBottomUp(t: Tree, order: seq<Path>, faults: set<Path>) returns (r: Tree, removed: nat)
    requires WF(t)
    requires BottomUpOrder(t, order)
    ensures r == PruneEmpty(t, faults)
    ensures removed == |t.dirs| - |r.dirs|
  {
    r := t;
    removed := 0;
    var i := 0;
    while i < |order|
      invariant 0 <= i <= |order|
      invariant r.files == t.files
      invariant r.dirs <= t.dirs
      invariant forall d :: d in r.dirs <==> d in t.dirs && (d !in order[..i] || Pinned(t, faults, d))
      invariant removed == |t.dirs| - |r.dirs|
    {
      var d := order[i];
      assert d !in order[..i];
      StepDecides(t, faults, r, order, i);
      if !HasChild(r, d) && d !in faults {
        r := r.(dirs := r.dirs - {d});
        removed := removed + 1;
      }
      assert order[..i + 1] == order[..i] + [d];
      i := i + 1;
    }
    assert order[..i] == order;
    assert r.dirs == PruneEmpty(t, faults).dirs;
  }

  /** A pin on a child is a pin on its parent. */
  lemma PinnedUp(t: Tree, faults: set<Path>, d: Path, c: Path)
    requires IsChild(d, c)
    requires Pinned(t, faults, c)
    ensures Pinned(t, faults, d)
  {
    if p :| p in t.files && Below(c, p) {
      assert p[..|d|] == c[..|d|];
      assert Below(d, p);
    } else {
      var e :| e in t.dirs && e in faults && IsPrefix(c, e);
      assert e[..|d|] == c[..|d|];
      assert IsPrefix(d, e);
    }
  }

  /** When the pass reaches `order[i]`, all directories below it have been
      decided, so its listing is empty exactly when nothing pins it (a
      failing removal of the directory itself also keeps it). */
  lemma StepDecides(t: Tree, faults: set<Path>, r: Tree, order: seq<Path>, i: nat)
    requires WF(t)
    requires BottomUpOrder(t, order)
    requires i < |order|
    requires r.files == t.files
    requires forall d :: d in r.dirs <==> d in t.dirs && (d !in order[..i] || Pinned(t, faults, d))
    ensures (HasChild(r, order[i]) || order[i] in faults) <==> Pinned(t, faults, order[i])
  {
    var d := order[i];
    ChildrenDecided(t, faults, r, order, i);
    ListedPins(t, faults, r, d);
    PinnedListed(t, faults, r, d);
    if d in faults {
      assert d in t.dirs && IsPrefix(d, d);
    }
  }

  /** The directories directly inside `order[i]` come earlier in the order,
      so they are still there exactly when something pins them. */
  lemma ChildrenDecided(t: Tree, faults: set<Path>, r: Tree, order: seq<Path>, i: nat)
    requires BottomUpOrder(t, order)
    requires i < |order|
    requires forall d :: d in r.dirs <==> d in t.dirs && (d !in order[..i] || Pinned(t, faults, d))
    ensures forall c | c in t.dirs && IsChild(order[i], c) :: c in r.dirs <==> Pinned(t, faults, c)
  {
    forall c | c in t.dirs && IsChild(order[i], c)
      ensures c in r.dirs <==> Pinned(t, faults, c)
    {
      var j :| 0 <= j < |order| && order[j] == c;
      if j > i {
        assert Below(order[i], order[j]);
      }
      assert j != i;
      assert c in order[..i];
    }
  }

  /** A non-empty listing pins the directory, when every listed
      sub-directory is pinned itself. */
  lemma ListedPins(t: Tree, faults: set<Path>, r: Tree, d: Path)
    requires r.files == t.files
    requires forall c | c in r.dirs && IsChild(d, c) :: Pinned(t, faults, c)
    ensures HasChild(r, d) ==> Pinned(t, faults, d)
  {
    if p :| p in r.files && IsChild(d, p) {
      assert Below(d, p);
    } else if c :| c in r.dirs && IsChild(d, c) {
      PinnedUp(t, faults, d, c);
    }
  }

  /** A pinned directory whose pinned sub-directories are all still there
      has a non-empty listing, unless its own removal is what fails. */
  lemma PinnedListed(t: Tree, faults: set<Path>, r: Tree, d: Path)
    requires WF(t)
    requires r.files == t.files
    requires forall c | c in t.dirs && IsChild(d, c) && Pinned(t, faults, c) :: c in r.dirs
    ensures Pinned(t, faults, d) && d !in faults ==> HasChild(r, d)
  {
    if p :| p in t.files && Below(d, p) {
      if |p| != |d| + 1 {
        var c := p[..|d| + 1];
        assert c in t.dirs;
        assert c[..|d|] == d;
        assert Below(c, p);
        assert c in r.dirs;
      } else {
        assert IsChild(d, p);
      }
    } else if e :| e in t.dirs && e in faults && IsPrefix(d, e) && e != d {
      var c := e[..|d| + 1];
      assert c in t.dirs by {
        if |e| != |d| + 1 {
          assert 0 < |d| + 1 < |e|;
        } else {
          assert c == e;
        }
      }
      assert c[..|d|] == d;
      assert IsPrefix(c, e);
      assert c in r.dirs;
    }
  }

  /** The pass keeps the tree well formed. */
  lemma PrunePreservesWF(t: Tree, faults: set<Path>)
    requires WF(t)
    ensures WF(PruneEmpty(t, faults))
  {
    var r := PruneEmpty(t, faults);
    forall p, i | p in r.files && 0 < i < |p|
      ensures p[..i] in r.dirs
    {
      assert Below(p[..i], p);
    }
    forall d, i | d in r.dirs && 0 < i < |d|
      ensures d[..i] in r.dirs
    {
      assert Pinned(t, faults, d);
      if p :| p in t.files && Below(d, p) {
        assert p[..i] == d[..i];
        assert Below(d[..i], p);
      } else {
        var e :| e in t.dirs && e in faults && IsPrefix(d, e);
        assert e[..i] == d[..i];
        assert IsPrefix(d[..i], e);
      }
    }
  }

  /** With no failing removals, no empty directory survives the pass: every
      remaining directory still lists at least one entry. */
  lemma PruneLeavesNoEmptyDir(t: Tree)
    requires WF(t)
    ensures forall d :: d in PruneEmpty(t, {}).dirs ==> HasChild(PruneEmpty(t, {}), d)
  {
    var r := PruneEmpty(t, {});
    forall d | d in r.dirs
      ensures HasChild(r, d)
    {
      var p :| p in t.files && Below(d, p);
      if |p| == |d| + 1 {
        assert IsChild(d, p);
      } else {
        var c := p[..|d| + 1];
        assert c in t.dirs;
        assert Below(c, p);
        assert c[..|d|] == d;
        assert IsChild(d, c) && c in r.dirs;
      }
    }
  }
}
