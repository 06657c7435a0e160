/** The override stage (`2_cleanup_modified.py`): a file whose name carries
    the `-modifié` marker just before its extension is the edited version of
    the file without the marker. The edited version takes the original's
    name, replacing the original when there is one. Per-file OS errors are
    counted and the walk goes on. */
module Override {
  import opened Basics
  import opened FileTree

  /** The marker the photo service appends to the stem of an edited copy. */
  const Marker: string := "-modifié"

  /** The splitext stem of `name` ends with the marker. */
  predicate IsMarked(name: Name) {
    EndsWith(SplitExt(name).0, Marker)
  }

  /** The name with exactly the marker removed from its stem, same extension. */
  function Unmarked(name: Name): (r: Name)
    requires IsMarked(name)
    ensures |r| == |name| - |Marker|
    ensures var ext := SplitExt(name).1;
            EndsWith(r, ext) && name == r[..|r| - |ext|] + Marker + ext
  {
    var (stem, ext) := SplitExt(name);
    var base := stem[..|stem| - |Marker|];
    assert stem == base + Marker;
    assert (base + ext)[..|base|] == base;
    base + ext
  }

  /** Names that, joined to a folder, denote a directory rather than a file
      (the folder itself or its parent): removing or renaming onto them fails. */
  predicate DenotesDirectory(name: Name) {
    name == "" || name == "." || name == ".."
  }

  /** One entry of the walk's file listing, with the OS failures its
      processing meets (`os.remove` / `os.rename` raising). */
  datatype Visit = Visit(dir: Path, name: Name, removeFails: bool, renameFails: bool)

  function MarkedPath(v: Visit): Path {
    v.dir + [v.name]
  }

  function OriginalPath(v: Visit): Path
    requires IsMarked(v.name)
  {
    v.dir + [Unmarked(v.name)]
  }

  datatype Effect = Untouched | Replaced | RenamedOnly | Failed

  /** `os.rename(m, o)` onto a free name. */
  function Rename(t: Tree, m: Path, o: Path): Tree
    requires m in t.files
  {
    t.(files := (t.files - {m})[o := t.files[m]])
  }

  /** One file of the listing. Unmarked names are left alone. For a marked
      name: when the original exists it is removed and the marked file
      renamed onto it (replaced); otherwise the marked file is just renamed
      (renamed). Any failing OS call makes it an error; a rename failing
      after the original was removed leaves the original gone. */
  function ResolveOne(t: Tree, v: Visit): (r: (Tree, Effect))
    ensures !IsMarked(v.name) ==> r == (t, Untouched)
    ensures r.1 != Untouched ==> IsMarked(v.name)
    ensures IsMarked(v.name) ==> r.1 != Untouched
    ensures r.1 == Replaced || r.1 == RenamedOnly ==>
              && IsMarked(v.name) && MarkedPath(v) in t.files
              && r.0.files == (t.files - {MarkedPath(v)})[OriginalPath(v) := t.files[MarkedPath(v)]]
              && r.0.files[OriginalPath(v)] == t.files[MarkedPath(v)]
              && MarkedPath(v) !in r.0.files
    ensures r.1 == Failed ==>
              IsMarked(v.name) && (r.0.files == t.files || r.0.files == t.files - {OriginalPath(v)})
    ensures r.0.dirs == t.dirs
  {
    if !IsMarked(v.name) then (t, Untouched)
    else
      var m := MarkedPath(v);
      var target := Unmarked(v.name);
      var o := OriginalPath(v);
      assert o != m by {
        assert o[|v.dir|] == target && m[|v.dir|] == v.name;
      }
      if DenotesDirectory(target) then (t, Failed)
      else if o in t.files then
        if v.removeFails then (t, Failed)
        else if m !in t.files || v.renameFails then (Delete(t, o), Failed)
        else (Rename(Delete(t, o), m, o), Replaced)
      else if o in t.dirs || m !in t.files || v.renameFails then (t, Failed)
      else (Rename(t, m, o), RenamedOnly)
  }

  datatype Tally = Tally(replaced: nat, renamed: nat, errors: nat)

  /** When a marked file is replaced or just renamed: exactly when every
      call it needs succeeds, the original name denoting a file (replaced)
      or nothing at all (renamed). */
  lemma ResolveOneEffect(t: Tree, v: Visit)
    ensures var e := ResolveOne(t, v).1;
            && (e == Replaced <==>
                  IsMarked(v.name) && !DenotesDirectory(Unmarked(v.name))
                  && OriginalPath(v) in t.files && MarkedPath(v) in t.files
                  && !v.removeFails && !v.renameFails)
            && (e == RenamedOnly <==>
                  IsMarked(v.name) && !DenotesDirectory(Unmarked(v.name))
                  && !Exists(t, OriginalPath(v)) && MarkedPath(v) in t.files && !v.renameFails)
  {
  }

  /** The counters after one more step with effect `e`. */
  function Bump(c: Tally, e: Effect): (r: Tally)
    ensures r.replaced == c.replaced + (if e == Replaced then 1 else 0)
    ensures r.renamed == c.renamed + (if e == RenamedOnly then 1 else 0)
    ensures r.errors == c.errors + (if e == Failed then 1 else 0)
  {
    match e
    case Untouched => c
    case Replaced => c.(replaced := c.replaced + 1)
    case RenamedOnly => c.(renamed := c.renamed + 1)
    case Failed => c.(errors := c.errors + 1)
  }

  /** Number of listed files whose name carries the marker. */
  function MarkedCount(visits: seq<Visit>): nat {
    if visits == [] then 0
    else (if IsMarked(visits[0].name) then 1 else 0) + MarkedCount(visits[1..])
  }

  /** Some marked visit of the list acts on path `p` (as its marked or
      its original name). */
  predicate Touched(visits: seq<Visit>, p: Path) {
    exists i :: 0 <= i < |visits| && IsMarked(visits[i].name)
      && (p == MarkedPath(visits[i]) || p == OriginalPath(visits[i]))
  }

  /** The walk step by step: entry `i` is the tree and effect that visiting
      `visits[i]` gives, starting from the tree the earlier visits left. */
  function Steps(t: Tree, visits: seq<Visit>): (r: seq<(Tree, Effect)>)
    ensures |r| == |visits|
    ensures |visits| > 0 ==> r[0] == ResolveOne(t, visits[0])
    ensures forall i | 0 < i < |visits| :: r[i] == ResolveOne(r[i - 1].0, visits[i])
    decreases |visits|
  {
    if visits == [] then []
    else
      var s := ResolveOne(t, visits[0]);
      var rest := Steps(s.0, visits[1..]);
      assert forall i | 1 < i < |visits| :: rest[i - 1] == ResolveOne(rest[i - 2].0, visits[i]);
      [s] + rest
  }

  /** How many steps of a trace had effect `e`. */
  function Occurrences(steps: seq<(Tree, Effect)>, e: Effect): nat {
    if steps == [] then 0
    else (if steps[0].1 == e then 1 else 0) + Occurrences(steps[1..], e)
  }

  /** The tree the last step of the walk leaves. */
  function Final(t: Tree, visits: seq<Visit>): Tree {
    if visits == [] then t else Steps(t, visits)[|visits| - 1].0
  }

  /** The walk over the file listing. Each marked file is counted exactly
      once (replaced, renamed or error); directories are unchanged. */
  function ResolveAll(t: Tree, visits: seq<Visit>): (r: (Tree, Tally))
    ensures r.1.replaced + r.1.renamed + r.1.errors == MarkedCount(visits)
    ensures r.0.dirs == t.dirs
    decreases |visits|
  {
    if visits == [] then (t, Tally(0, 0, 0))
    else
      var (t1, e) := ResolveOne(t, visits[0]);
      var (t2, c) := ResolveAll(t1, visits[1..]);
      (t2, Bump(c, e))
  }

  /** What the walk leaves alone: files no marked visit names are unchanged,
      no file is created, and each replacement removes one file. */
  lemma {:induction false} WalkKeeps(t: Tree, visits: seq<Visit>)
    ensures var r := ResolveAll(t, visits);
            && (forall p | p in t.files && !Touched(visits, p) :: p in r.0.files && r.0.files[p] == t.files[p])
            && (forall p | p in r.0.files && !Touched(visits, p) :: p in t.files)
            && |r.0.files| + r.1.replaced <= |t.files|
    decreases |visits|
  {
    if visits != [] {
      var t1 := ResolveOne(t, visits[0]).0;
      WalkKeeps(t1, visits[1..]);
      TouchedSplit(t, visits);
    }
  }

  /** The walk follows its trace: the tree it leaves is the last step's, and
      each counter is the number of steps with that effect. */
  lemma WalkTrace(t: Tree, visits: seq<Visit>)
    ensures ResolveAll(t, visits).0 == Final(t, visits)
    ensures ResolveAll(t, visits).1 == Tally(Occurrences(Steps(t, visits), Replaced),
                                             Occurrences(Steps(t, visits), RenamedOnly),
                                             Occurrences(Steps(t, visits), Failed))
  {
    WalkFinal(t, visits);
    WalkCounts(t, visits);
  }

  /** The first step of a trace, and the trace of the rest of the walk. */
  lemma StepsCons(t: Tree, visits: seq<Visit>)
    requires visits != []
    ensures var s := ResolveOne(t, visits[0]);
            Steps(t, visits)[0] == s && Steps(t, visits)[1..] == Steps(s.0, visits[1..])
  {
    var s := ResolveOne(t, visits[0]);
    var rest := Steps(s.0, visits[1..]);
    assert Steps(t, visits) == [s] + rest;
    assert ([s] + rest)[1..] == rest;
  }

  lemma {:induction false} WalkFinal(t: Tree, visits: seq<Visit>)
    ensures ResolveAll(t, visits).0 == Final(t, visits)
    decreases |visits|
  {
    if visits != [] {
      var s := ResolveOne(t, visits[0]);
      StepsCons(t, visits);
      WalkFinal(s.0, visits[1..]);
      assert ResolveAll(t, visits).0 == ResolveAll(s.0, visits[1..]).0;
    }
  }

  lemma {:induction false} WalkCounts(t: Tree, visits: seq<Visit>)
    ensures ResolveAll(t, visits).1 == Tally(Occurrences(Steps(t, visits), Replaced),
                                             Occurrences(Steps(t, visits), RenamedOnly),
                                             Occurrences(Steps(t, visits), Failed))
    decreases |visits|
  {
    if visits != [] {
      var s := ResolveOne(t, visits[0]);
      StepsCons(t, visits);
      WalkCounts(s.0, visits[1..]);
      assert ResolveAll(t, visits).1 == Bump(ResolveAll(s.0, visits[1..]).1, s.1);
    }
  }

  /** A path touched by the rest of a walk is touched by the walk. */
  lemma TouchedTail(visits: seq<Visit>)
    requires visits != []
    ensures forall p | Touched(visits[1..], p) :: Touched(visits, p)
  {
    forall p | Touched(visits[1..], p) ensures Touched(visits, p) {
      var i :| 0 <= i < |visits[1..]| && IsMarked(visits[1..][i].name)
        && (p == MarkedPath(visits[1..][i]) || p == OriginalPath(visits[1..][i]));
      assert visits[1..][i] == visits[i + 1];
    }
  }

  /** What the first visit of a walk can change, as the induction in
      `WalkKeeps` needs it. */
  lemma TouchedSplit(t: Tree, visits: seq<Visit>)
    requires visits != []
    ensures forall p | Touched(visits[1..], p) :: Touched(visits, p)
    ensures var (t1, e) := ResolveOne(t, visits[0]);
            && (forall p | p in t.files && !Touched(visits, p) :: p in t1.files && t1.files[p] == t.files[p])
            && (forall p | p in t1.files && !Touched(visits, p) :: p in t.files)
            && |t1.files| + (if e == Replaced then 1 else 0) <= |t.files|
  {
    TouchedTail(visits);
    var v := visits[0];
    FirstVisitKeeps(t, v);
    if IsMarked(v.name) {
      assert Touched(visits, MarkedPath(v)) && Touched(visits, OriginalPath(v));
      FirstVisitSize(t, v);
    }
  }

  /** One visit changes no file but the two it names. */
  lemma FirstVisitKeeps(t: Tree, v: Visit)
    ensures var t1 := ResolveOne(t, v).0;
            && (forall p | p in t.files && p !in PathsOf(v) :: p in t1.files && t1.files[p] == t.files[p])
            && (forall p | p in t1.files && p !in PathsOf(v) :: p in t.files)
  {
  }

  /** The file count a marked visit leaves: a replacement removes one file,
      nothing adds one. */
  lemma FirstVisitSize(t: Tree, v: Visit)
    requires IsMarked(v.name)
    ensures var (t1, e) := ResolveOne(t, v);
            |t1.files| + (if e == Replaced then 1 else 0) <= |t.files|
  {
    var (t1, e) := ResolveOne(t, v);
    var m := MarkedPath(v);
    var o := OriginalPath(v);
    ResolveOneEffect(t, v);
    if e == Replaced || e == RenamedOnly {
      assert o[|v.dir|] == Unmarked(v.name) && m[|v.dir|] == v.name;
      var rest := (t.files - {m}).Keys;
      assert rest == t.files.Keys - {m};
      CardDifference(t.files.Keys, {m});
      assert t1.files.Keys == rest + {o};
      if e == Replaced {
        assert o in rest;
        assert rest + {o} == rest;
      }
    } else {
      assert t1.files.Keys <= t.files.Keys;
      SubsetCard(t1.files.Keys, t.files.Keys);
    }
  }

  /** The paths a visit acts on: for a marked name, the marked file and the
      name it goes to. */
  function PathsOf(v: Visit): set<Path> {
    if IsMarked(v.name) then {MarkedPath(v), OriginalPath(v)} else {}
  }

  /** A visit that meets no failure: no OS call raises and, for a marked
      name, the marked file is there and its original name denotes neither
      the folder nor a directory. */
  predicate Clean(t: Tree, v: Visit) {
    && !v.removeFails && !v.renameFails
    && (IsMarked(v.name) ==>
          MarkedPath(v) in t.files && !DenotesDirectory(Unmarked(v.name)) && OriginalPath(v) !in t.dirs)
  }

  /** No two visits of the walk act on a common path. */
  predicate Separate(visits: seq<Visit>) {
    forall i, j | 0 <= i < j < |visits| :: PathsOf(visits[i]) !! PathsOf(visits[j])
  }

  /** A walk that meets no failure reports no error, and each edited version
      ends up under its original name, the marked name gone. */
  lemma {:induction false} CleanWalk(t: Tree, visits: seq<Visit>)
    requires forall i | 0 <= i < |visits| :: Clean(t, visits[i])
    requires Separate(visits)
    ensures ResolveAll(t, visits).1.errors == 0
    ensures forall i | 0 <= i < |visits| && IsMarked(visits[i].name) ::
              && MarkedPath(visits[i]) in t.files
              && OriginalPath(visits[i]) in ResolveAll(t, visits).0.files
              && ResolveAll(t, visits).0.files[OriginalPath(visits[i])] == t.files[MarkedPath(visits[i])]
              && MarkedPath(visits[i]) !in ResolveAll(t, visits).0.files
    decreases |visits|
  {
    if visits != [] {
      var v := visits[0];
      var rest := visits[1..];
      var t1 := ResolveOne(t, v).0;
      CleanFirst(t, visits);
      CleanWalk(t1, rest);
      WalkKeeps(t1, rest);
      FirstUntouchedLater(visits);
      var r := ResolveAll(t, visits);
      assert r.0 == ResolveAll(t1, rest).0;
      forall i | 0 < i < |visits| && IsMarked(visits[i].name)
        ensures t1.files[MarkedPath(visits[i])] == t.files[MarkedPath(visits[i])]
      {
        assert visits[i] == rest[i - 1];
        assert PathsOf(v) !! PathsOf(visits[i]);
      }
    }
  }

  /** The first visit of a clean walk succeeds, and leaves the rest of the
      walk clean on the tree it produces. */
  lemma CleanFirst(t: Tree, visits: seq<Visit>)
    requires visits != []
    requires forall i | 0 <= i < |visits| :: Clean(t, visits[i])
    requires Separate(visits)
    ensures var (t1, e) := ResolveOne(t, visits[0]);
            && e != Failed
            && (IsMarked(visits[0].name) ==>
                  && OriginalPath(visits[0]) in t1.files
                  && t1.files[OriginalPath(visits[0])] == t.files[MarkedPath(visits[0])]
                  && MarkedPath(visits[0]) !in t1.files)
            && (forall j | 0 <= j < |visits[1..]| :: Clean(t1, visits[1..][j]))
            && Separate(visits[1..])
  {
    var v := visits[0];
    var rest := visits[1..];
    var (t1, e) := ResolveOne(t, v);
    ResolveOneEffect(t, v);
    assert Clean(t, v);
    forall j | 0 <= j < |rest| ensures Clean(t1, rest[j]) {
      assert rest[j] == visits[j + 1];
      assert Clean(t, visits[j + 1]);
      assert PathsOf(v) !! PathsOf(visits[j + 1]);
    }
    forall i, j | 0 <= i < j < |rest| ensures PathsOf(rest[i]) !! PathsOf(rest[j]) {
      assert rest[i] == visits[i + 1] && rest[j] == visits[j + 1];
    }
  }

  /** The paths of a walk's first visit are touched by no later visit. */
  lemma FirstUntouchedLater(visits: seq<Visit>)
    requires visits != [] && Separate(visits)
    ensures forall p | p in PathsOf(visits[0]) :: !Touched(visits[1..], p)
  {
    forall k | 0 <= k < |visits[1..]| ensures PathsOf(visits[0]) !! PathsOf(visits[1..][k]) {
      assert visits[1..][k] == visits[k + 1];
    }
  }

  /** `cleanup_modified_files`: nothing happens when the target directory is
      missing; otherwise it is the walk, with its counters. */
  function CleanupModified(target: Option<Tree>, visits: seq<Visit>): (r: (Option<Tree>, Tally))
    ensures target.None? ==> r == (None, Tally(0, 0, 0))
    ensures target.Some? ==> r.0 == Some(Final(target.value, visits))
    ensures target.Some? ==> r.1 == Tally(Occurrences(Steps(target.value, visits), Replaced),
                                          Occurrences(Steps(target.value, visits), RenamedOnly),
                                          Occurrences(Steps(target.value, visits), Failed))
    ensures target.Some? ==> r.1.replaced + r.1.renamed + r.1.errors == MarkedCount(visits)
  {
    match target
    case None => (None, Tally(0, 0, 0))
    case Some(t) =>
      WalkTrace(t, visits);
      var (t1, c) := ResolveAll(t, visits);
      (Some(t1), c)
  }
}
