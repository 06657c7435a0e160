/** The date partition (`5_filter_by_date.py`) and its inverse
    (`6_revert_filter.py`). The filter moves every file none of whose three
    timestamps falls in the inclusive window [2013-08-18 00:00:00,
    2020-12-25 23:59:59] to the exclusion tree, at the same relative path,
    then removes the target directories left empty. The revert moves every
    file of the exclusion tree back to the same relative path under the
    target, removes the exclusion directories left empty, and finally the
    exclusion root when it is empty. Per-file failures (`os.stat`,
    `os.makedirs` or `shutil.move` raising) and failing directory removals
    are fault sets. */
module Partition {
  import opened Basics
  import opened FileTree
  import opened FileTime

  /** `START_DATE`, 2013-08-18 00:00:00, in Unix seconds. */
  const StartSeconds: int := 1376784000

  /** `END_DATE`, 2020-12-25 23:59:59, in Unix seconds. */
  const EndSeconds: int := 1608940799

  /** A timestamp slot lies in the window, both ends included. */
  predicate InWindow(ticks: int) {
    ToTicks(StartSeconds) <= ticks <= ToTicks(EndSeconds)
  }

  /** `is_in_range`: the last-access, creation or last-write time is in the window. */
  predicate Keep(f: File) {
    InWindow(f.accessed) || InWindow(f.created) || InWindow(f.written)
  }

  /** A file whose three slots were all written from one whole second `ts`
      is kept exactly when that second is in the window, both ends included. */
  lemma KeepFromSeconds(f: File, ts: int)
    requires f.created == ToTicks(ts) && f.accessed == ToTicks(ts) && f.written == ToTicks(ts)
    ensures Keep(f) <==> StartSeconds <= ts <= EndSeconds
  {
    ToTicksMonotone(StartSeconds, ts);
    ToTicksMonotone(ts, EndSeconds);
  }

  // ---------------------------------------------------------------------
  // Moving files between the two roots

  /** `os.makedirs(dirname(dst/p), exist_ok=True)` and `shutil.move` onto
      `dst/p` place the file at `p` and nothing else: `p` is neither a
      file nor a directory of `dst`, and no ancestor of `p` is a file of
      `dst`. */
  predicate Fits(dst: Tree, p: Path) {
    p !in dst.files && p !in dst.dirs && forall i | 0 < i < |p| :: p[..i] !in dst.files
  }

  /** The directories created for a set of moved paths. */
  function AncestorsOf(moved: set<Path>): (r: set<Path>)
    ensures forall p, i | p in moved && 0 < i < |p| :: p[..i] in r
    ensures forall a | a in r :: a != [] && exists p | p in moved :: Below(a, p)
  {
    set p, i | p in moved && 0 < i < |p| :: p[..i]
  }

  /** Moves the files `moved` of `src` to the same relative paths under
      `dst`, replacing any file already there; `src` keeps its directories. */
  function MoveAll(src: Tree, dst: Tree, moved: set<Path>): (r: (Tree, Tree))
    requires moved <= src.files.Keys
    ensures r.0.dirs == src.dirs
    ensures forall p :: p in r.0.files <==> p in src.files && p !in moved
    ensures forall p | p in r.0.files :: r.0.files[p] == src.files[p]
    ensures forall p :: p in r.1.files <==> p in dst.files || p in moved
    ensures forall p | p in moved :: r.1.files[p] == src.files[p]
    ensures forall p | p in dst.files && p !in moved :: r.1.files[p] == dst.files[p]
    ensures r.1.dirs == dst.dirs + AncestorsOf(moved)
  {
    var left := map p | p in src.files && p !in moved :: src.files[p];
    var arrived := map p | p in dst.files.Keys + moved :: if p in moved then src.files[p] else dst.files[p];
    (Tree(left, src.dirs), Tree(arrived, dst.dirs + AncestorsOf(moved)))
  }

  /** Moving files that fit keeps both trees well formed. */
  lemma MovePreservesWF(src: Tree, dst: Tree, moved: set<Path>)
    requires WF(src) && WF(dst) && moved <= src.files.Keys
    requires forall p | p in moved :: Fits(dst, p)
    ensures WF(MoveAll(src, dst, moved).0) && WF(MoveAll(src, dst, moved).1)
  {
    var (s1, d1) := MoveAll(src, dst, moved);
    forall p | p in d1.files
      ensures p != [] && p !in d1.dirs
    {
      forall q, i | q in moved && 0 < i < |q|
        ensures q[..i] != p
      {
        if p in moved {
          assert q[..i] in src.dirs;
        } else {
          assert Fits(dst, q);
        }
      }
      assert p !in AncestorsOf(moved);
    }
    forall p, i | p in d1.files && 0 < i < |p|
      ensures p[..i] in d1.dirs
    {
      if p !in moved {
        assert p[..i] in dst.dirs;
      }
    }
    forall d, i | d in d1.dirs && 0 < i < |d|
      ensures d[..i] in d1.dirs
    {
      if d !in dst.dirs {
        var q, j :| q in moved && 0 < j < |q| && d == q[..j];
        assert d[..i] == q[..i];
      }
    }
  }

  // ---------------------------------------------------------------------
  // filter_photos

  /** Files the walk processes and keeps. */
  function KeptFiles(t: Tree, faults: set<Path>): set<Path> {
    set p | p in t.files && p !in faults && Keep(t.files[p])
  }

  /** Files the walk processes and moves to the exclusion tree. */
  function ExcludedFiles(t: Tree, faults: set<Path>): set<Path> {
    set p | p in t.files && p !in faults && !Keep(t.files[p])
  }

  /** Every file the walk processes without error. */
  function Processed(t: Tree, faults: set<Path>): set<Path> {
    set p | p in t.files && p !in faults
  }

  /** The processed files split into kept and excluded ones. */
  lemma PartitionCounts(t: Tree, faults: set<Path>)
    ensures KeptFiles(t, faults) !! ExcludedFiles(t, faults)
    ensures |KeptFiles(t, faults)| + |ExcludedFiles(t, faults)| == |Processed(t, faults)|
  {
    assert KeptFiles(t, faults) + ExcludedFiles(t, faults) == Processed(t, faults);
  }

  /** The moves of the filter can succeed. */
  predicate FilterFits(target: Tree, excluded: Tree, faults: set<Path>) {
    forall p | p in ExcludedFiles(target, faults) :: Fits(excluded, p)
  }

  datatype FilterTally = FilterTally(kept: nat, excluded: nat, folders: nat)

  /** The filter on an existing target `t` and exclusion tree `e`: each
      processed file ends in exactly one of the two trees, at its own
      relative path and with its own record — kept in the target when it is
      in range, moved to the exclusion tree otherwise. The target's empty
      directories are removed bottom-up. */
  function FilterInto(t: Tree, e: Tree, faults: set<Path>, dirFaults: set<Path>): (r: (Tree, Tree, FilterTally))
    requires WF(t) && WF(e) && FilterFits(t, e, faults)
    ensures WF(r.0) && WF(r.1)
    ensures forall p :: p in r.0.files <==> p in t.files && (p in faults || Keep(t.files[p]))
    ensures forall p | p in r.0.files :: r.0.files[p] == t.files[p]
    ensures forall p :: p in r.1.files <==> p in e.files || p in ExcludedFiles(t, faults)
    ensures forall p | p in ExcludedFiles(t, faults) :: r.1.files[p] == t.files[p]
    ensures forall p | p in e.files && p !in ExcludedFiles(t, faults) :: r.1.files[p] == e.files[p]
    ensures r.1.dirs == e.dirs + AncestorsOf(ExcludedFiles(t, faults))
    ensures r.2.kept + r.2.excluded == |Processed(t, faults)|
    ensures r.2.excluded == |ExcludedFiles(t, faults)|
    ensures r.0.dirs <= t.dirs
    ensures forall d | d in t.dirs && (exists p | p in r.0.files :: Below(d, p)) :: d in r.0.dirs
    ensures r.2.folders == |t.dirs| - |r.0.dirs|
    ensures dirFaults == {} ==> forall d | d in r.0.dirs :: HasChild(r.0, d)
  {
    var x := ExcludedFiles(t, faults);
    var (t1, e1) := MoveAll(t, e, x);
    MovePreservesWF(t, e, x);
    var t2 := PruneEmpty(t1, dirFaults);
    PrunePreservesWF(t1, dirFaults);
    PruneLeavesNoEmptyDir(t1);
    SubsetCard(t2.dirs, t1.dirs);
    PartitionCounts(t, faults);
    (t2, e1, FilterTally(|KeptFiles(t, faults)|, |x|, |t1.dirs| - |t2.dirs|))
  }

  /** `filter_photos`. A missing target changes nothing. Otherwise the
      exclusion root exists afterwards (created if missing) and the
      target root is kept; the rest is `FilterInto`. */
  function FilterByDate(target: Option<Tree>, excluded: Option<Tree>, faults: set<Path>, dirFaults: set<Path>)
    : (r: (Option<Tree>, Option<Tree>, FilterTally))
    requires target.Some? ==> WF(target.value) && FilterFits(target.value, excluded.GetOr(EmptyTree), faults)
    requires excluded.Some? ==> WF(excluded.value)
    ensures target.None? ==> r == (None, excluded, FilterTally(0, 0, 0))
    ensures target.Some? ==> r.0.Some? && r.1.Some? && WF(r.0.value) && WF(r.1.value)
    ensures target.Some? ==> forall p ::
              p in r.0.value.files <==> p in target.value.files && (p in faults || Keep(target.value.files[p]))
    ensures target.Some? ==> forall p | p in r.0.value.files :: r.0.value.files[p] == target.value.files[p]
    ensures target.Some? ==> forall p ::
              p in r.1.value.files <==> p in excluded.GetOr(EmptyTree).files || p in ExcludedFiles(target.value, faults)
    ensures target.Some? ==> forall p | p in ExcludedFiles(target.value, faults) ::
              r.1.value.files[p] == target.value.files[p]
    ensures target.Some? ==> forall p | p in excluded.GetOr(EmptyTree).files && p !in ExcludedFiles(target.value, faults) ::
              r.1.value.files[p] == excluded.GetOr(EmptyTree).files[p]
    ensures target.Some? ==> r.1.value.dirs == excluded.GetOr(EmptyTree).dirs + AncestorsOf(ExcludedFiles(target.value, faults))
    ensures target.Some? ==> r.2.kept + r.2.excluded == |Processed(target.value, faults)|
    ensures target.Some? ==> r.2.excluded == |ExcludedFiles(target.value, faults)|
    ensures target.Some? ==> r.0.value.dirs <= target.value.dirs
    ensures target.Some? ==> forall d | d in target.value.dirs && (exists p | p in r.0.value.files :: Below(d, p)) ::
              d in r.0.value.dirs
    ensures target.Some? ==> r.2.folders == |target.value.dirs| - |r.0.value.dirs|
    ensures target.Some? && dirFaults == {} ==> forall d | d in r.0.value.dirs :: HasChild(r.0.value, d)
  {
    match target
    case None => (None, excluded, FilterTally(0, 0, 0))
    case Some(t) =>
      var (t1, e1, tally) := FilterInto(t, excluded.GetOr(EmptyTree), faults, dirFaults);
      (Some(t1), Some(e1), tally)
  }

  // ---------------------------------------------------------------------
  // revert_filter

  /** Files of the exclusion tree whose move back succeeds. */
  function RevertedFiles(e: Tree, faults: set<Path>): set<Path> {
    set p | p in e.files && p !in faults
  }

  /** The moves of the revert can succeed. */
  predicate RevertFits(target: Tree, excluded: Tree, faults: set<Path>) {
    forall p | p in RevertedFiles(excluded, faults) :: Fits(target, p)
  }

  datatype RevertTally = RevertTally(reverted: nat, folders: nat)

  /** The last step of the revert on what is left of the exclusion tree:
      its empty directories go bottom-up, then the root itself when it
      lists nothing (and its removal does not fail). The root survives
      whenever a file is left, and goes whenever nothing is left and no
      removal fails. */
  function PruneExclusion(e: Tree, dirFaults: set<Path>, rootFault: bool): (r: Option<Tree>)
    requires WF(e)
    ensures r.Some? ==> WF(r.value) && r.value.files == e.files && r.value.dirs <= e.dirs
    ensures r.Some? ==> forall d | d in e.dirs && (exists p | p in e.files :: Below(d, p)) :: d in r.value.dirs
    ensures r.None? ==> e.files == map[]
    ensures e.files == map[] && dirFaults == {} && !rootFault ==> r.None?
    ensures r.Some? && dirFaults == {} ==> forall d | d in r.value.dirs :: HasChild(r.value, d)
  {
    var e2 := PruneEmpty(e, dirFaults);
    PrunePreservesWF(e, dirFaults);
    PruneLeavesNoEmptyDir(e);
    RootEmpty(e2);
    NothingPinned(e);
    if !rootFault && !HasChild(e2, []) then None else Some(e2)
  }

  /** The revert of an existing exclusion tree `e` into the target `t`:
      every file whose move succeeds is back at its relative path with its
      record; the exclusion tree keeps only the files whose move failed, and
      it is gone when every move and every removal succeeds. */
  function RevertInto(t: Tree, e: Tree, faults: set<Path>, dirFaults: set<Path>, rootFault: bool)
    : (r: (Tree, Option<Tree>, RevertTally))
    requires WF(t) && WF(e) && RevertFits(t, e, faults)
    ensures WF(r.0)
    ensures forall p :: p in r.0.files <==> p in t.files || p in RevertedFiles(e, faults)
    ensures forall p | p in RevertedFiles(e, faults) :: r.0.files[p] == e.files[p]
    ensures forall p | p in t.files && p !in RevertedFiles(e, faults) :: r.0.files[p] == t.files[p]
    ensures r.0.dirs == t.dirs + AncestorsOf(RevertedFiles(e, faults))
    ensures r.2.reverted == |RevertedFiles(e, faults)|
    ensures r.1.Some? ==> WF(r.1.value) && r.1.value.dirs <= e.dirs
    ensures r.1.Some? ==> forall p :: p in r.1.value.files <==> p in e.files && p in faults
    ensures r.1.Some? && dirFaults == {} ==> forall d | d in r.1.value.dirs :: HasChild(r.1.value, d)
    ensures r.1.None? ==> e.files.Keys == RevertedFiles(e, faults)
    ensures dirFaults == {} && !rootFault && RevertedFiles(e, faults) == e.files.Keys ==> r.1.None?
    ensures r.2.folders == |e.dirs| - (if r.1.Some? then |r.1.value.dirs| else 0)
  {
    var moved := RevertedFiles(e, faults);
    var (e1, t1) := MoveAll(e, t, moved);
    MovePreservesWF(e, t, moved);
    assert e1.files.Keys == e.files.Keys - moved;
    var e2 := PruneEmpty(e1, dirFaults);
    SubsetCard(e2.dirs, e1.dirs);
    PrunePreservesWF(e1, dirFaults);
    RootEmpty(e2);
    var folders := |e1.dirs| - |e2.dirs|;
    (t1, PruneExclusion(e1, dirFaults, rootFault), RevertTally(|moved|, folders))
  }

  /** `revert_filter`. A missing exclusion root changes nothing. Otherwise
      the target root exists afterwards (created if missing when absent) and
      the rest is `RevertInto`. */
  function RevertFilter(target: Option<Tree>, excluded: Option<Tree>, faults: set<Path>, dirFaults: set<Path>, rootFault: bool)
    : (r: (Option<Tree>, Option<Tree>, RevertTally))
    requires target.Some? ==> WF(target.value)
    requires excluded.Some? ==> WF(excluded.value) && RevertFits(target.GetOr(EmptyTree), excluded.value, faults)
    ensures excluded.None? ==> r == (target, None, RevertTally(0, 0))
    ensures excluded.Some? ==> r.0.Some? && WF(r.0.value)
    ensures excluded.Some? ==> forall p ::
              p in r.0.value.files <==> p in target.GetOr(EmptyTree).files || p in RevertedFiles(excluded.value, faults)
    ensures excluded.Some? ==> forall p | p in RevertedFiles(excluded.value, faults) ::
              r.0.value.files[p] == excluded.value.files[p]
    ensures excluded.Some? ==> forall p | p in target.GetOr(EmptyTree).files && p !in RevertedFiles(excluded.value, faults) ::
              r.0.value.files[p] == target.GetOr(EmptyTree).files[p]
    ensures excluded.Some? ==> r.0.value.dirs == target.GetOr(EmptyTree).dirs + AncestorsOf(RevertedFiles(excluded.value, faults))
    ensures excluded.Some? ==> r.2.reverted == |RevertedFiles(excluded.value, faults)|
    ensures excluded.Some? ==> r.2.folders == |excluded.value.dirs| - (if r.1.Some? then |r.1.value.dirs| else 0)
    ensures excluded.Some? && r.1.Some? ==> WF(r.1.value) && r.1.value.dirs <= excluded.value.dirs
    ensures excluded.Some? && r.1.Some? ==> forall p ::
              p in r.1.value.files <==> p in excluded.value.files && p in faults
    ensures excluded.Some? && r.1.Some? && dirFaults == {} ==> forall d | d in r.1.value.dirs :: HasChild(r.1.value, d)
    ensures excluded.Some? && r.1.None? ==> excluded.value.files.Keys == RevertedFiles(excluded.value, faults)
    ensures excluded.Some? && dirFaults == {} && !rootFault ==>
              (RevertedFiles(excluded.value, faults) == excluded.value.files.Keys ==> r.1.None?)
  {
    match excluded
    case None => (target, None, RevertTally(0, 0))
    case Some(e) =>
      var (t1, rest, tally) := RevertInto(target.GetOr(EmptyTree), e, faults, dirFaults, rootFault);
      (Some(t1), rest, tally)
  }

  /** In a well-formed tree the root lists nothing exactly when the tree holds nothing. */
  lemma RootEmpty(t: Tree)
    requires WF(t)
    ensures !HasChild(t, []) <==> t.files == map[] && t.dirs == {}
  {
    if t.files != map[] {
      var p :| p in t.files;
      if |p| == 1 {
        assert IsChild([], p);
      } else {
        assert p[..1] in t.dirs && IsChild([], p[..1]);
      }
    }
    if t.dirs != {} {
      var d :| d in t.dirs;
      if |d| == 1 {
        assert IsChild([], d);
      } else {
        assert d[..1] in t.dirs && IsChild([], d[..1]);
      }
    }
  }

  /** Without files and failing removals nothing pins a directory. */
  lemma NothingPinned(t: Tree)
    ensures t.files == map[] ==> PruneEmpty(t, {}).dirs == {}
  {
  }

  // ---------------------------------------------------------------------
  // The round trip

  /** After a filter into an empty exclusion tree, whichever file moves
      fail, the exclusion tree holds exactly the excluded files and moving
      them all back fits the filtered target. */
  lemma FilterLeavesRoomBack(t: Tree, faults: set<Path>, dirFaults: set<Path>)
    requires WF(t)
    ensures FilterFits(t, EmptyTree, faults)
    ensures var (t1, e1, _) := FilterInto(t, EmptyTree, faults, dirFaults);
            && RevertedFiles(e1, {}) == ExcludedFiles(t, faults)
            && RevertFits(t1, e1, {})
  {
    var (t1, e1, _) := FilterInto(t, EmptyTree, faults, dirFaults);
    var x := ExcludedFiles(t, faults);
    assert RevertedFiles(e1, {}) == x;
    forall p | p in x
      ensures Fits(t1, p)
    {
      forall i | 0 < i < |p|
        ensures p[..i] !in t1.files
      {
        assert p[..i] in t.dirs;
      }
    }
  }

  /** Splitting a map into two parts by a key set and joining them again
      gives the map back. */
  lemma SplitJoin(all: map<Path, File>, kept: map<Path, File>, moved: map<Path, File>, joined: map<Path, File>, x: set<Path>)
    requires forall p :: p in kept <==> p in all && p !in x
    requires forall p | p in kept :: kept[p] == all[p]
    requires forall p :: p in moved <==> p in x
    requires forall p | p in x :: p in all && moved[p] == all[p]
    requires forall p :: p in joined <==> p in kept || p in moved
    requires forall p | p in moved :: joined[p] == moved[p]
    requires forall p | p in kept && p !in moved :: joined[p] == kept[p]
    ensures joined == all
  {
    assert joined.Keys == all.Keys;
  }

  /** Reverting a filtered tree puts back exactly its files. */
  lemma RestoresFiles(t: Tree, faults: set<Path>, dirFaults1: set<Path>, dirFaults2: set<Path>, rootFault: bool)
    requires WF(t)
    ensures FilterFits(t, EmptyTree, faults)
    ensures var (t1, e1, _) := FilterInto(t, EmptyTree, faults, dirFaults1);
            RevertFits(t1, e1, {}) && RevertInto(t1, e1, {}, dirFaults2, rootFault).0.files == t.files
  {
    FilterLeavesRoomBack(t, faults, dirFaults1);
    var (t1, e1, _) := FilterInto(t, EmptyTree, faults, dirFaults1);
    var x := ExcludedFiles(t, faults);
    var t2 := RevertInto(t1, e1, {}, dirFaults2, rootFault).0;
    SplitJoin(t.files, t1.files, e1.files, t2.files, x);
  }

  /** Reverting a filtered tree brings back no directory that was not
      there and every directory that holds a file. */
  lemma RestoresDirs(t: Tree, faults: set<Path>, dirFaults1: set<Path>, dirFaults2: set<Path>, rootFault: bool)
    requires WF(t)
    ensures FilterFits(t, EmptyTree, faults)
    ensures var (t1, e1, _) := FilterInto(t, EmptyTree, faults, dirFaults1);
            && RevertFits(t1, e1, {})
            && var t2 := RevertInto(t1, e1, {}, dirFaults2, rootFault).0;
               && t2.dirs <= t.dirs
               && forall d | d in t.dirs && (exists p | p in t.files :: Below(d, p)) :: d in t2.dirs
  {
    FilterLeavesRoomBack(t, faults, dirFaults1);
    var (t1, e1, _) := FilterInto(t, EmptyTree, faults, dirFaults1);
    var x := ExcludedFiles(t, faults);
    var t2 := RevertInto(t1, e1, {}, dirFaults2, rootFault).0;
    assert t2.dirs == t1.dirs + AncestorsOf(x);
    forall d | d in AncestorsOf(x)
      ensures d in t.dirs
    {
      var q, j :| q in x && 0 < j < |q| && d == q[..j];
    }
    forall d | d in t.dirs && (exists p | p in t.files :: Below(d, p))
      ensures d in t2.dirs
    {
      var p :| p in t.files && Below(d, p);
      if p in x {
        assert d == p[..|d|];
      } else {
        assert p in t1.files;
      }
    }
  }

  /** Reverting a filtered tree empties the exclusion tree, which is then
      removed when no directory removal fails. */
  lemma ExclusionDrained(t: Tree, faults: set<Path>, dirFaults1: set<Path>, dirFaults2: set<Path>, rootFault: bool)
    requires WF(t)
    ensures FilterFits(t, EmptyTree, faults)
    ensures var (t1, e1, _) := FilterInto(t, EmptyTree, faults, dirFaults1);
            && RevertFits(t1, e1, {})
            && (dirFaults2 == {} && !rootFault ==> RevertInto(t1, e1, {}, dirFaults2, rootFault).1.None?)
  {
    FilterLeavesRoomBack(t, faults, dirFaults1);
    var (t1, e1, _) := FilterInto(t, EmptyTree, faults, dirFaults1);
    assert RevertedFiles(e1, {}) == e1.files.Keys;
  }

  /** Filtering and then reverting, with an exclusion root that starts
      absent or empty and no failing file move in the revert (the filter's
      moves may fail), gives the target back the
      very same relative-path-to-record map. Directories come back only
      where a file needs them: none appears that was not there (an empty
      directory removed by the filter stays removed). With no failing
      directory removal in the revert the exclusion root is gone. */
  lemma RoundTrip(t: Tree, e0: Option<Tree>, faults: set<Path>, dirFaults1: set<Path>, dirFaults2: set<Path>)
    requires WF(t)
    requires e0.None? || e0 == Some(EmptyTree)
    ensures var (t1, e1, _) := FilterByDate(Some(t), e0, faults, dirFaults1);
            && t1.Some? && e1.Some? && RevertFits(t1.value, e1.value, {})
            && var (t2, e2, _) := RevertFilter(t1, e1, {}, dirFaults2, false);
               && t2.Some? && t2.value.files == t.files && t2.value.dirs <= t.dirs
               && (dirFaults2 == {} ==> e2.None?)
  {
    assert e0.GetOr(EmptyTree) == EmptyTree;
    RestoresFiles(t, faults, dirFaults1, dirFaults2, false);
    RestoresDirs(t, faults, dirFaults1, dirFaults2, false);
    ExclusionDrained(t, faults, dirFaults1, dirFaults2, false);
  }
}
