/** The final sweep (`4_final_cleanup.py`): delete every sidecar (`.json`)
    and every motion-photo fragment (`.mp`), ignoring case, then remove the
    directories left empty, bottom-up. Failing deletions and failing
    directory removals are per-item fault sets. */
module Sweep {
  import opened Basics
  import opened FileTree

  /** The lowercased name ends with `.mp`. */
  predicate IsMp(name: Name) {
    EndsWith(Lower(name), ".mp")
  }

  /** The files the sweep deletes. */
  predicate Deletable(name: Name) {
    IsJsonName(name) || IsMp(name)
  }

  /** Ordinary media survive: a name ending in `.mp4` or `.jpg` (in any
      case) ends in neither `.json` nor `.mp`. */
  lemma MediaSurvives(name: Name)
    requires EndsWith(Lower(name), ".mp4") || EndsWith(Lower(name), ".jpg")
    ensures !Deletable(name)
  {
    var l := Lower(name);
    EndsWithLast(l, ".mp4");
    EndsWithLast(l, ".jpg");
    EndsWithLast(l, ".json");
    EndsWithLast(l, ".mp");
  }

  /** Sidecars deleted (the `.json` test comes first). */
  function JsonDeleted(t: Tree, removeFails: set<Path>): set<Path> {
    set p | p in t.files && p != [] && IsJsonName(Base(p)) && p !in removeFails
  }

  /** Motion-photo fragments deleted. */
  function MpDeleted(t: Tree, removeFails: set<Path>): set<Path> {
    set p | p in t.files && p != [] && !IsJsonName(Base(p)) && IsMp(Base(p)) && p !in removeFails
  }

  /** The first walk: each deletable file is removed unless its removal
      fails; every other file keeps its path and record. The two counters
      together count exactly the files that are gone. */
  function DeleteSuffixed(t: Tree, removeFails: set<Path>): (r: (Tree, nat, nat))
    requires WF(t)
    ensures forall p :: p in r.0.files <==> p in t.files && (!Deletable(Base(p)) || p in removeFails)
    ensures forall p | p in r.0.files :: r.0.files[p] == t.files[p]
    ensures r.0.dirs == t.dirs
    ensures r.1 == |JsonDeleted(t, removeFails)| && r.2 == |MpDeleted(t, removeFails)|
    ensures r.1 + r.2 == |t.files| - |r.0.files|
    ensures WF(r.0)
  {
    var gone := JsonDeleted(t, removeFails) + MpDeleted(t, removeFails);
    var files := map p | p in t.files && p !in gone :: t.files[p];
    assert files.Keys == t.files.Keys - gone;
    assert gone <= t.files.Keys;
    CardDifference(t.files.Keys, gone);
    (Tree(files, t.dirs), |JsonDeleted(t, removeFails)|, |MpDeleted(t, removeFails)|)
  }

  datatype Tally = Tally(json: nat, mp: nat, folders: nat)

  /** `final_cleanup`: a missing target means nothing happens. Otherwise
      the deletable files go, then the directories are visited in the
      bottom-up `order` and each one that is empty when reached is removed
      (unless its removal fails). Directories that still hold a file are
      never removed, the target root itself is never a candidate, and with
      no failing removals no empty directory remains. */
  method FinalCleanup(target: Option<Tree>, removeFails: set<Path>, order: seq<Path>, dirFaults: set<Path>)
    returns (r: Option<Tree>, tally: Tally)
    requires target.Some? ==> WF(target.value) && BottomUpOrder(target.value, order)
    ensures target.None? ==> r.None? && tally == Tally(0, 0, 0)
    ensures target.Some? ==> r.Some? && WF(r.value)
    ensures target.Some? ==> forall p :: p in r.value.files <==>
              p in target.value.files && (!Deletable(Base(p)) || p in removeFails)
    ensures target.Some? ==> forall p | p in r.value.files :: r.value.files[p] == target.value.files[p]
    ensures target.Some? ==> tally.json == |JsonDeleted(target.value, removeFails)|
    ensures target.Some? ==> tally.mp == |MpDeleted(target.value, removeFails)|
    ensures target.Some? ==> tally.json + tally.mp == |target.value.files| - |r.value.files|
    ensures target.Some? ==> tally.folders == |target.value.dirs| - |r.value.dirs|
    ensures target.Some? ==> r.value.dirs <= target.value.dirs
    ensures target.Some? ==> forall d | d in target.value.dirs && (exists p | p in r.value.files :: Below(d, p)) ::
              d in r.value.dirs
    ensures target.Some? && dirFaults == {} ==> forall d | d in r.value.dirs :: HasChild(r.value, d)
  {
    if target.None? {
      return None, Tally(0, 0, 0);
    }
    var t := target.value;
    var (t1, json, mp) := DeleteSuffixed(t, removeFails);
    assert BottomUpOrder(t1, order);
    var t2, folders := PruneBottomUp(t1, order, dirFaults);
    PrunePreservesWF(t1, dirFaults);
    if dirFaults == {} {
      PruneLeavesNoEmptyDir(t1);
    }
    r := Some(t2);
    tally := Tally(json, mp, folders);
  }
}
