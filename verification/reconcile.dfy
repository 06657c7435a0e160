/** The timestamp stage (`3_update_metadata.py`): every non-JSON file looks
    up its JSON sidecar, the sidecar's three optional epoch timestamps go
    through a fallback chain, and the result is written into the file's
    three OS timestamp slots as FILETIME values. JSON decoding is a
    parameter (`decode`, from a file's content to its parsed timestamps, or
    `None` when it cannot be read or parsed); the Windows handle and
    `SetFileTime` failures are per-file fault sets. */
module Reconcile {
  import opened Basics
  import opened FileTree
  import opened FileTime

  const SupplementalSuffix: string := ".supplemental-metadata.json"

  // ---------------------------------------------------------------------
  // find_json_file

  /** `glob.glob(glob.escape(base) + ".*.json")` matches `n` in the same
      directory: the base name, a dot, any middle part, `.json`. */
  predicate GlobMatch(base: Name, n: Name) {
    |n| >= |base| + 1 + |JsonSuffix| && StartsWith(n, base + ".") && EndsWith(n, JsonSuffix)
  }

  /** `listing[k]` is an existing glob match and no earlier listed name is one. */
  predicate FirstMatchAt(entries: set<Name>, listing: seq<Name>, base: Name, k: int) {
    && 0 <= k < |listing|
    && listing[k] in entries && GlobMatch(base, listing[k])
    && forall i :: 0 <= i < k ==> !(listing[i] in entries && GlobMatch(base, listing[i]))
  }

  /** The first glob match in directory-listing order (`matches[0]`);
      `entries` are the names that exist in the directory. */
  function FirstGlobMatch(entries: set<Name>, listing: seq<Name>, base: Name): (r: Option<Name>)
    ensures r.Some? ==> exists k :: FirstMatchAt(entries, listing, base, k) && listing[k] == r.value
    ensures r.None? <==> forall i :: 0 <= i < |listing| ==> !(listing[i] in entries && GlobMatch(base, listing[i]))
  {
    if listing == [] then None
    else if listing[0] in entries && GlobMatch(base, listing[0]) then Some(listing[0])
    else
      var r := FirstGlobMatch(entries, listing[1..], base);
      assert r.Some? ==> exists k :: FirstMatchAt(entries, listing, base, k) && listing[k] == r.value by {
        if r.Some? {
          var k :| FirstMatchAt(entries, listing[1..], base, k) && listing[1..][k] == r.value;
          assert listing[k + 1] == r.value;
          forall i | 0 <= i < k + 1 ensures !(listing[i] in entries && GlobMatch(base, listing[i])) {
            if i > 0 { assert listing[i] == listing[1..][i - 1]; }
          }
          assert FirstMatchAt(entries, listing, base, k + 1);
        }
      }
      assert r.None? <==> forall i :: 0 <= i < |listing| ==> !(listing[i] in entries && GlobMatch(base, listing[i])) by {
        assert forall i :: 0 < i < |listing| ==> listing[i] == listing[1..][i - 1];
      }
      r
  }

  /** The supplemental name is itself a glob match. */
  lemma SupplementalIsGlobMatch(base: Name)
    ensures GlobMatch(base, base + SupplementalSuffix)
  {
    var n := base + SupplementalSuffix;
    assert n[..|base + "."|] == base + ".";
    assert n[|n| - |JsonSuffix|..] == JsonSuffix;
  }

  /** `find_json_file` for a file named `base` in a directory whose
      existing names are `entries`, listed in OS order as `listing`:
      `base.json` if it exists, then `base.supplemental-metadata.json`,
      then the first listed existing `base.*.json`, else none. A result is
      an existing name that starts with the file's name and ends in
      `.json`. */
  function FindSidecar(entries: set<Name>, listing: seq<Name>, base: Name): (r: Option<Name>)
    ensures base + JsonSuffix in entries ==> r == Some(base + JsonSuffix)
    ensures base + JsonSuffix !in entries && base + SupplementalSuffix in entries ==>
              r == Some(base + SupplementalSuffix)
    ensures base + JsonSuffix !in entries && base + SupplementalSuffix !in entries ==>
              r == FirstGlobMatch(entries, listing, base)
    ensures r.Some? ==> r.value in entries && StartsWith(r.value, base) && EndsWith(r.value, JsonSuffix)
    ensures r.None? <==> && base + JsonSuffix !in entries && base + SupplementalSuffix !in entries
                         && forall i :: 0 <= i < |listing| ==> !(listing[i] in entries && GlobMatch(base, listing[i]))
  {
    if base + JsonSuffix in entries then
      var n := base + JsonSuffix;
      assert n[..|base|] == base && n[|n| - |JsonSuffix|..] == JsonSuffix;
      Some(n)
    else if base + SupplementalSuffix in entries then
      var n := base + SupplementalSuffix;
      assert n[..|base|] == base && n[|n| - |JsonSuffix|..] == JsonSuffix;
      Some(n)
    else
      var r := FirstGlobMatch(entries, listing, base);
      assert r.Some? ==> StartsWith(r.value, base) by {
        if r.Some? {
          assert r.value[..|base|] == r.value[..|base + "."|][..|base|];
        }
      }
      r
  }

  /** A listing that names every entry finds a sidecar whenever one of the
      three accepted forms exists. */
  lemma CompleteListingFinds(entries: set<Name>, listing: seq<Name>, base: Name, n: Name)
    requires forall e | e in entries :: e in listing
    requires n in entries && (n == base + JsonSuffix || GlobMatch(base, n))
    ensures FindSidecar(entries, listing, base).Some?
  {
    var k :| 0 <= k < |listing| && listing[k] == n;
  }

  // ---------------------------------------------------------------------
  // The fallback chain and the slot mapping of update_file_timestamp

  /** The three timestamps of a sidecar, in whole Unix seconds, as parsed
      (`None` when the field or its `timestamp` key is missing). */
  datatype Sidecar = Sidecar(creation: Option<int>, modification: Option<int>, taken: Option<int>)

  /** Python truthiness of a parsed timestamp: missing and zero are both false. */
  predicate Truthy(ts: Option<int>) {
    ts.Some? && ts.value != 0
  }

  /** The fallback chain: a false creation takes the taken time, a false
      modification takes the resolved creation, a false taken time takes
      the resolved creation. */
  function Resolve(s: Sidecar): (r: Sidecar)
    ensures Truthy(s.creation) ==> r.creation == s.creation
    ensures Truthy(s.modification) ==> r.modification == s.modification
    ensures Truthy(s.taken) ==> r.taken == s.taken
    ensures !Truthy(s.creation) && Truthy(s.taken) ==> r.creation == s.taken
    ensures !Truthy(s.modification) && Truthy(s.creation) ==> r.modification == s.creation
    ensures !Truthy(s.modification) && !Truthy(s.creation) && Truthy(s.taken) ==> r.modification == s.taken
    ensures !Truthy(s.taken) && Truthy(s.creation) ==> r.taken == s.creation
    ensures Truthy(s.creation) || Truthy(s.taken) ==>
              Truthy(r.creation) && Truthy(r.modification) && Truthy(r.taken)
    ensures !Truthy(s.creation) && !Truthy(s.taken) ==>
              !Truthy(r.creation) && !Truthy(r.taken) && (Truthy(r.modification) <==> Truthy(s.modification))
  {
    var c := if Truthy(s.creation) then s.creation else s.taken;
    var m := if Truthy(s.modification) then s.modification else c;
    var t := if Truthy(s.taken) then s.taken else c;
    Sidecar(c, m, t)
  }

  /** `to_ft`: the FILETIME a timestamp is written as, or none (slot left
      unchanged) when it is false. The slot receives the 64-bit value the
      two DWORDs hold. */
  function ToFileTime(ts: Option<int>): (r: Option<int>)
    ensures r.Some? <==> Truthy(ts)
    ensures r.Some? ==> 0 <= r.value < Word * Word
    ensures r.Some? && 0 <= ToTicks(ts.value) < Word * Word ==> r.value == ToTicks(ts.value)
  {
    if Truthy(ts) then
      var ft := SplitTicks(ToTicks(ts.value));
      CombineSplit(ToTicks(ts.value));
      Some(Combine(ft))
    else None
  }

  /** A written slot reads back as the very second it was written from,
      whenever the tick count fits the 64 bits of a FILETIME. */
  lemma SlotReadsBack(ts: int)
    requires ts != 0 && 0 <= ToTicks(ts) < Word * Word
    ensures ToFileTime(Some(ts)).Some? && TicksToSeconds(ToFileTime(Some(ts)).value) == ts
  {
    TicksRoundTrip(ts);
  }

  /** The values handed to `SetFileTime` for the creation, last-access and
      last-write slots; `None` leaves a slot unchanged. */
  datatype SlotWrite = SlotWrite(creation: Option<int>, access: Option<int>, write: Option<int>)

  /** What `update_file_timestamp` asks the OS to write: nothing at all when
      no timestamp is true; otherwise creation to the creation slot, taken to
      the last-access slot and modification to the last-write slot, after
      the fallback chain. */
  function Plan(s: Sidecar): (r: Option<SlotWrite>)
    ensures r.None? <==> !Truthy(s.creation) && !Truthy(s.modification) && !Truthy(s.taken)
    ensures r.Some? ==>
              && r.value.creation == ToFileTime(Resolve(s).creation)
              && r.value.access == ToFileTime(Resolve(s).taken)
              && r.value.write == ToFileTime(Resolve(s).modification)
    ensures Truthy(s.creation) || Truthy(s.taken) ==>
              r.Some? && r.value.creation.Some? && r.value.access.Some? && r.value.write.Some?
    ensures !Truthy(s.creation) && !Truthy(s.taken) && Truthy(s.modification) ==>
              r == Some(SlotWrite(None, None, ToFileTime(s.modification)))
  {
    var res := Resolve(s);
    if Truthy(res.creation) || Truthy(res.modification) || Truthy(res.taken) then
      Some(SlotWrite(ToFileTime(res.creation), ToFileTime(res.taken), ToFileTime(res.modification)))
    else None
  }

  /** A sidecar holding only a photo-taken time fills all three slots with it. */
  lemma OnlyTakenFillsAllSlots(ts: int)
    requires ts != 0
    ensures Plan(Sidecar(None, None, Some(ts))) ==
            Some(SlotWrite(ToFileTime(Some(ts)), ToFileTime(Some(ts)), ToFileTime(Some(ts))))
  {
  }

  /** `SetFileTime`: each given slot is overwritten, the others kept. */
  function Apply(f: File, w: SlotWrite): (r: File)
    ensures r.size == f.size && r.content == f.content
    ensures r.created == w.creation.GetOr(f.created)
    ensures r.accessed == w.access.GetOr(f.accessed)
    ensures r.written == w.write.GetOr(f.written)
  {
    f.(created := w.creation.GetOr(f.created),
       accessed := w.access.GetOr(f.accessed),
       written := w.write.GetOr(f.written))
  }

  // ---------------------------------------------------------------------
  // main

  datatype FileResult = SkippedJson | NoSidecar | Updated | NotUpdated

  /** The OS failures one file meets: `CreateFileW` returning an invalid
      handle, or `SetFileTime` failing (its result is not checked). */
  datatype WinFault = WinFault(openFails: bool, setFails: bool)

  /** The sidecar `find_json_file` picks for the file at `p`, listing its
      directory with `scan`. */
  function SidecarOf(t: Tree, scan: Path -> seq<Name>, p: Path): Option<Name>
    requires p != []
  {
    FindSidecar(Entries(t, Parent(p)), scan(Parent(p)), Base(p))
  }

  /** The timestamps `update_file_timestamp` reads for the file at `p`:
      the decoded content of its sidecar, when the sidecar is a file. */
  function SidecarData(t: Tree, scan: Path -> seq<Name>, decode: nat -> Option<Sidecar>, p: Path): Option<Sidecar>
    requires p != []
  {
    match SidecarOf(t, scan, p)
    case None => None
    case Some(sc) =>
      var sp := Parent(p) + [sc];
      if sp in t.files then decode(t.files[sp].content) else None
  }

  /** One file of the walk: JSON names are skipped; a file without sidecar
      is counted as missing; otherwise `update_file_timestamp` runs and
      reports whether it updated. A sidecar that cannot be read as a file
      (a directory, or content `decode` rejects) means no update. Only the
      timestamp slots ever change. */
  function ReconcileFile(t: Tree, p: Path, scan: Path -> seq<Name>, decode: nat -> Option<Sidecar>, fault: WinFault): (r: (File, FileResult))
    requires p in t.files && p != []
    ensures r.0.size == t.files[p].size && r.0.content == t.files[p].content
    ensures r.1 == SkippedJson <==> IsJsonName(Base(p))
    ensures r.1 == NoSidecar <==> !IsJsonName(Base(p)) && SidecarOf(t, scan, p).None?
    ensures r.1 != Updated ==> r.0 == t.files[p]
    ensures r.1 == Updated ==> !fault.openFails && SidecarOf(t, scan, p).Some?
    ensures r.1 == Updated <==>
              && !IsJsonName(Base(p)) && SidecarData(t, scan, decode, p).Some?
              && Plan(SidecarData(t, scan, decode, p).value).Some? && !fault.openFails
    ensures r.1 == Updated && !fault.setFails ==>
              r.0 == Apply(t.files[p], Plan(SidecarData(t, scan, decode, p).value).value)
  {
    var f := t.files[p];
    if IsJsonName(Base(p)) then (f, SkippedJson)
    else if SidecarOf(t, scan, p).None? then (f, NoSidecar)
    else match SidecarData(t, scan, decode, p)
      case None => (f, NotUpdated)
      case Some(s) =>
        match Plan(s)
        case None => (f, NotUpdated)
        case Some(w) =>
          if fault.openFails then (f, NotUpdated)
          else if fault.setFails then (f, Updated)
          else (Apply(f, w), Updated)
  }

  /** A file whose sidecar holds only a photo-taken time, and whose
      Windows calls succeed, is updated, and all three of its timestamps
      read back as that very second, whenever its tick count fits the 64
      bits of a FILETIME. */
  lemma OnlyTakenReadsBack(t: Tree, p: Path, scan: Path -> seq<Name>, decode: nat -> Option<Sidecar>,
                           fault: WinFault, ts: int)
    requires p in t.files && p != [] && !IsJsonName(Base(p))
    requires SidecarData(t, scan, decode, p) == Some(Sidecar(None, None, Some(ts)))
    requires ts != 0 && 0 <= ToTicks(ts) < Word * Word
    ensures var (f, res) := ReconcileFile(t, p, scan, decode, fault);
            && (res == Updated <==> !fault.openFails)
            && (res == Updated && !fault.setFails ==>
                  && TicksToSeconds(f.created) == ts
                  && TicksToSeconds(f.accessed) == ts
                  && TicksToSeconds(f.written) == ts)
  {
    OnlyTakenFillsAllSlots(ts);
    SlotReadsBack(ts);
  }

  datatype Tally = Tally(processed: nat, updated: nat, missingJson: nat)

  /** The environment of one run: directory listings, JSON decoding, and
      the Windows-call failures per file. */
  datatype Env = Env(scan: Path -> seq<Name>, decode: nat -> Option<Sidecar>, faults: Path -> WinFault)

  function ResultOf(t: Tree, env: Env, p: Path): FileResult
    requires p in t.files && p != []
  {
    ReconcileFile(t, p, env.scan, env.decode, env.faults(p)).1
  }

  /** The non-JSON files of the tree, the ones `main` processes. */
  function Media(t: Tree): set<Path>
    requires WF(t)
  {
    set p | p in t.files && !IsJsonName(Base(p))
  }

  /** Processed files whose sidecar lookup finds nothing. */
  function Missing(t: Tree, scan: Path -> seq<Name>): set<Path>
    requires WF(t)
  {
    set p | p in Media(t) && SidecarOf(t, scan, p).None?
  }

  /** Processed files with a sidecar. */
  function Found(t: Tree, scan: Path -> seq<Name>): set<Path>
    requires WF(t)
  {
    set p | p in Media(t) && SidecarOf(t, scan, p).Some?
  }

  /** Files reported as updated. */
  function UpdatedFiles(t: Tree, env: Env): set<Path>
    requires WF(t)
  {
    set p | p in t.files && ResultOf(t, env, p) == Updated
  }

  /** The counter bookkeeping of `main`: the processed files split into
      those missing a sidecar and those with one, and only the latter can
      count as updated. */
  lemma CountsSplit(t: Tree, env: Env)
    requires WF(t)
    ensures |Missing(t, env.scan)| + |Found(t, env.scan)| == |Media(t)|
    ensures |UpdatedFiles(t, env)| <= |Found(t, env.scan)|
  {
    assert Missing(t, env.scan) + Found(t, env.scan) == Media(t);
    assert Missing(t, env.scan) !! Found(t, env.scan);
    assert UpdatedFiles(t, env) <= Found(t, env.scan);
    SubsetCard(UpdatedFiles(t, env), Found(t, env.scan));
  }

  /** `main` of the timestamp stage: every file is reconciled (the walk
      order does not matter, as only timestamps change). Counts: every
      non-JSON file is processed, and is either missing its sidecar or has
      one; only files with one can be updated. */
  function UpdateMetadata(target: Option<Tree>, env: Env): (r: (Option<Tree>, Tally))
    requires target.Some? ==> WF(target.value)
    ensures target.None? ==> r == (None, Tally(0, 0, 0))
    ensures target.Some? ==> r.0.Some? && r.0.value.dirs == target.value.dirs
    ensures target.Some? ==> r.0.value.files.Keys == target.value.files.Keys
    ensures target.Some? ==> forall p | p in target.value.files ::
              && r.0.value.files[p].size == target.value.files[p].size
              && r.0.value.files[p].content == target.value.files[p].content
    ensures target.Some? ==> forall p | p in target.value.files && r.0.value.files[p] != target.value.files[p] ::
              && p in Media(target.value)
              && SidecarOf(target.value, env.scan, p).Some?
              && !env.faults(p).openFails
    ensures target.Some? ==> forall p | p in target.value.files ::
              r.0.value.files[p] == ReconcileFile(target.value, p, env.scan, env.decode, env.faults(p)).0
    ensures target.Some? ==> r.1.processed == |Media(target.value)|
    ensures target.Some? ==> r.1.updated == |UpdatedFiles(target.value, env)|
    ensures target.Some? ==> r.1.missingJson == |Missing(target.value, env.scan)|
    ensures target.Some? ==> r.1.processed - r.1.missingJson == |Found(target.value, env.scan)|
    ensures r.1.updated + r.1.missingJson <= r.1.processed
  {
    match target
    case None => (None, Tally(0, 0, 0))
    case Some(t) =>
      var files := map p | p in t.files :: ReconcileFile(t, p, env.scan, env.decode, env.faults(p)).0;
      CountsSplit(t, env);
      (Some(t.(files := files)), Tally(|Media(t)|, |UpdatedFiles(t, env)|, |Missing(t, env.scan)|))
  }
}
