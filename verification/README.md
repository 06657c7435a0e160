# Photo-export pipeline, modelled in Dafny

The pipeline turns several Google Takeout exports into one clean photo
tree. It runs six numbered stages, and each one rewrites a directory tree
on disk:

1. **Merge** (`1_organize_photos.py`). Every file of every album of every
   `takeout-*` archive moves into the album of the same name under the
   unified root.
   - The photos root of an archive is `Takeout/Google Photos`. When that
     does not exist, it is the first child of `Takeout` whose name
     contains both `Google` and `Photos`.
   - A name collision with a file of equal size is a duplicate: the file is
     skipped.
   - A collision with a different size moves the file under the first free
     `stem_k.ext`.
2. **Override** (`2_cleanup_modified.py`). A file whose stem ends in
   `-modifié` takes the name without the marker. It replaces the original
   when there is one, otherwise it is just renamed.
3. **Timestamps** (`3_update_metadata.py`). Every non-JSON file looks up
   its JSON sidecar in a fixed order. The sidecar's creation, modification
   and photo-taken times go through a fallback chain, then become FILETIME
   ticks written to the creation, last-write and last-access slots.
4. **Sweep** (`4_final_cleanup.py`). Deletes `.json` and `.mp` files
   (ignoring case), then removes empty directories bottom-up.
5. **Date filter** (`5_filter_by_date.py`). Moves every file none of whose
   three timestamps lies in [2013-08-18 00:00:00, 2020-12-25 23:59:59] to
   an exclusion tree, at the same relative path. Then it removes the
   target directories left empty.
6. **Revert** (`6_revert_filter.py`). Moves everything back, removes the
   exclusion directories left empty, then removes the exclusion root if it
   is empty.

## How the model is built

- A directory tree is an immutable value, `FileTree.Tree`:
  - `files` maps a relative path (a sequence of names) to a file record:
    size, content id, and the creation, last-access and last-write slots
    in FILETIME ticks;
  - `dirs` is the set of directories;
  - the stage root is implicit. A root that may be missing is an
    `Option<Tree>`.
- Each stage is a pure function (one is a method) from trees to trees plus
  its counter record.
- Orders the OS chooses are parameters:
  - the `os.listdir`/`os.scandir` listing of each directory (`scan`);
  - the file listing of the `os.walk` in stage 2 (`visits`);
  - the bottom-up directory order (`order`).
- Per-item OS failures are fault sets or flags given as parameters.
- JSON decoding is a parameter, `decode`, from a file's content to its
  parsed timestamps.
- The modules follow the scripts:
  - `Basics` (string helpers, `os.path.splitext`);
  - `FileTree` (the tree and the shared bottom-up pruning);
  - `FileTime` (seconds to ticks and the DWORD split);
  - `Merger`, `Override`, `Reconcile`, `Sweep`, `Partition` (stages 1–6).

The bottom-up pruning is stated twice:
- declaratively, by `FileTree.PruneEmpty`: a directory survives iff a file
  lies below it, or a directory at or below it fails to be removed;
- operationally, by the loop `FileTree.PruneBottomUp` over any
  descendants-first order.

The two are proved equal. Stages 4, 5 and 6 all use that one definition.

## Model

| member | source | states |
|---|---|---|
| Basics.SplitExt | 2_cleanup_modified.py:31 | stem + extension give back the name; the extension is empty iff no dot follows a non-dot character, otherwise it starts at the last dot and holds no other dot |
| Basics.DecimalRoundTrip | 1_organize_photos.py:29 | the decimal rendering of the counter reads back as the counter |
| Basics.NatToStringInjective | 1_organize_photos.py:29 | different counters render as different strings |
| Merger.CandidateInjective | 1_organize_photos.py:29 | different counters give different candidate names |
| Merger.CandidateKeepsExtension | 1_organize_photos.py:24-29 | a candidate `stem_k.ext` splits again into stem `stem_k` and the original extension |
| Merger.CandidatesBound | 1_organize_photos.py:28-30 | a directory with n entries holds at most n of the candidates, which is why the search ends |
| Merger.FirstFree | 1_organize_photos.py:28-30 | the counter found is free and every smaller counter from 1 is taken |
| Merger.UniqueFilename | 1_organize_photos.py:19-32 | the result is never an existing entry; a free name is returned unchanged; otherwise it is `stem_k.ext` with the smallest free k >= 1 |
| Merger.Identical | 1_organize_photos.py:34-44 | true exactly when both paths are files of equal size, false when either size cannot be read |
| Merger.MergeFile | 1_organize_photos.py:103-121 | each file gets exactly one outcome: moved when the name is free, skipped with both trees unchanged when an equal-size file holds it, otherwise moved under the unique name; whatever moves lands on a name that was free |
| Merger.MergeFiles | 1_organize_photos.py:98-121 | moved + skipped equals the files visited and renamed <= moved; destination files are never overwritten or removed; source files only disappear |
| Merger.MergeFilesSizes | 1_organize_photos.py:114-121 | every move adds exactly one destination file and removes one source file |
| Merger.MergeFilesLandInAlbum | 1_organize_photos.py:103-120 | every new destination file sits directly in the album of its source album's name |
| Merger.MergeFilesLeaveOthers | 1_organize_photos.py:98-100 | source files the walk does not visit stay in place |
| Merger.MergeFilesTwins | 1_organize_photos.py:105-109 | every file left in the source album has an equal-size file under its own name in the destination album |
| Merger.AllTwinsSkipped | 1_organize_photos.py:105-109 | when every file already has an equal-size twin, nothing moves and every file counts as skipped |
| Merger.MergeAgainMovesNothing | 1_organize_photos.py:98-121 | merging what the first pass left behind moves nothing: the merge is idempotent |
| Merger.FilesIn | 1_organize_photos.py:98-100 | the names visited are exactly the listed entries that are regular files, without repeats |
| Merger.MergeAlbum | 1_organize_photos.py:90-121 | the album directory exists afterwards unless a file holds its name; moved + skipped equals the album's visited files; destination files grow exactly by the moved ones; source files outside the album stay |
| Merger.VisitedSame | 1_organize_photos.py:88-100 | merging one album leaves the files visited in every other album as they were |
| Merger.MergeAlbums | 1_organize_photos.py:88-121 | defined whenever no album holding a regular file shares its name with a destination file; over all albums, new files lie in a listed album and file counts change by the moves; with distinct album names, moved + skipped equals the files visited in all albums |
| Merger.FirstLooksLikePhotos | 1_organize_photos.py:74-80 | the first listed child containing both `Google` and `Photos`, none iff there is no such child |
| Merger.Present | 1_organize_photos.py:74-77 | the listed names kept are exactly those that are entries of the directory |
| Merger.FindPhotosRoot | 1_organize_photos.py:63-83 | no root without `Takeout`; the exact `Google Photos` entry first; else the first listed existing entry that loosely matches; else the archive is skipped; whatever is found exists |
| Merger.MergeArchive | 1_organize_photos.py:59-121 | an archive without a photos root is left alone; otherwise its files are conserved between it and the destination, and moved + skipped equals the files visited in its albums |
| Merger.OrganizePhotos | 1_organize_photos.py:46-121 | across all archives renamed <= moved, moved + skipped equals the files visited, no destination file is replaced, and files left in archives plus destination files equal the files there were |
| Override.Unmarked | 2_cleanup_modified.py:31-34 | the name is exactly the unmarked name with the marker inserted before the same extension |
| Override.ResolveOne | 2_cleanup_modified.py:31-53 | unmarked names are untouched and marked names always get an outcome; after a replacement or a rename the edited record sits under the original name and the marked name is gone; a failure leaves the tree as it was or without the original |
| Override.ResolveOneEffect | 2_cleanup_modified.py:36-53 | replaced iff the original file exists and both OS calls succeed; renamed iff nothing holds the original name and the rename succeeds |
| Override.FirstVisitKeeps | 2_cleanup_modified.py:36-53 | a visit changes no file other than its marked and original paths |
| Override.FirstVisitSize | 2_cleanup_modified.py:40-50 | a replacement removes one file and no visit adds one |
| Override.Steps | 2_cleanup_modified.py:25-53 | step i of the walk is the visit of the i-th listed file applied to the tree the earlier visits left |
| Override.ResolveAll | 2_cleanup_modified.py:25-53 | replaced + renamed + errors equals the marked files of the listing; directories are unchanged |
| Override.WalkKeeps | 2_cleanup_modified.py:25-53 | files no marked visit names are unchanged, and no other name appears; the file count drops by at least the replacements |
| Override.WalkTrace | 2_cleanup_modified.py:25-53 | the walk leaves the last step's tree, and each counter is the number of steps with that outcome |
| Override.CleanWalk | 2_cleanup_modified.py:25-53 | a walk meeting no OS failure, over marked files that exist and whose visits share no path, reports no error and leaves every edited record under its original name, the marked name gone |
| Override.CleanupModified | 2_cleanup_modified.py:16-53 | a missing target changes nothing; otherwise the tree is the walk's last and each counter is the number of steps with that outcome, every marked file counted once |
| FileTree.Entries | 1_organize_photos.py:28 | a name is listed in a directory exactly when that path exists |
| FileTree.PruneEmpty | 4_final_cleanup.py:46-56 | files are untouched; no directory is created; a directory holding a file below it survives |
| FileTree.PruneBottomUp | 4_final_cleanup.py:47-56 | removing each directory empty when reached, in any descendants-first order, gives exactly `PruneEmpty` and counts the removed directories |
| FileTree.StepDecides | 4_final_cleanup.py:51-53 | when a directory is reached its listing is non-empty (or its removal fails) exactly when it is pinned |
| FileTree.PrunePreservesWF | 4_final_cleanup.py:47-53 | the pass leaves a well-formed tree: every ancestor of a surviving entry survives |
| FileTree.PruneLeavesNoEmptyDir | 4_final_cleanup.py:46-56 | with no failing removal, no empty directory remains |
| FileTime.SplitTicks | 3_update_metadata.py:136-139 | both words fit 32 bits, and they recombine to the ticks when the ticks fit 64 bits |
| FileTime.CombineSplit | 3_update_metadata.py:136-139 | splitting and recombining keeps exactly the low 64 bits of the tick count |
| FileTime.ToTicksMonotone | 3_update_metadata.py:136 | later seconds give strictly later ticks, and conversely |
| FileTime.TicksRoundTrip | 3_update_metadata.py:136 | ticks read back as the seconds they were made from |
| FileTime.RepresentableTicks | 3_update_metadata.py:134-140 | a moment whose ticks fit 64 bits survives the word split unchanged |
| Reconcile.FirstGlobMatch | 3_update_metadata.py:90-95 | the first listed existing `base.*.json`, none iff there is none |
| Reconcile.SupplementalIsGlobMatch | 3_update_metadata.py:81-92 | `base.supplemental-metadata.json` also matches the glob pattern |
| Reconcile.FindSidecar | 3_update_metadata.py:76-97 | `base.json` first, then `base.supplemental-metadata.json`, then the first glob match, else none; a result is an existing name starting with the file's name and ending in `.json` |
| Reconcile.CompleteListingFinds | 3_update_metadata.py:76-97 | when any accepted sidecar form exists, one is found |
| Reconcile.Resolve | 3_update_metadata.py:120-127 | true fields are kept; a false creation takes taken; a false modification and a false taken take the resolved creation; creation or taken true makes all three true |
| Reconcile.ToFileTime | 3_update_metadata.py:134-140 | a value is produced iff the timestamp is truthy; it is the exact tick count whenever that fits 64 bits |
| Reconcile.SlotReadsBack | 3_update_metadata.py:134-140 | a written slot reads back as the second it was written from |
| Reconcile.Plan | 3_update_metadata.py:129-160 | nothing is written iff all three fields are false; creation goes to the creation slot, taken to last-access and modification to last-write; creation or taken sets all three slots; modification alone sets only the last-write slot |
| Reconcile.OnlyTakenFillsAllSlots | 3_update_metadata.py:122-160 | a sidecar with only a photo-taken time writes it to all three slots |
| Reconcile.OnlyTakenReadsBack | 3_update_metadata.py:122-160 | a file whose sidecar holds only a photo-taken time is updated iff it opens, and then all three of its slots read back as that second |
| Reconcile.ReconcileFile | 3_update_metadata.py:99-174 | JSON names are skipped; missing sidecar iff lookup fails; updated iff the sidecar reads as timestamps with something to write and the file opens; then the planned slots are written; size and content never change |
| Reconcile.CountsSplit | 3_update_metadata.py:186-203 | processed files split into missing and found, and updated files are among the found |
| Reconcile.UpdateMetadata | 3_update_metadata.py:176-203 | paths and directories are unchanged; each file's record is what reconciling that file gives; only timestamps of processed files with a sidecar change; processed counts the non-JSON files; updated counts exactly the files reported updated; missing + found = processed; updated + missing <= processed |
| Sweep.MediaSurvives | 4_final_cleanup.py:29-43 | names ending in `.mp4` or `.jpg`, in any case, are never deleted |
| Sweep.DeleteSuffixed | 4_final_cleanup.py:25-43 | a file remains iff its lowercased name ends in neither `.json` nor `.mp` or its removal fails; remaining records unchanged; json + mp counts equal the files gone |
| Sweep.FinalCleanup | 4_final_cleanup.py:16-56 | a missing target changes nothing; otherwise the file rule above, the json counter is the number of `.json` files removed and the mp counter the number of `.mp` files removed, directories only shrink, directories holding a file stay, the folder count equals the directories removed, and with no failing removal no empty directory remains |
| Partition.KeepFromSeconds | 5_filter_by_date.py:19-21 | a file whose slots come from one second is kept iff that second lies in the inclusive window |
| Partition.AncestorsOf | 5_filter_by_date.py:64 | the directories created are exactly proper ancestors of moved files |
| Partition.MoveAll | 5_filter_by_date.py:60-66 | each moved file leaves the source and appears at the identical relative path with its record; nothing else changes |
| Partition.MovePreservesWF | 6_revert_filter.py:38-43 | moving files that fit keeps both trees well formed |
| Partition.PartitionCounts | 5_filter_by_date.py:36-71 | kept and excluded files are disjoint and together are the processed files |
| Partition.FilterInto | 5_filter_by_date.py:36-82 | each processed file ends in exactly one tree with its record: in the target iff kept; kept + excluded = processed; target directories only shrink, those holding a file stay, and with no failing removal no empty one is left |
| Partition.FilterByDate | 5_filter_by_date.py:23-82 | a missing target changes nothing; otherwise both roots exist afterwards and every FilterInto clause holds: each processed file is kept or moved with its record, files already in the exclusion tree keep theirs, the exclusion tree gains exactly the moved files' ancestors, kept + excluded counts the processed files and excluded counts the moved ones, directories holding a kept file stay, folders counts the removed directories, and none is left empty when no removal fails |
| Partition.PruneExclusion | 6_revert_filter.py:49-65 | the exclusion root survives whenever a file is left, and goes when nothing is left and no removal fails; with no failing removal no empty directory is left |
| Partition.RevertInto | 6_revert_filter.py:29-65 | every successfully moved file is back at its relative path with its record, and the target's other files keep theirs; the target gains exactly the moved files' ancestors; reverted counts the moved files; folders counts the removed subdirectories of the exclusion root (the root itself not included); the exclusion tree keeps only failed files, holds no empty directory when no removal fails, and is gone when all moves and removals succeed |
| Partition.RevertFilter | 6_revert_filter.py:18-65 | a missing exclusion root changes nothing; otherwise the target exists afterwards (an empty tree when it was missing) and every RevertInto clause holds: records of moved and untouched files, the target's directories, the reverted and folders counts, the remaining exclusion tree's files and directories, and its removal |
| Partition.RootEmpty | 6_revert_filter.py:62 | the root lists nothing exactly when the tree holds nothing |
| Partition.FilterLeavesRoomBack | 5_filter_by_date.py:60-66 | after a filter into an empty exclusion tree, whichever of its moves fail, the excluded files are exactly the exclusion tree's files and all fit back |
| Partition.RestoresFiles | 6_revert_filter.py:35-43 | filtering, whichever of its moves fail, then reverting gives back the identical path-to-record map |
| Partition.RestoresDirs | 5_filter_by_date.py:74-82 | after the round trip, whichever filter moves fail, no directory exists that was not there before, and every directory holding a file is back |
| Partition.ExclusionDrained | 6_revert_filter.py:60-65 | after the round trip, whichever filter moves fail, with no failing removal in the revert the exclusion root is gone |
| Partition.RoundTrip | 5_filter_by_date.py:60-66 | from an absent or empty exclusion root, whichever filter moves fail, and with no failing move in the revert, filter then revert restores the files exactly, creates no new directory, and removes the exclusion root |

## Left out

- Logging, log files, progress printing and `main.py`. They hold no policy.
- The local time zone. `datetime(2013, 8, 18)` and `datetime.fromtimestamp`
  use local time; the window here is read as UTC seconds, 1376784000 to
  1608940799.
- Floating point. JSON timestamps are parsed as floats and `int(ts * 10^7 +
  ...)` rounds; the model uses whole seconds and exact integer ticks.
- JSON decoding. It is the `decode` parameter; unreadable or unparsable
  sidecars give `None`.
- The Windows API calls (`CreateFileW`, `SetFileTime`, `CloseHandle`).
  Only the slot assignment is modelled. A failing open and a failing set
  are per-file flags.
- `set_file_creation_time` (3_update_metadata.py:26-74) is never called by
  the stage. Only its tick conversion and split is modelled, through
  `FileTime`.
- Reconcile.UpdateMetadata: a failing `SetFileTime` still counts as updated
  with the file unchanged, as the code ignores that call's result.
- `glob` and Windows case-insensitive name matching. Names compare exactly.
  `Lower` folds ASCII letters only.
- Listing entries that do not exist in the tree are ignored in stages 1
  and 3, including the loose photos-root match. A real listing holds
  only existing entries. Stage 2 is the exception. A listed marked file
  that an earlier visit removed as an original is no longer there; its
  rename raises, and it counts as an error, as in the code.
- The order of `os.walk` is not modelled for stages 3 to 6. Their results
  do not depend on it, so they are written as set and map comprehensions.
- Merger.MergeAlbum, Merger.MergeAlbums: require that no album holding a regular file has
  its name held by a regular file in the destination. There the code's
  first move goes to a path under a file, the move raises, and nothing
  catches the error. The program stops, and the model does not describe
  that crash. An album without regular files is allowed: the code skips
  `os.makedirs` because the name exists, and moves nothing. The same
  holds for Merger.MergeArchive and Merger.OrganizePhotos.
- Merger.Identical: a directory under the file's name in the destination
  counts as a different size. The code compares against that directory's
  `st_size`.
- A `Takeout` entry, the exact `Google Photos` entry, or a loosely
  matched photos root that is a regular file. `os.path.exists` accepts it
  (1_organize_photos.py:65, 72), then `os.listdir` raises at
  1_organize_photos.py:74 or 88 and stops the program. The model reads
  the entry's (empty) listing instead and goes on.
- `shutil.move` failures in the merge. The code does not catch them, so
  they stop the program.
- Partition.FilterByDate: every moved file's destination path must be
  free (`Partition.Fits`): no file or directory there and no file on the
  way. A file in the way of `os.makedirs` makes the move fail, and such a
  file must be in the fault set. A directory at the destination path
  makes `shutil.move` put the file inside it. A file there is overwritten
  by a copy that keeps the old file's creation time. Neither outcome is
  modelled, and such files too must be in the fault set. Per-file failures
  keep the file in place, but the partial effect of a failure after
  `os.makedirs` succeeded (new empty directories in the exclusion tree)
  is not modelled. The same holds for Partition.RevertFilter.
- Partition.MoveAll: replaces a file already at a destination path, but
  every caller moves only onto free paths (see above).
- FileTime.ToTicksMonotone, Reconcile.OnlyTakenFillsAllSlots and
  Partition.NothingPinned hold without proof steps. They are stated because
  they are promised properties, not because they are hard.
