/** The merge stage (`1_organize_photos.py`): every file of every album of
    every Takeout archive is moved into the album of the same name in the
    unified destination tree. A name collision with a file of the same size
    is taken for a duplicate and skipped (the file stays in the archive);
    a collision with a different size moves the file under the first free
    name `stem_k.ext`. The destination tree's paths are `[album, name]`. */
module Merger {
  import opened Basics
  import opened FileTree

  // ---------------------------------------------------------------------
  // get_unique_filename

  /** `f"{name}_{counter}{ext}"`. */
  function Candidate(stem: string, ext: string, k: nat): Name {
    stem + "_" + NatToString(k) + ext
  }

  /** Different counters give different candidate names. */
  lemma CandidateInjective(stem: string, ext: string, j: nat, k: nat)
    ensures Candidate(stem, ext, j) == Candidate(stem, ext, k) ==> j == k
  {
    var a := Candidate(stem, ext, j);
    var b := Candidate(stem, ext, k);
    if a == b {
      assert |NatToString(j)| == |NatToString(k)|;
      assert NatToString(j) == a[|stem| + 1..|a| - |ext|];
      assert NatToString(k) == b[|stem| + 1..|b| - |ext|];
      NatToStringInjective(j, k);
    }
  }

  /** A candidate keeps the extension of the name it was made from:
      splitting it again gives back the same extension. */
  lemma CandidateKeepsExtension(filename: Name, k: nat)
    ensures var (stem, ext) := SplitExt(filename);
            SplitExt(Candidate(stem, ext, k)) == (stem + "_" + NatToString(k), ext)
  {
    var (stem, ext) := SplitExt(filename);
    var body := stem + "_" + NatToString(k);
    var c := Candidate(stem, ext, k);
    assert c == body + ext;
    assert forall j :: |stem| <= j < |body| ==> body[j] != '.';
    if ext != "" {
      var i := |body|;
      assert c[i] == '.';
      assert forall j :: i < j < |c| ==> c[j] == ext[j - i] && c[j] != '.';
      match LastDot(c)
      case Some(m) =>
        assert m == i;
        assert c[|stem|] == '_';
        assert HasNonDotBefore(c, i);
        assert c[..i] == body && c[i..] == ext;
    } else {
      var tail := "_" + NatToString(k);
      assert stem == filename && body == filename + tail && c == body;
      assert forall j :: 0 <= j < |tail| ==> tail[j] == body[|stem| + j];
      NoExtensionAppend(filename, tail);
    }
  }

  /** A name without an extension keeps having none when dot-free text is
      appended to it. */
  lemma NoExtensionAppend(name: string, tail: string)
    requires SplitExt(name).1 == ""
    requires forall j :: 0 <= j < |tail| ==> tail[j] != '.'
    ensures SplitExt(name + tail) == (name + tail, "")
  {
    var c := name + tail;
    forall a, b | 0 <= b < a < |c| && c[a] == '.'
      ensures c[b] == '.'
    {
      assert a < |name|;
      assert c[a] == name[a] && c[b] == name[b];
    }
  }

  /** The first `k` candidates are `k` different names. */
  lemma {:induction false} CandidatesCount(stem: string, ext: string, k: nat)
    ensures |set j | 1 <= j <= k :: Candidate(stem, ext, j)| == k
  {
    if k > 0 {
      var s := set j | 1 <= j <= k - 1 :: Candidate(stem, ext, j);
      var s' := set j | 1 <= j <= k :: Candidate(stem, ext, j);
      CandidatesCount(stem, ext, k - 1);
      assert s' == s + {Candidate(stem, ext, k)};
      forall j | 1 <= j <= k - 1
        ensures Candidate(stem, ext, j) != Candidate(stem, ext, k)
      {
        CandidateInjective(stem, ext, j, k);
      }
      assert Candidate(stem, ext, k) !in s;
    }
  }

  /** A finite directory can hold only so many of the candidates: this is
      why the search for a free name ends. */
  lemma CandidatesBound(taken: set<Name>, stem: string, ext: string, n: nat)
    requires forall j :: 1 <= j <= n ==> Candidate(stem, ext, j) in taken
    ensures n <= |taken|
  {
    var s := set j | 1 <= j <= n :: Candidate(stem, ext, j);
    CandidatesCount(stem, ext, n);
    SubsetCard(s, taken);
  }

  /** The smallest counter, from `k` on, whose candidate name is free. */
  function FirstFree(taken: set<Name>, stem: string, ext: string, k: nat): (r: nat)
    requires 1 <= k
    requires forall j :: 1 <= j < k ==> Candidate(stem, ext, j) in taken
    ensures k <= r
    ensures Candidate(stem, ext, r) !in taken
    ensures forall j :: 1 <= j < r ==> Candidate(stem, ext, j) in taken
    decreases |taken| - k + 1
  {
    if Candidate(stem, ext, k) !in taken then k
    else
      CandidatesBound(taken, stem, ext, k);
      FirstFree(taken, stem, ext, k + 1)
  }

  /** `get_unique_filename`: `filename` itself when it is free in the
      directory (whose entries are `taken`), else `stem_k.ext` for the
      smallest `k >= 1` that is free. Never an existing entry. */
  function UniqueFilename(taken: set<Name>, filename: Name): (r: Name)
    ensures r !in taken
    ensures filename !in taken ==> r == filename
    ensures filename in taken ==>
              var (stem, ext) := SplitExt(filename);
              exists k: nat :: 1 <= k && r == Candidate(stem, ext, k)
                && forall j :: 1 <= j < k ==> Candidate(stem, ext, j) in taken
  {
    if filename !in taken then filename
    else
      var (stem, ext) := SplitExt(filename);
      var k := FirstFree(taken, stem, ext, 1);
      Candidate(stem, ext, k)
  }

  // ---------------------------------------------------------------------
  // are_files_identical and the per-file policy

  /** `os.path.getsize`, failing when there is no regular file. */
  function SizeOf(t: Tree, p: Path): Option<nat> {
    if p in t.files then Some(t.files[p].size) else None
  }

  /** `are_files_identical`: equal sizes; false when either size cannot be read. */
  function Identical(src: Tree, sp: Path, dst: Tree, dp: Path): (r: bool)
    ensures r <==> sp in src.files && dp in dst.files && src.files[sp].size == dst.files[dp].size
  {
    match (SizeOf(src, sp), SizeOf(dst, dp))
    case (Some(a), Some(b)) => a == b
    case _ => false
  }

  datatype Outcome = Moved | Skipped | Renamed(newName: Name)

  /** The name a file ends up under in its destination album. */
  function LandedName(o: Outcome, name: Name): Name {
    if o.Renamed? then o.newName else name
  }

  /** What one source file `sp` named `name`, arriving in `album`, does:
      moved under its own name when that is free, skipped (both trees
      unchanged) when a file of equal size holds the name, otherwise moved
      under a fresh name. Whatever moves lands on a name that was free. */
  function MergeFile(src: Tree, dest: Tree, sp: Path, album: Name, name: Name): (r: (Tree, Tree, Outcome))
    requires sp in src.files
    ensures r.2.Moved? <==> !Exists(dest, [album, name])
    ensures r.2.Skipped? <==> Exists(dest, [album, name]) && Identical(src, sp, dest, [album, name])
    ensures r.2.Skipped? ==> r.0 == src && r.1 == dest
    ensures !r.2.Skipped? ==>
              var n := LandedName(r.2, name);
              && !Exists(dest, [album, n])
              && r.0.files == src.files - {sp}
              && r.1.files == dest.files[[album, n] := src.files[sp]]
              && r.1.dirs == dest.dirs + {[album]}
    ensures r.2.Renamed? ==>
              r.2.newName == UniqueFilename(Entries(dest, [album]), name) && r.2.newName != name
    ensures r.0.dirs == src.dirs
  {
    var target := [album, name];
    var file := src.files[sp];
    assert Ancestors([album, name]) == {[album]} by {
      assert [album, name][..1] == [album];
    }
    if Exists(dest, target) then
      if Identical(src, sp, dest, target) then (src, dest, Skipped)
      else
        var freeName := UniqueFilename(Entries(dest, [album]), name);
        assert Ancestors([album, freeName]) == {[album]} by {
          assert [album, freeName][..1] == [album];
        }
        (Delete(src, sp), Put(dest, [album, freeName], file), Renamed(freeName))
    else
      (Delete(src, sp), Put(dest, target, file), Moved)
  }

  // ---------------------------------------------------------------------
  // The walk over one album, one archive, all archives

  datatype Counts = Counts(moved: nat, skipped: nat, renamed: nat) {
    function Plus(o: Counts): Counts {
      Counts(moved + o.moved, skipped + o.skipped, renamed + o.renamed)
    }
  }

  const NoCounts := Counts(0, 0, 0)

  /** The counters one outcome bumps: a rename is also a move. */
  function Tally(o: Outcome): Counts {
    match o
    case Moved => Counts(1, 0, 0)
    case Skipped => Counts(0, 1, 0)
    case Renamed(_) => Counts(1, 0, 1)
  }

  /** Every file of `src` also in `result`, with the same record. */
  predicate Kept(src: map<Path, File>, result: map<Path, File>) {
    forall p | p in src :: p in result && result[p] == src[p]
  }

  /** The files of one source album `dir` (named `names`, in scan order)
      merged into `album`. Counts add up to the files visited and a rename
      also counts as a move; the source only loses files and the
      destination only gains them, so no destination file is overwritten.
      The lemmas below state the rest. */
  function MergeFiles(src: Tree, dest: Tree, dir: Path, album: Name, names: seq<Name>): (r: (Tree, Tree, Counts))
    requires Distinct(names)
    requires forall n | n in names :: dir + [n] in src.files
    ensures r.2.moved + r.2.skipped == |names|
    ensures r.2.renamed <= r.2.moved
    ensures Kept(dest.files, r.1.files)
    ensures Kept(r.0.files, src.files)
    ensures r.0.dirs == src.dirs
    ensures dest.dirs <= r.1.dirs <= dest.dirs + {[album]}
    decreases |names|
  {
    if names == [] then (src, dest, NoCounts)
    else
      var sp := dir + [names[0]];
      var (s1, d1, o) := MergeFile(src, dest, sp, album, names[0]);
      TailNames(dir, names);
      var (s2, d2, c) := MergeFiles(s1, d1, dir, album, names[1..]);
      (s2, d2, Tally(o).Plus(c))
  }

  /** The rest of a listing without repeats names other files than its head. */
  lemma TailNames(dir: Path, names: seq<Name>)
    requires names != [] && Distinct(names)
    ensures Distinct(names[1..])
    ensures forall n | n in names[1..] :: n in names && n != names[0] && dir + [n] != dir + [names[0]]
  {
    forall n | n in names[1..]
      ensures n in names && n != names[0] && dir + [n] != dir + [names[0]]
    {
      var i :| 0 <= i < |names[1..]| && names[1..][i] == n;
      assert names[i + 1] == n;
      assert (dir + [n])[|dir|] == n;
    }
  }

  /** Every move adds one destination file and takes one source file away. */
  lemma {:induction false} MergeFilesSizes(src: Tree, dest: Tree, dir: Path, album: Name, names: seq<Name>)
    requires Distinct(names)
    requires forall n | n in names :: dir + [n] in src.files
    ensures var r := MergeFiles(src, dest, dir, album, names);
            |r.1.files| == |dest.files| + r.2.moved && |r.0.files| == |src.files| - r.2.moved
    decreases |names|
  {
    if names != [] {
      var sp := dir + [names[0]];
      var (s1, d1, o) := MergeFile(src, dest, sp, album, names[0]);
      TailNames(dir, names);
      MergeFilesSizes(s1, d1, dir, album, names[1..]);
      if !o.Skipped? {
        assert [album, LandedName(o, names[0])] !in dest.files;
        assert |d1.files| == |dest.files| + 1;
        assert |s1.files| == |src.files| - 1;
      }
    }
  }

  /** New destination files all sit directly in the album. */
  lemma {:induction false} MergeFilesLandInAlbum(src: Tree, dest: Tree, dir: Path, album: Name, names: seq<Name>)
    requires Distinct(names)
    requires forall n | n in names :: dir + [n] in src.files
    ensures var r := MergeFiles(src, dest, dir, album, names);
            forall p | p in r.1.files && p !in dest.files :: |p| == 2 && p[0] == album
    decreases |names|
  {
    if names != [] {
      var sp := dir + [names[0]];
      var (s1, d1, o) := MergeFile(src, dest, sp, album, names[0]);
      TailNames(dir, names);
      MergeFilesLandInAlbum(s1, d1, dir, album, names[1..]);
      assert forall p | p in d1.files && p !in dest.files :: p == [album, LandedName(o, names[0])];
    }
  }

  /** Source files that are not visited stay where they are. */
  lemma {:induction false} MergeFilesLeaveOthers(src: Tree, dest: Tree, dir: Path, album: Name, names: seq<Name>)
    requires Distinct(names)
    requires forall n | n in names :: dir + [n] in src.files
    ensures var r := MergeFiles(src, dest, dir, album, names);
            forall p | p in src.files && (forall n | n in names :: p != dir + [n]) :: p in r.0.files
    decreases |names|
  {
    if names != [] {
      var sp := dir + [names[0]];
      var (s1, d1, o) := MergeFile(src, dest, sp, album, names[0]);
      TailNames(dir, names);
      MergeFilesLeaveOthers(s1, d1, dir, album, names[1..]);
      assert forall p | p in src.files && p != sp :: p in s1.files;
    }
  }

  /** A same-size twin stays one while the source only loses files and the
      destination only gains them. */
  lemma TwinCarries(s1: Tree, d1: Tree, s2: Tree, d2: Tree, sp: Path, dp: Path)
    requires Kept(s2.files, s1.files) && Kept(d1.files, d2.files)
    ensures sp in s2.files && Identical(s1, sp, d1, dp) ==> Identical(s2, sp, d2, dp)
  {
  }

  /** Every file left in the source album has a same-size file under its
      own name in the destination album: it was skipped as a duplicate. */
  lemma {:induction false} MergeFilesTwins(src: Tree, dest: Tree, dir: Path, album: Name, names: seq<Name>)
    requires Distinct(names)
    requires forall n | n in names :: dir + [n] in src.files
    ensures var r := MergeFiles(src, dest, dir, album, names);
            forall n | n in names && dir + [n] in r.0.files :: Identical(r.0, dir + [n], r.1, [album, n])
    decreases |names|
  {
    if names != [] {
      var sp := dir + [names[0]];
      var (s1, d1, o) := MergeFile(src, dest, sp, album, names[0]);
      TailNames(dir, names);
      MergeFilesTwins(s1, d1, dir, album, names[1..]);
      var (s2, d2, _) := MergeFiles(s1, d1, dir, album, names[1..]);
      TwinCarries(s1, d1, s2, d2, sp, [album, names[0]]);
      assert forall n | n in names :: n == names[0] || n in names[1..];
    }
  }

  /** The names of `listing` that are regular files in directory `d`
      (`entry.is_file()` during `os.scandir`). */
  function FilesIn(t: Tree, d: Path, listing: seq<Name>): (r: seq<Name>)
    ensures forall n :: n in r <==> n in listing && d + [n] in t.files
    ensures Distinct(listing) ==> Distinct(r)
  {
    if listing == [] then []
    else
      var rest := FilesIn(t, d, listing[1..]);
      assert forall n :: n in listing <==> n == listing[0] || n in listing[1..];
      if d + [listing[0]] in t.files then
        assert Distinct(listing) ==> listing[0] !in listing[1..] by {
          if Distinct(listing) {
            forall n | n in listing[1..]
              ensures n != listing[0]
            {
              var i :| 0 <= i < |listing[1..]| && listing[1..][i] == n;
              assert listing[i + 1] == n;
            }
          }
        }
        [listing[0]] + rest
      else rest
  }

  /** The names of `listing` that are directories in `d` (`os.path.isdir`). */
  function DirsIn(t: Tree, d: Path, listing: seq<Name>): (r: seq<Name>)
    ensures forall n :: n in r <==> n in listing && d + [n] in t.dirs
    ensures Distinct(listing) ==> Distinct(r)
  {
    if listing == [] then []
    else
      var rest := DirsIn(t, d, listing[1..]);
      assert forall n :: n in listing <==> n == listing[0] || n in listing[1..];
      if d + [listing[0]] in t.dirs then
        assert Distinct(listing) ==> listing[0] !in listing[1..] by {
          if Distinct(listing) {
            forall n | n in listing[1..]
              ensures n != listing[0]
            {
              var i :| 0 <= i < |listing[1..]| && listing[1..][i] == n;
              assert listing[i + 1] == n;
            }
          }
        }
        [listing[0]] + rest
      else rest
  }

  /** The listed files are the same in two trees that agree on which
      entries of `d` are files. */
  lemma FilesInSame(s: Tree, t: Tree, d: Path, listing: seq<Name>)
    requires forall n | n in listing :: d + [n] in s.files <==> d + [n] in t.files
    ensures FilesIn(s, d, listing) == FilesIn(t, d, listing)
  {
    if listing != [] {
      assert listing[0] in listing;
      assert forall n | n in listing[1..] :: n in listing;
      FilesInSame(s, t, d, listing[1..]);
    }
  }

  /** Files that all have a same-size twin under their own name in the
      album are all skipped, and nothing changes. */
  lemma {:induction false} AllTwinsSkipped(src: Tree, dest: Tree, dir: Path, album: Name, names: seq<Name>)
    requires Distinct(names)
    requires forall n | n in names :: dir + [n] in src.files && Identical(src, dir + [n], dest, [album, n])
    ensures MergeFiles(src, dest, dir, album, names) == (src, dest, Counts(0, |names|, 0))
    decreases |names|
  {
    if names != [] {
      var sp := dir + [names[0]];
      assert names[0] in names;
      assert MergeFile(src, dest, sp, album, names[0]) == (src, dest, Skipped);
      TailNames(dir, names);
      AllTwinsSkipped(src, dest, dir, album, names[1..]);
      assert Tally(Skipped).Plus(Counts(0, |names| - 1, 0)) == Counts(0, |names|, 0);
    }
  }

  /** Merging an album a second time, over the files the first pass left
      behind, moves nothing: every one of them is skipped. */
  lemma MergeAgainMovesNothing(src: Tree, dest: Tree, dir: Path, album: Name, names: seq<Name>)
    requires Distinct(names)
    requires forall n | n in names :: dir + [n] in src.files
    ensures var (s1, d1, _) := MergeFiles(src, dest, dir, album, names);
            var left := FilesIn(s1, dir, names);
            MergeFiles(s1, d1, dir, album, left) == (s1, d1, Counts(0, |left|, 0))
  {
    var (s1, d1, _) := MergeFiles(src, dest, dir, album, names);
    var left := FilesIn(s1, dir, names);
    MergeFilesTwins(src, dest, dir, album, names);
    AllTwinsSkipped(s1, d1, dir, album, left);
  }

  /** One album: the destination album directory is created when nothing of
      that name exists, then its files are merged in scan order. */
  function MergeAlbum(src: Tree, dest: Tree, root: Path, album: Name, scan: Path -> seq<Name>): (r: (Tree, Tree, Counts))
    requires Distinct(scan(root + [album]))
    requires FilesIn(src, root + [album], scan(root + [album])) != [] ==> [album] !in dest.files
    ensures r.2.renamed <= r.2.moved
    ensures r.2.moved + r.2.skipped == |FilesIn(src, root + [album], scan(root + [album]))|
    ensures Kept(dest.files, r.1.files)
    ensures forall p | p in r.1.files && p !in dest.files :: |p| == 2 && p[0] == album
    ensures |r.1.files| == |dest.files| + r.2.moved
    ensures |r.0.files| == |src.files| - r.2.moved
    ensures Kept(r.0.files, src.files)
    ensures forall p | p in src.files && !IsChild(root + [album], p) :: p in r.0.files
    ensures r.0.dirs == src.dirs
    ensures [album] in r.1.dirs || [album] in dest.files
    ensures dest.dirs <= r.1.dirs <= dest.dirs + {[album]}
  {
    var dir := root + [album];
    var dest1 := if Exists(dest, [album]) then dest else dest.(dirs := dest.dirs + {[album]});
    assert dest1.files == dest.files;
    var names := FilesIn(src, dir, scan(dir));
    MergeFilesSizes(src, dest1, dir, album, names);
    MergeFilesLandInAlbum(src, dest1, dir, album, names);
    MergeFilesLeaveOthers(src, dest1, dir, album, names);
    assert forall n :: IsChild(dir, dir + [n]);
    MergeFiles(src, dest1, dir, album, names)
  }

  /** True when no album of the list that holds a regular file would be
      merged into a regular file of the same name (the first move raises
      there, and nothing catches it). An album without regular files moves
      nothing and is harmless. */
  predicate AlbumsFit(src: Tree, dest: Tree, root: Path, albums: seq<Name>, scan: Path -> seq<Name>) {
    forall a | a in albums && FilesIn(src, root + [a], scan(root + [a])) != [] :: [a] !in dest.files
  }

  /** A source that only loses files lists no file the original did not. */
  lemma FilesInShrinks(s1: Tree, src: Tree, d: Path, listing: seq<Name>)
    requires Kept(s1.files, src.files)
    ensures FilesIn(s1, d, listing) != [] ==> FilesIn(src, d, listing) != []
  {
    if FilesIn(s1, d, listing) != [] {
      var n := FilesIn(s1, d, listing)[0];
      assert n in FilesIn(s1, d, listing);
      assert n in FilesIn(src, d, listing);
    }
  }

  /** The number of files the walk over `albums` of `root` visits: each
      album's listed regular files, as they stand in `src`. */
  function Visited(src: Tree, root: Path, albums: seq<Name>, scan: Path -> seq<Name>): nat {
    if albums == [] then 0
    else |FilesIn(src, root + [albums[0]], scan(root + [albums[0]]))| + Visited(src, root, albums[1..], scan)
  }

  /** Merging one album leaves the visits of the other albums as they were. */
  lemma VisitedSame(s1: Tree, src: Tree, root: Path, album: Name, albums: seq<Name>, scan: Path -> seq<Name>)
    requires album !in albums
    requires Kept(s1.files, src.files)
    requires forall p | p in src.files && !IsChild(root + [album], p) :: p in s1.files
    ensures Visited(s1, root, albums, scan) == Visited(src, root, albums, scan)
  {
    if albums != [] {
      var d := root + [albums[0]];
      assert albums[0] in albums;
      forall n | n in scan(d) ensures d + [n] in s1.files <==> d + [n] in src.files {
        if d + [n] in src.files {
          assert (d + [n])[..|root| + 1] == d && d[|root|] == albums[0] != album;
          assert !IsChild(root + [album], d + [n]);
        }
      }
      FilesInSame(s1, src, d, scan(d));
      VisitedSame(s1, src, root, album, albums[1..], scan);
    }
  }

  /** The albums of one photos root, in listing order. Every visited file
      is either moved or skipped. */
  function MergeAlbums(src: Tree, dest: Tree, root: Path, albums: seq<Name>, scan: Path -> seq<Name>): (r: (Tree, Tree, Counts))
    requires forall a | a in albums :: Distinct(scan(root + [a]))
    requires AlbumsFit(src, dest, root, albums, scan)
    ensures r.2.renamed <= r.2.moved
    ensures Kept(dest.files, r.1.files)
    ensures forall p | p in r.1.files && p !in dest.files :: |p| == 2 && p[0] in albums
    ensures |r.1.files| == |dest.files| + r.2.moved
    ensures |r.0.files| == |src.files| - r.2.moved
    ensures Kept(r.0.files, src.files)
    ensures r.0.dirs == src.dirs
    ensures Distinct(albums) ==> r.2.moved + r.2.skipped == Visited(src, root, albums, scan)
    decreases |albums|
  {
    if albums == [] then (src, dest, NoCounts)
    else
      assert albums[0] in albums;
      var (s1, d1, c1) := MergeAlbum(src, dest, root, albums[0], scan);
      assert AlbumsFit(s1, d1, root, albums[1..], scan) by {
        forall a | a in albums[1..] && FilesIn(s1, root + [a], scan(root + [a])) != []
          ensures [a] !in d1.files
        {
          FilesInShrinks(s1, src, root + [a], scan(root + [a]));
          assert a in albums;
        }
      }
      var (s2, d2, c2) := MergeAlbums(s1, d1, root, albums[1..], scan);
      assert Distinct(albums) ==> c2.moved + c2.skipped == Visited(src, root, albums[1..], scan) by {
        if Distinct(albums) {
          TailNames(root, albums);
          VisitedSame(s1, src, root, albums[0], albums[1..], scan);
        }
      }
      (s2, d2, c1.Plus(c2))
  }

  // ---------------------------------------------------------------------
  // Locating the photos root of an archive

  const TakeoutName: Name := "Takeout"
  const PhotosName: Name := "Google Photos"

  /** The loose match tolerating export-tool naming drift. */
  predicate LooksLikePhotos(child: Name) {
    Contains(child, "Google") && Contains(child, "Photos")
  }

  /** Index of the first child that looks like the photos root. */
  function FirstLooksLikePhotos(children: seq<Name>): (r: Option<nat>)
    ensures r.Some? ==> r.value < |children| && LooksLikePhotos(children[r.value])
    ensures r.Some? ==> forall i :: 0 <= i < r.value ==> !LooksLikePhotos(children[i])
    ensures r.None? <==> forall i :: 0 <= i < |children| ==> !LooksLikePhotos(children[i])
  {
    if children == [] then None
    else if LooksLikePhotos(children[0]) then Some(0)
    else match FirstLooksLikePhotos(children[1..])
      case None => None
      case Some(i) => Some(i + 1)
  }

  /** The listed names that are entries of directory `d`, in listing order. */
  function Present(t: Tree, d: Path, listing: seq<Name>): (r: seq<Name>)
    ensures forall n :: n in r <==> n in listing && Exists(t, d + [n])
    ensures |r| <= |listing|
  {
    if listing == [] then []
    else if Exists(t, d + [listing[0]]) then [listing[0]] + Present(t, d, listing[1..])
    else Present(t, d, listing[1..])
  }

  /** The photos root of an archive whose `Takeout` directory lists
      `children` (in `os.listdir` order): none without `Takeout`; the exact
      `Google Photos` entry when it exists; else the first existing child
      whose name contains both `Google` and `Photos`; else none (archive
      skipped). Whatever it finds exists. */
  function FindPhotosRoot(arch: Tree, children: seq<Name>): (r: Option<Path>)
    ensures r.Some? ==> Exists(arch, r.value) && |r.value| == 2 && r.value[0] == TakeoutName
    ensures !Exists(arch, [TakeoutName]) ==> r.None?
    ensures Exists(arch, [TakeoutName]) && Exists(arch, [TakeoutName, PhotosName]) ==>
              r == Some([TakeoutName, PhotosName])
    ensures var kids := Present(arch, [TakeoutName], children);
            Exists(arch, [TakeoutName]) && !Exists(arch, [TakeoutName, PhotosName]) ==>
              (r.None? <==> forall i :: 0 <= i < |kids| ==> !LooksLikePhotos(kids[i]))
    ensures var kids := Present(arch, [TakeoutName], children);
            Exists(arch, [TakeoutName]) && !Exists(arch, [TakeoutName, PhotosName]) && r.Some? ==>
              exists k :: 0 <= k < |kids| && r.value == [TakeoutName, kids[k]]
                && LooksLikePhotos(kids[k])
                && forall i :: 0 <= i < k ==> !LooksLikePhotos(kids[i])
  {
    if !Exists(arch, [TakeoutName]) then None
    else if Exists(arch, [TakeoutName, PhotosName]) then Some([TakeoutName, PhotosName])
    else
      var kids := Present(arch, [TakeoutName], children);
      match FirstLooksLikePhotos(kids)
      case None => None
      case Some(k) =>
        assert kids[k] in kids && [TakeoutName] + [kids[k]] == [TakeoutName, kids[k]];
        Some([TakeoutName, kids[k]])
  }

  /** An export batch: its tree, relative to the `takeout-*` directory, and
      the order in which the OS lists each of its directories. */
  datatype Archive = Archive(tree: Tree, scan: Path -> seq<Name>)

  /** The albums `organize_photos` walks in an archive (none when it is skipped). */
  function AlbumsOf(a: Archive): seq<Name> {
    match FindPhotosRoot(a.tree, a.scan([TakeoutName]))
    case None => []
    case Some(root) => DirsIn(a.tree, root, a.scan(root))
  }

  /** A listing never repeats a name. */
  ghost predicate ScansDistinct(a: Archive) {
    forall d :: Distinct(a.scan(d))
  }

  /** The number of files the merge of an archive visits. */
  function ArchiveVisited(a: Archive): nat {
    match FindPhotosRoot(a.tree, a.scan([TakeoutName]))
    case None => 0
    case Some(root) => Visited(a.tree, root, AlbumsOf(a), a.scan)
  }

  /** No album of the archive that holds a regular file would be merged
      into a regular file of the destination. */
  predicate ArchiveFits(a: Archive, dest: Tree) {
    match FindPhotosRoot(a.tree, a.scan([TakeoutName]))
    case None => true
    case Some(root) => AlbumsFit(a.tree, dest, root, AlbumsOf(a), a.scan)
  }

  /** An archive still fits a destination that gained no top-level file. */
  lemma FitsCarry(a: Archive, dest: Tree, d1: Tree)
    requires ArchiveFits(a, dest)
    requires forall p | p in d1.files && |p| == 1 :: p in dest.files
    ensures ArchiveFits(a, d1)
  {
  }

  /** One archive merged into the destination; an archive without a
      recognisable photos root is left alone. Every visited file is either
      moved or skipped. */
  function MergeArchive(a: Archive, dest: Tree): (r: (Tree, Tree, Counts))
    requires ScansDistinct(a)
    requires ArchiveFits(a, dest)
    ensures r.2.renamed <= r.2.moved
    ensures Kept(dest.files, r.1.files)
    ensures forall p | p in r.1.files && p !in dest.files :: |p| == 2 && p[0] in AlbumsOf(a)
    ensures |r.1.files| == |dest.files| + r.2.moved
    ensures |r.0.files| == |a.tree.files| - r.2.moved
    ensures Kept(r.0.files, a.tree.files)
    ensures FindPhotosRoot(a.tree, a.scan([TakeoutName])).None? ==> r == (a.tree, dest, NoCounts)
    ensures r.2.moved + r.2.skipped == ArchiveVisited(a)
  {
    match FindPhotosRoot(a.tree, a.scan([TakeoutName]))
    case None => (a.tree, dest, NoCounts)
    case Some(root) => MergeAlbums(a.tree, dest, root, AlbumsOf(a), a.scan)
  }

  /** Number of files in a list of trees. */
  function FileCount(trees: seq<Tree>): nat {
    if trees == [] then 0 else |trees[0].files| + FileCount(trees[1..])
  }

  /** Number of files in a list of archives. */
  function ArchiveFileCount(archives: seq<Archive>): nat {
    if archives == [] then 0 else |archives[0].tree.files| + ArchiveFileCount(archives[1..])
  }

  /** The number of files the merge of a list of archives visits. */
  function TotalVisited(archives: seq<Archive>): nat {
    if archives == [] then 0 else ArchiveVisited(archives[0]) + TotalVisited(archives[1..])
  }

  /** No album holding a regular file, of any archive, would be merged into
      a regular file. */
  predicate AllAlbumsFit(dest: Tree, archives: seq<Archive>) {
    forall i | 0 <= i < |archives| :: ArchiveFits(archives[i], dest)
  }

  /** `organize_photos`: the archives in `takeout-*` order, each merged into
      the destination left by the previous ones. Returns the archives as
      they are left, the destination and the totals. Every visited file is
      either moved or skipped. Files are conserved:
      what leaves the archives arrives in the destination, and nothing
      already in the destination is replaced. */
  function OrganizePhotos(archives: seq<Archive>, dest: Tree): (r: (seq<Tree>, Tree, Counts))
    requires forall i :: 0 <= i < |archives| ==> ScansDistinct(archives[i])
    requires AllAlbumsFit(dest, archives)
    ensures |r.0| == |archives|
    ensures r.2.renamed <= r.2.moved
    ensures Kept(dest.files, r.1.files)
    ensures |r.1.files| == |dest.files| + r.2.moved
    ensures FileCount(r.0) + |r.1.files| == ArchiveFileCount(archives) + |dest.files|
    ensures r.2.moved + r.2.skipped == TotalVisited(archives)
    decreases |archives|
  {
    if archives == [] then ([], dest, NoCounts)
    else
      var (a1, d1, c1) := MergeArchive(archives[0], dest);
      assert AllAlbumsFit(d1, archives[1..]) by {
        forall i | 0 <= i < |archives[1..]|
          ensures ArchiveFits(archives[1..][i], d1)
        {
          assert archives[1..][i] == archives[i + 1];
          FitsCarry(archives[i + 1], dest, d1);
        }
      }
      var (as2, d2, c2) := OrganizePhotos(archives[1..], d1);
      assert ([a1] + as2)[1..] == as2;
      ([a1] + as2, d2, c1.Plus(c2))
  }
}
