/**
 * The temporary frame folder of one media part: what ffmpeg writes into it
 * through the output pattern `<folder>/img-%06d.jpg`
 * (src/plex/generator.py:126, 154-159), what the rename loop leaves in it
 * (174-177) and what `generate_bif` then lists and sorts (187).
 */
module Output {
  import opened Wrappers
  import opened LittleEndian
  import opened Text
  import opened Sorting
  import opened Frames
  import opened FileSystem
  import opened Rename
  import Paths

  /** Where ffmpeg writes frame `k` (counting from 0; its own count starts at 1). */
  function FramePath(folder: string, k: nat): string {
    Paths.Join(folder, ImgName(k + 1))
  }

  /** The names ffmpeg gives `n` frames, in frame order. */
  function ImgNames(n: nat): (r: seq<string>)
    ensures |r| == n && forall k | 0 <= k < n :: r[k] == ImgName(k + 1)
  {
    seq(n, k requires 0 <= k < n => ImgName(k + 1))
  }

  /** A folder path files can be joined onto with a single slash. */
  predicate Folder(folder: string) {
    folder != "" && folder[|folder| - 1] != '/'
  }

  /** Nothing lies below `folder`: no file and no directory. */
  ghost predicate Empty(files: map<string, seq<Byte>>, dirs: set<string>, folder: string) {
    (forall p | p in files :: !StartsWith(p, folder + "/")) && NoSubdirs(dirs, folder)
  }

  ghost predicate NoSubdirs(dirs: set<string>, folder: string) {
    forall d | d in dirs :: !StartsWith(d, folder + "/")
  }

  /** The files below `folder` are exactly `names`, the k-th holding `data[k]`. */
  ghost predicate Holds(files: map<string, seq<Byte>>, folder: string, names: seq<string>, data: seq<seq<Byte>>) {
    && |names| == |data|
    && (forall k | 0 <= k < |names| ::
          Paths.Join(folder, names[k]) in files && files[Paths.Join(folder, names[k])] == data[k])
    && (forall p | p in files && StartsWith(p, folder + "/") ::
          p[|folder| + 1..] in names)
  }

  /** A path below a folder is the folder, a slash and the rest. */
  lemma SplitBelow(p: string, folder: string)
    requires StartsWith(p, folder + "/")
    ensures p == folder + "/" + p[|folder| + 1..]
  {
    assert p == p[..|folder| + 1] + p[|folder| + 1..];
  }

  /** A relative name joined onto a folder lies directly below it. */
  lemma JoinBelow(folder: string, name: string)
    requires Folder(folder) && name != "" && name[0] != '/'
    ensures Paths.Join(folder, name) == folder + "/" + name
    ensures StartsWith(Paths.Join(folder, name), folder + "/")
    ensures Paths.Join(folder, name)[|folder| + 1..] == name
  {
    Paths.JoinRelative(folder, name);
    var j := Paths.Join(folder, name);
    assert j[..|folder + "/"|] == folder + "/";
  }

  lemma ImgNameHead(k: nat)
    ensures ImgName(k) != "" && ImgName(k)[0] == 'i'
  {
  }

  lemma ImgNameShape(k: nat)
    ensures ImgName(k) != "" && ImgName(k)[0] == 'i' && '/' !in ImgName(k) && MatchesGlob(ImgName(k))
  {
    var d := Decimal(k, 6);
    var n := ImgName(k);
    assert n == "img-" + d + ".jpg";
    assert forall i | 0 <= i < |d| :: IsDigit(d[i]);
    assert n[..3] == "img";
    assert n[|n| - 4..] == ".jpg";
    forall i | 0 <= i < |n| ensures n[i] != '/' {
      if 4 <= i < 4 + |d| {
        assert n[i] == d[i - 4];
      }
    }
  }

  /** ffmpeg gives different frames different names. */
  lemma ImgNameInjective(a: nat, b: nat)
    requires ImgName(a) == ImgName(b)
    ensures a == b
  {
    FrameNumberOfImg(a);
    FrameNumberOfImg(b);
  }

  lemma NewNameShape(frame: int, interval: int)
    ensures NewName(frame, interval) != "" && NewName(frame, interval)[0] != '/'
    ensures '/' !in NewName(frame, interval) && EndsWith(NewName(frame, interval), ".jpg")
  {
    var v := frame * interval;
    var f := Format010(v);
    Format010NoSlash(v);
    assert '/' !in ".jpg";
    assert forall c :: c in f + ".jpg" <==> c in f || c in ".jpg";
    EndsWithAppend(f, ".jpg");
    Rename.NewNameHead(frame, interval);
  }

  lemma Format010NoSlash(v: int)
    ensures '/' !in Format010(v)
  {
    if v < 0 {
      var d := Decimal(-v, 9);
      NotInDigits(d, '/');
      assert Format010(v) == "-" + d;
      assert forall c :: c in "-" + d <==> c == '-' || c in d;
    } else {
      NotInDigits(Decimal(v, 10), '/');
    }
  }

  /** Different frames are written to different paths. */
  lemma FramePathsApart(folder: string, j: nat, k: nat)
    requires j != k
    ensures FramePath(folder, j) != FramePath(folder, k)
  {
    ImgNameHead(j + 1);
    ImgNameHead(k + 1);
    if FramePath(folder, j) == FramePath(folder, k) {
      Rename.JoinInjective(folder, ImgName(j + 1), ImgName(k + 1));
      ImgNameInjective(j + 1, k + 1);
    }
  }

  /**
   * ffmpeg writing its frames through the output pattern. A frame whose path
   * is a directory, or whose directory does not exist, is not written.
   */
  method WriteFrames(fs: FileSystem, folder: string, frames: seq<seq<Byte>>)
    requires fs.Valid()
    modifies fs
    ensures fs.Valid() && fs.dirs == old(fs.dirs)
    ensures forall k | 0 <= k < |frames| && FramePath(folder, k) !in fs.dirs && ParentExists(FramePath(folder, k), fs.dirs) ::
      FramePath(folder, k) in fs.files && fs.files[FramePath(folder, k)] == frames[k]
    ensures forall q | (forall k | 0 <= k < |frames| :: q != FramePath(folder, k)) ::
      (q in fs.files <==> q in old(fs.files)) && (q in fs.files ==> fs.files[q] == old(fs.files)[q])
  {
    var i := 0;
    while i < |frames|
      invariant 0 <= i <= |frames|
      invariant fs.Valid() && fs.dirs == old(fs.dirs)
      invariant forall k | 0 <= k < i && FramePath(folder, k) !in fs.dirs && ParentExists(FramePath(folder, k), fs.dirs) ::
        FramePath(folder, k) in fs.files && fs.files[FramePath(folder, k)] == frames[k]
      invariant forall q | (forall k | 0 <= k < i :: q != FramePath(folder, k)) ::
        (q in fs.files <==> q in old(fs.files)) && (q in fs.files ==> fs.files[q] == old(fs.files)[q])
    {
      forall k | 0 <= k < i ensures FramePath(folder, k) != FramePath(folder, i) {
        FramePathsApart(folder, k, i);
      }
      var written := fs.WriteFile(FramePath(folder, i), frames[i]);
      i := i + 1;
    }
  }

  /** Every frame path lies directly in an existing folder. */
  lemma FramesHaveParent(folder: string, dirs: set<string>, n: nat)
    requires Folder(folder) && folder in dirs
    ensures forall k | 0 <= k < n :: ParentExists(FramePath(folder, k), dirs)
  {
    forall k | 0 <= k < n ensures ParentExists(FramePath(folder, k), dirs) {
      ImgNameShape(k + 1);
      JoinBelow(folder, ImgName(k + 1));
      DirNameJoin(folder, ImgName(k + 1));
    }
  }

  /** Without subdirectories, a folder's entries are its files. */
  lemma EntriesAreFiles(files: map<string, seq<Byte>>, dirs: set<string>, folder: string)
    requires NoSubdirs(dirs, folder)
    ensures Entries(files, dirs, folder) == Listing(files, folder)
  {
    assert Subdirs(dirs, folder) == {};
  }

  /** Into an empty folder ffmpeg's frames land as `img-000001.jpg` onwards and nothing else appears. */
  lemma FreshOutput(before: map<string, seq<Byte>>, after: map<string, seq<Byte>>, dirs: set<string>, folder: string, frames: seq<seq<Byte>>)
    requires Folder(folder) && folder in dirs && Empty(before, dirs, folder)
    requires forall k | 0 <= k < |frames| && FramePath(folder, k) !in dirs && ParentExists(FramePath(folder, k), dirs) ::
      FramePath(folder, k) in after && after[FramePath(folder, k)] == frames[k]
    requires forall q | (forall k | 0 <= k < |frames| :: q != FramePath(folder, k)) ::
      (q in after <==> q in before) && (q in after ==> after[q] == before[q])
    ensures Holds(after, folder, ImgNames(|frames|), frames)
    ensures forall q | !StartsWith(q, folder + "/") :: (q in after <==> q in before) && (q in after ==> after[q] == before[q])
  {
    var names := ImgNames(|frames|);
    FramesHaveParent(folder, dirs, |frames|);
    forall k | 0 <= k < |frames|
      ensures StartsWith(FramePath(folder, k), folder + "/") && FramePath(folder, k)[|folder| + 1..] == names[k]
    {
      ImgNameHead(k + 1);
      JoinBelow(folder, ImgName(k + 1));
    }
    forall k | 0 <= k < |names|
      ensures Paths.Join(folder, names[k]) in after && after[Paths.Join(folder, names[k])] == frames[k]
    {
      assert Paths.Join(folder, names[k]) == FramePath(folder, k);
    }
    forall p | p in after && StartsWith(p, folder + "/") ensures p[|folder| + 1..] in names {
      if forall k | 0 <= k < |frames| :: p != FramePath(folder, k) {
        assert false;
      } else {
        var k :| 0 <= k < |frames| && p == FramePath(folder, k);
        assert p[|folder| + 1..] == names[k];
      }
    }
  }

  /** The files below a folder holding `names` are listed as those names. */
  lemma HoldsListing(files: map<string, seq<Byte>>, folder: string, names: seq<string>, data: seq<seq<Byte>>)
    requires Folder(folder) && Holds(files, folder, names, data)
    requires forall k | 0 <= k < |names| :: names[k] != "" && names[k][0] != '/' && '/' !in names[k]
    ensures Listing(files, folder) == Names(names)
  {
    forall k | 0 <= k < |names| ensures names[k] in Listing(files, folder) {
      var p := Paths.Join(folder, names[k]);
      JoinBelow(folder, names[k]);
      assert InDir(p, folder);
    }
    forall x | x in Listing(files, folder) ensures x in names {
      var p :| p in files && InDir(p, folder) && x == p[|folder| + 1..];
    }
    assert forall x | x in Names(names) :: x in names;
  }

  /** ffmpeg's name for the k-th frame among the listed names. */
  lemma ListedImg(n: nat, names: seq<string>, x: string) returns (k: nat)
    requires Names(names) == Names(ImgNames(n)) && x in names
    ensures k < n && x == ImgName(k + 1) && FrameNumber(x) == Some(k)
  {
    assert x in Names(names);
    k :| 0 <= k < n && ImgNames(n)[k] == x;
    FrameNumberOfImg(k + 1);
  }

  /** ffmpeg's name for frame `k`: it matches the glob, is a file, parses, and its target is no directory. */
  lemma ImgNameApart(k: nat, folder: string, interval: int, files: map<string, seq<Byte>>, dirs: set<string>)
    requires Folder(folder) && NoSubdirs(dirs, folder)
    requires Paths.Join(folder, ImgName(k + 1)) in files
    ensures MatchesGlob(ImgName(k + 1)) && FrameNumber(ImgName(k + 1)) == Some(k)
    ensures Target(folder, ImgName(k + 1), interval) !in dirs
  {
    ImgNameShape(k + 1);
    FrameNumberOfImg(k + 1);
    var t := NewName(k, interval);
    NewNameShape(k, interval);
    JoinBelow(folder, t);
    assert Target(folder, ImgName(k + 1), interval) == Paths.Join(folder, t);
  }

  /** ffmpeg's names each carry their own frame number. */
  lemma ImgNamesApart(n: nat, folder: string, interval: int, files: map<string, seq<Byte>>, dirs: set<string>, names: seq<string>, data: seq<seq<Byte>>)
    requires Folder(folder) && NoSubdirs(dirs, folder) && Holds(files, folder, ImgNames(n), data)
    requires Distinct(names) && Names(names) == Names(ImgNames(n))
    ensures Apart(files, dirs, folder, names, interval)
    ensures forall x | x in names :: FrameNumber(x).Some?
  {
    assert forall k | 0 <= k < n :: Paths.Join(folder, ImgNames(n)[k]) in files;
    forall x | x in names
      ensures MatchesGlob(x) && Paths.Join(folder, x) in files && FrameNumber(x).Some?
      ensures Target(folder, x, interval) !in dirs
    {
      var k := ListedImg(n, names, x);
      assert Paths.Join(folder, ImgNames(n)[k]) in files;
      ImgNameApart(k, folder, interval, files, dirs);
    }
    ImgFramesApart(n, names);
  }

  lemma ImgFramesApart(n: nat, names: seq<string>)
    requires Names(names) == Names(ImgNames(n))
    ensures forall x, y | x in names && y in names && FrameNumber(x).Some? && FrameNumber(x) == FrameNumber(y) :: x == y
  {
    forall x, y | x in names && y in names && FrameNumber(x).Some? && FrameNumber(x) == FrameNumber(y)
      ensures x == y
    {
      var a := ListedImg(n, names, x);
      var b := ListedImg(n, names, y);
      assert a == b;
      NameOfFrame(n, x, a);
      NameOfFrame(n, y, b);
    }
  }

  lemma NameOfFrame(n: nat, x: string, k: nat)
    requires k < n && x == ImgName(k + 1)
    ensures x == ImgNames(n)[k]
  {
  }

  /**
   * Renaming a listing of ffmpeg's fresh output ends without an error and
   * leaves the folder holding the same frames under their start times;
   * nothing outside the folder changes.
   */
  lemma RenameFresh(files: map<string, seq<Byte>>, dirs: set<string>, folder: string, names: seq<string>, frames: seq<seq<Byte>>, interval: int)
    requires interval != 0 && Folder(folder) && NoSubdirs(dirs, folder)
    requires Holds(files, folder, ImgNames(|frames|), frames)
    requires Distinct(names) && Names(names) == Names(ImgNames(|frames|))
    ensures var r := RenameAll(files, dirs, folder, names, interval);
      r.1 && Holds(r.0, folder, TimeNames(|frames|, interval), frames)
    ensures var r := RenameAll(files, dirs, folder, names, interval);
      forall q | !StartsWith(q, folder + "/") :: (q in r.0 <==> q in files) && (q in files ==> r.0[q] == files[q])
  {
    var n := |frames|;
    ImgNamesApart(n, folder, interval, files, dirs, names, frames);
    RenameApart(files, dirs, folder, names, interval);
    RenameInside(files, dirs, folder, names, interval);
    var r := RenameAll(files, dirs, folder, names, interval);
    assert Landed(files, r.0, folder, names, interval) && Kept(files, r.0, folder, names, interval);
    forall k | 0 <= k < n
      ensures Paths.Join(folder, TimeNames(n, interval)[k]) in r.0
      ensures r.0[Paths.Join(folder, TimeNames(n, interval)[k])] == frames[k]
    {
      LandedFrame(files, r.0, folder, names, frames, interval, k);
    }
    forall p | p in r.0 && StartsWith(p, folder + "/")
      ensures p[|folder| + 1..] in TimeNames(n, interval)
    {
      RenamedBelow(files, r.0, folder, names, frames, interval, p);
    }
  }

  /** The k-th frame sits under its start time once the renames are done. */
  lemma LandedFrame(files: map<string, seq<Byte>>, after: map<string, seq<Byte>>, folder: string, names: seq<string>, frames: seq<seq<Byte>>, interval: int, k: nat)
    requires k < |frames| && Names(names) == Names(ImgNames(|frames|))
    requires Paths.Join(folder, ImgNames(|frames|)[k]) in files && files[Paths.Join(folder, ImgNames(|frames|)[k])] == frames[k]
    requires Landed(files, after, folder, names, interval)
    ensures Paths.Join(folder, TimeNames(|frames|, interval)[k]) in after
    ensures after[Paths.Join(folder, TimeNames(|frames|, interval)[k])] == frames[k]
  {
    var x := ImgNames(|frames|)[k];
    ListedFrame(names, k, |frames|);
    LandedAt(files, after, folder, names, interval, x, k);
  }

  /** ffmpeg's k-th name is listed and carries frame number k. */
  lemma ListedFrame(names: seq<string>, k: nat, n: nat)
    requires k < n && Names(names) == Names(ImgNames(n))
    ensures ImgNames(n)[k] in names && FrameNumber(ImgNames(n)[k]) == Some(k)
  {
    var x := ImgNames(n)[k];
    assert x in Names(ImgNames(n));
    FrameNumberOfImg(k + 1);
  }

  /** Where a listed frame's bytes are once it has landed. */
  lemma LandedAt(files: map<string, seq<Byte>>, after: map<string, seq<Byte>>, folder: string, names: seq<string>, interval: int, x: string, k: nat)
    requires Landed(files, after, folder, names, interval) && x in names && FrameNumber(x) == Some(k)
    ensures Paths.Join(folder, NewName(k, interval)) in after
    ensures after[Paths.Join(folder, NewName(k, interval))] == files[Paths.Join(folder, x)]
  {
  }

  /** A file of the folder before the renames is the old name of a listed frame. */
  lemma FileBelowIsSource(files: map<string, seq<Byte>>, folder: string, names: seq<string>, n: nat, frames: seq<seq<Byte>>, p: string)
    requires Folder(folder) && Holds(files, folder, ImgNames(n), frames)
    requires Names(names) == Names(ImgNames(n))
    requires p in files && StartsWith(p, folder + "/")
    ensures p[|folder| + 1..] in names && p == Paths.Join(folder, p[|folder| + 1..])
  {
    var x := p[|folder| + 1..];
    assert x in ImgNames(n);
    var k :| 0 <= k < n && ImgNames(n)[k] == x;
    assert x in Names(ImgNames(n));
    ImgNameHead(k + 1);
    SplitBelow(p, folder);
    JoinBelow(folder, x);
  }

  /** A file below the folder after the renames is one of the renamed frames. */
  lemma RenamedBelow(files: map<string, seq<Byte>>, after: map<string, seq<Byte>>, folder: string, names: seq<string>, frames: seq<seq<Byte>>, interval: int, p: string)
    requires Folder(folder) && Holds(files, folder, ImgNames(|frames|), frames)
    requires Names(names) == Names(ImgNames(|frames|))
    requires Landed(files, after, folder, names, interval) && Kept(files, after, folder, names, interval)
    requires p in after && StartsWith(p, folder + "/")
    ensures p[|folder| + 1..] in TimeNames(|frames|, interval)
  {
    var n := |frames|;
    var x := TouchedBy(files, after, folder, names, frames, interval, p);
    var k := ListedImg(n, names, x);
    TargetName(folder, x, k, interval, p, n);
  }

  /** The renamed frame whose target a file below the folder is. */
  lemma TouchedBy(files: map<string, seq<Byte>>, after: map<string, seq<Byte>>, folder: string, names: seq<string>, frames: seq<seq<Byte>>, interval: int, p: string)
    returns (x: string)
    requires Folder(folder) && Holds(files, folder, ImgNames(|frames|), frames)
    requires Names(names) == Names(ImgNames(|frames|))
    requires Landed(files, after, folder, names, interval) && Kept(files, after, folder, names, interval)
    requires p in after && StartsWith(p, folder + "/")
    ensures x in names && FrameNumber(x).Some? && p == Target(folder, x, interval)
  {
    if p in files {
      FileBelowIsSource(files, folder, names, |frames|, frames, p);
      assert false;
    }
    x :| x in names && (p == Paths.Join(folder, x) || (FrameNumber(x).Some? && p == Target(folder, x, interval)));
  }

  lemma TargetName(folder: string, x: string, k: nat, interval: int, p: string, n: nat)
    requires Folder(folder) && StartsWith(p, folder + "/")
    requires k < n && FrameNumber(x) == Some(k) && p == Target(folder, x, interval)
    ensures p[|folder| + 1..] in TimeNames(n, interval)
  {
    NewNameShape(k, interval);
    JoinBelow(folder, NewName(k, interval));
    assert p[|folder| + 1..] == TimeNames(n, interval)[k];
  }

  // ---------------------------------------------------------------------------
  // What `generate_bif` reads back.
  // ---------------------------------------------------------------------------

  /** glob's `img*.jpg` over a listing, in listing order. */
  function GlobNames(names: seq<string>): (r: seq<string>)
    ensures forall x :: x in r <==> x in names && MatchesGlob(x)
    ensures (forall i | 0 <= i < |names| :: MatchesGlob(names[i])) ==> r == names
  {
    if names == [] then []
    else
      assert forall x :: x in names <==> x == names[0] || x in names[1..];
      (if MatchesGlob(names[0]) then [names[0]] else []) + GlobNames(names[1..])
  }

  /** `[img for img in os.listdir(path) if img.endswith('.jpg')]`. */
  function JpgNames(names: seq<string>): (r: seq<string>)
    ensures forall x :: x in r <==> x in names && EndsWith(x, ".jpg")
    ensures (forall i | 0 <= i < |names| :: EndsWith(names[i], ".jpg")) ==> r == names
  {
    if names == [] then []
    else
      assert forall x :: x in names <==> x == names[0] || x in names[1..];
      (if EndsWith(names[0], ".jpg") then [names[0]] else []) + JpgNames(names[1..])
  }

  /** The bytes of the named files of `folder`, in the order named. */
  function Images(files: map<string, seq<Byte>>, folder: string, names: seq<string>): (r: seq<seq<Byte>>)
    requires forall i | 0 <= i < |names| :: Paths.Join(folder, names[i]) in files
    ensures |r| == |names| && forall i | 0 <= i < |names| :: r[i] == files[Paths.Join(folder, names[i])]
  {
    seq(|names|, i requires 0 <= i < |names| => files[Paths.Join(folder, names[i])])
  }

  /** The renamed frames are listed once each. */
  lemma TimeNamesDistinct(n: nat, interval: int)
    requires interval != 0
    ensures Distinct(TimeNames(n, interval))
  {
    var t := TimeNames(n, interval);
    forall i, j | 0 <= i < j < n ensures t[i] != t[j] {
      if t[i] == t[j] {
        NewNameInjective(i, j, interval);
      }
    }
  }

  /** Each renamed frame is a plain `.jpg` name. */
  lemma TimeNamesShape(n: nat, interval: int)
    ensures forall k | 0 <= k < n :: var t := TimeNames(n, interval)[k];
      t != "" && t[0] != '/' && '/' !in t && EndsWith(t, ".jpg")
  {
    forall k | 0 <= k < n ensures var t := TimeNames(n, interval)[k]; t != "" && t[0] != '/' && '/' !in t && EndsWith(t, ".jpg") {
      NewNameShape(k, interval);
    }
  }

  /** Names that join onto a folder as a single `.jpg` entry of it. */
  predicate PlainJpgs(names: seq<string>) {
    forall k | 0 <= k < |names| :: names[k] != "" && names[k][0] != '/' && '/' !in names[k] && EndsWith(names[k], ".jpg")
  }

  /**
   * Listing a folder that holds exactly `names` (sorted, each once), keeping
   * the `.jpg` names and sorting them gives `names` back, whatever order the
   * listing came in; reading them gives back the data they hold.
   */
  lemma SortedHolds(files: map<string, seq<Byte>>, folder: string, listed: seq<string>, names: seq<string>, data: seq<seq<Byte>>)
    requires Folder(folder) && Holds(files, folder, names, data)
    requires Distinct(names) && Sorted(names) && PlainJpgs(names)
    requires Distinct(listed) && Names(listed) == Listing(files, folder)
    ensures Sort(JpgNames(listed)) == names
    ensures forall i | 0 <= i < |names| :: Paths.Join(folder, names[i]) in files
    ensures Images(files, folder, names) == data
  {
    HoldsListing(files, folder, names, data);
    DistinctListings(listed, names);
    forall i | 0 <= i < |listed| ensures EndsWith(listed[i], ".jpg") {
      assert listed[i] in Names(listed);
      var k :| 0 <= k < |names| && names[k] == listed[i];
    }
    assert JpgNames(listed) == listed;
    SortPermutation(listed, names);
    SortSorted(names);
    HoldsImages(files, folder, names, data);
  }

  /** The renamed frames are distinct, sorted and plain `.jpg` names. */
  lemma TimeNamesListable(n: nat, interval: int)
    requires interval > 0 && (n == 0 || (n - 1) * interval < TimestampBound)
    ensures Distinct(TimeNames(n, interval)) && Sorted(TimeNames(n, interval)) && PlainJpgs(TimeNames(n, interval))
  {
    TimeNamesShape(n, interval);
    TimeNamesDistinct(n, interval);
    TimeNamesSorted(n, interval);
  }

  /**
   * Listing a folder that holds the renamed frames, keeping the `.jpg` names
   * and sorting them gives the frames in time order, whatever order the
   * listing came in; reading them gives back ffmpeg's frames.
   */
  lemma SortedListing(files: map<string, seq<Byte>>, folder: string, listed: seq<string>, frames: seq<seq<Byte>>, interval: int)
    requires Folder(folder) && interval > 0 && (|frames| == 0 || (|frames| - 1) * interval < TimestampBound)
    requires Holds(files, folder, TimeNames(|frames|, interval), frames)
    requires Distinct(listed) && Names(listed) == Listing(files, folder)
    ensures Sort(JpgNames(listed)) == TimeNames(|frames|, interval)
    ensures forall i | 0 <= i < |frames| :: Paths.Join(folder, TimeNames(|frames|, interval)[i]) in files
    ensures Images(files, folder, TimeNames(|frames|, interval)) == frames
  {
    TimeNamesListable(|frames|, interval);
    SortedHolds(files, folder, listed, TimeNames(|frames|, interval), frames);
  }

  /** Up to 999999 frames, ffmpeg's names sort as string exactly as the frames are numbered. */
  lemma ImgNameOrder(a: nat, b: nat)
    requires a < 1000000 && b < 1000000
    ensures LexLess(ImgName(a), ImgName(b)) <==> a < b
  {
    var da, db := Decimal(a, 6), Decimal(b, 6);
    assert Pow10(6) == 1000000;
    DecimalLength(a, 6);
    DecimalLength(b, 6);
    assert ImgName(a) == "img-" + (da + ".jpg") && ImgName(b) == "img-" + (db + ".jpg");
    LexAppend("img-", "img-", da + ".jpg", db + ".jpg");
    LexIrreflexive("img-");
    LexAppend(da, db, ".jpg", ".jpg");
    LexIrreflexive(".jpg");
    DecimalOrder(a, b, 6);
  }

  /** ffmpeg's names for fewer than a million frames are distinct, sorted and plain `.jpg` names. */
  lemma ImgNamesListable(n: nat)
    requires n < 1000000
    ensures Distinct(ImgNames(n)) && Sorted(ImgNames(n)) && PlainJpgs(ImgNames(n))
  {
    var s := ImgNames(n);
    ImgNamesShape(n);
    forall i, j | 0 <= i < j < n ensures s[i] != s[j] && !LexLess(s[j], s[i]) {
      ImgNameOrder(j + 1, i + 1);
      if s[i] == s[j] {
        ImgNameInjective(i + 1, j + 1);
      }
    }
  }

  /** Reading the files a folder holds gives back their bytes. */
  lemma HoldsImages(files: map<string, seq<Byte>>, folder: string, names: seq<string>, data: seq<seq<Byte>>)
    requires Holds(files, folder, names, data)
    ensures forall i | 0 <= i < |names| :: Paths.Join(folder, names[i]) in files
    ensures Images(files, folder, names) == data
  {
  }

  /** Each of ffmpeg's names is a plain name the glob matches. */
  lemma ImgNamesShape(n: nat)
    ensures forall k | 0 <= k < n :: var x := ImgNames(n)[k];
      x != "" && x[0] != '/' && '/' !in x && MatchesGlob(x)
  {
    forall k | 0 <= k < n ensures var x := ImgNames(n)[k]; x != "" && x[0] != '/' && '/' !in x && MatchesGlob(x) {
      ImgNameShape(k + 1);
    }
  }

  /** Listing ffmpeg's fresh output finds exactly its names, and the glob keeps all of them. */
  lemma FreshListing(files: map<string, seq<Byte>>, folder: string, listed: seq<string>, frames: seq<seq<Byte>>)
    requires Folder(folder) && Holds(files, folder, ImgNames(|frames|), frames)
    requires Distinct(listed) && Names(listed) == Listing(files, folder)
    ensures Names(listed) == Names(ImgNames(|frames|))
    ensures GlobNames(listed) == listed
  {
    var n := |frames|;
    ImgNamesShape(n);
    HoldsListing(files, folder, ImgNames(n), frames);
    forall i | 0 <= i < |listed| ensures MatchesGlob(listed[i]) {
      assert listed[i] in Names(listed);
      var k :| 0 <= k < n && ImgNames(n)[k] == listed[i];
    }
  }

  /** Writing the frames changes nothing outside the folder. */
  lemma WrittenInside(before: map<string, seq<Byte>>, after: map<string, seq<Byte>>, folder: string, frames: seq<seq<Byte>>)
    requires Folder(folder)
    requires forall q | (forall k | 0 <= k < |frames| :: q != FramePath(folder, k)) ::
      (q in after <==> q in before) && (q in after ==> after[q] == before[q])
    ensures forall q | !StartsWith(q, folder + "/") :: (q in after <==> q in before) && (q in after ==> after[q] == before[q])
  {
    forall q | !StartsWith(q, folder + "/") ensures forall k | 0 <= k < |frames| :: q != FramePath(folder, k) {
      forall k | 0 <= k < |frames| ensures q != FramePath(folder, k) {
        ImgNameHead(k + 1);
        JoinBelow(folder, ImgName(k + 1));
      }
    }
  }
}
