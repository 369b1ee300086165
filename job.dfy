/**
 * `process_item` (src/plex/generator.py:220-273): the media parts of one
 * Plex item, each taken through the skip rules, the existing-BIF gate, frame
 * generation, BIF writing and the removal of its temporary folder. The Plex
 * query `<key>/tree` enters as the list of parts it returns.
 */
module Job {
  import opened Wrappers
  import opened LittleEndian
  import opened Text
  import opened Sorting
  import opened Frames
  import opened FileSystem
  import opened Output
  import opened Generator
  import Paths
  import Bif

  /** A `MediaPart` element's `hash` and `file` attributes, each possibly missing. */
  datatype MediaPart = MediaPart(hash: Option<string>, file: Option<string>)

  /** How the loop body of `process_item` ended for one media part. */
  datatype Step =
    | NoHash        // no `hash` attribute: `continue`
    | Filtered      // the command-line filter does not occur in `file`: `continue`
    | NoMediaFile   // the remapped media file is not a file: `continue`
    | EmptyHash     // `hash[0]` raised IndexError: `continue`
    | BifExists     // `index-sd.bif` is already a file: nothing to do
    | ImagesFailed  // generate_images raised: tmp removed, `continue`
    | BifFailed     // generate_bif raised: partial BIF removed, tmp removed, `continue`
    | Generated     // generate_bif returned: tmp removed
    | Raised        // an exception left process_item
  {
    /** The part was passed over before anything was created. */
    predicate IsSkip() {
      NoHash? || Filtered? || NoMediaFile? || EmptyHash? || BifExists?
    }

    /** The part went through frame generation. */
    predicate IsAttempt() {
      ImagesFailed? || BifFailed? || Generated?
    }
  }

  /** The media file: `file` with the video path prefix remapped (every occurrence), then sanitized. */
  function MediaFile(part: MediaPart, s: Settings): string
    requires part.file.Some?
  {
    Paths.Sanitize(ReplaceAll(part.file.value, s.videosFrom, s.videosTo), s.windows)
  }

  /** `sys.argv[1] in file` when a filter is given. */
  predicate PassesFilter(part: MediaPart, s: Settings)
    requires part.file.Some?
  {
    s.fileFilter.None? || Contains(part.file.value, s.fileFilter.value)
  }

  /** The bundle, indexes, BIF and temporary paths of a part with a hash. */
  function PartPaths(part: MediaPart, s: Settings): Option<Paths.ItemPaths>
    requires part.hash.Some?
  {
    Paths.DerivePaths(part.hash.value, s.mediaRoot, s.tmpRoot, s.windows)
  }

  /**
   * Whether `process_item` passes over the part, with `files` the files on
   * disk: no hash; or a `file` attribute that fails the filter, names no
   * file, comes with an empty hash, or whose BIF already exists.
   */
  predicate Skips(part: MediaPart, s: Settings, files: map<string, seq<Byte>>) {
    || part.hash.None?
    || (part.file.Some?
        && (!PassesFilter(part, s) || MediaFile(part, s) !in files
            || PartPaths(part, s).None? || PartPaths(part, s).value.indexBif in files))
  }

  /** A plain temporary folder that neither the BIF nor its directory lies in. */
  predicate Separate(p: Paths.ItemPaths) {
    Folder(p.tmp) && !Under(p.indexes, p.tmp) && !Under(p.indexBif, p.tmp)
  }

  /**
   * The names the frames of `run` have when `generate_bif` lists them: start
   * times after a successful run, ffmpeg's own names after a failed one.
   */
  function RunNames(run: FfmpegRun, interval: int): seq<string> {
    if run.exitCode == 0 then TimeNames(|run.frames|, interval) else ImgNames(|run.frames|)
  }

  /**
   * Sorting those names puts the frames in frame order: start times must
   * fit ten digits, ffmpeg's ordinals six.
   */
  predicate InOrder(run: FfmpegRun, interval: int) {
    if run.exitCode == 0 then |run.frames| == 0 || (|run.frames| - 1) * interval < TimestampBound
    else |run.frames| < 1000000
  }

  /**
   * The loop body of `process_item` for one media part. `args` is the
   * ffmpeg command line run for it, empty when none was.
   */
  method ProcessPart(fs: FileSystem, part: MediaPart, gpu: Option<string>, s: Settings, w: World)
    returns (step: Step, args: seq<string>)
    requires fs.Valid()
    modifies fs
    ensures fs.Valid()
    // The skip rules, and the existing-BIF gate: nothing is created or removed.
    ensures step.IsSkip() <==> Skips(part, s, old(fs.files))
    ensures step == NoHash <==> part.hash.None?
    ensures step == Filtered <==> part.hash.Some? && part.file.Some? && !PassesFilter(part, s)
    ensures step.IsSkip() ==> fs.files == old(fs.files) && fs.dirs == old(fs.dirs)
    ensures part.hash.Some? && part.file.None? ==> step == Raised && fs.files == old(fs.files) && fs.dirs == old(fs.dirs)
    ensures step.IsAttempt() ==> part.hash.Some? && part.file.Some? && PartPaths(part, s).Some?
    // No command line is run for a skipped part; any other is the one generate_images builds
    // for the media file and the temporary folder.
    ensures step.IsSkip() ==> args == []
    ensures args == [] || (part.file.Some? && PartPaths(part, s).Some? && Runs(MediaFile(part, s), gpu, s, w)
      && args == Command(MediaFile(part, s), PartPaths(part, s).value.tmp, gpu, s, w))
    ensures step.IsAttempt() && Runs(MediaFile(part, s), gpu, s, w) ==>
      args == Command(MediaFile(part, s), PartPaths(part, s).value.tmp, gpu, s, w)
    // Every generation path ends without the temporary folder.
    ensures step.IsAttempt() ==> var tmp := PartPaths(part, s).value.tmp;
      tmp !in fs.dirs && forall q | q in fs.files :: !Under(q, tmp)
    // A failed generate_images leaves no BIF; a failed generate_bif leaves nothing at the BIF path.
    ensures step.ImagesFailed? && Folder(PartPaths(part, s).value.tmp) ==>
      PartPaths(part, s).value.indexBif !in fs.files
    ensures step.BifFailed? ==>
      PartPaths(part, s).value.indexBif !in fs.files && PartPaths(part, s).value.indexBif !in fs.dirs
    // Once generated, the part is skipped the next time.
    ensures step.Generated? && Separate(PartPaths(part, s).value) && !Under(MediaFile(part, s), PartPaths(part, s).value.tmp) ==>
      Skips(part, s, fs.files)
    // Into an empty temporary folder, the BIF holds ffmpeg's frames in frame order.
    ensures (step.Generated? && Separate(PartPaths(part, s).value)
      && Empty(old(fs.files), old(fs.dirs), PartPaths(part, s).value.tmp) && InOrder(w.ffmpeg(args), s.interval)) ==>
      var bif := PartPaths(part, s).value.indexBif;
      bif in fs.files && Bif.Encodable(s.interval, w.ffmpeg(args).frames)
      && fs.files[bif] == Bif.BifAsWritten(s.interval, w.ffmpeg(args).frames)
  {
    args := [];
    if part.hash.None? {
      return NoHash, args;
    }
    if part.file.None? {
      return Raised, args;
    }
    if !PassesFilter(part, s) {
      return Filtered, args;
    }
    var mediaFile := MediaFile(part, s);
    if !fs.IsFile(mediaFile) {
      return NoMediaFile, args;
    }
    var paths := PartPaths(part, s);
    if paths.None? {
      return EmptyHash, args;
    }
    var p := paths.value;
    if fs.IsFile(p.indexBif) {
      return BifExists, args;
    }
    step, args := Generate(fs, mediaFile, p, gpu, s, w);
  }

  /**
   * The body of `if not os.path.isfile(index_bif)`: create the indexes and
   * temporary folders, generate the frames (removing the temporary folder
   * when that raises), then write the BIF and clean up.
   */
  method Generate(fs: FileSystem, mediaFile: string, p: Paths.ItemPaths, gpu: Option<string>, s: Settings, w: World)
    returns (step: Step, args: seq<string>)
    requires fs.Valid() && mediaFile in fs.files && p.indexBif !in fs.files
    modifies fs
    ensures fs.Valid()
    ensures step.IsAttempt() || step.Raised?
    // Any command line run is the one generate_images builds; an attempt runs it whenever generate_images gets that far.
    ensures args == [] || (Runs(mediaFile, gpu, s, w) && args == Command(mediaFile, p.tmp, gpu, s, w))
    ensures step.IsAttempt() && Runs(mediaFile, gpu, s, w) ==> args == Command(mediaFile, p.tmp, gpu, s, w)
    ensures step.IsAttempt() ==> p.tmp !in fs.dirs && forall q | q in fs.files :: !Under(q, p.tmp)
    ensures step.ImagesFailed? && Folder(p.tmp) ==> p.indexBif !in fs.files
    ensures step.BifFailed? ==> p.indexBif !in fs.files && p.indexBif !in fs.dirs
    ensures step.Generated? && Separate(p) && !Under(mediaFile, p.tmp) ==> mediaFile in fs.files && p.indexBif in fs.files
    ensures (step.Generated? && Separate(p) && Empty(old(fs.files), old(fs.dirs), p.tmp) && InOrder(w.ffmpeg(args), s.interval)) ==>
      && p.indexBif in fs.files && Bif.Encodable(s.interval, w.ffmpeg(args).frames)
      && fs.files[p.indexBif] == Bif.BifAsWritten(s.interval, w.ffmpeg(args).frames)
  {
    args := [];
    ghost var files0, dirs0 := fs.files, fs.dirs;
    var madeIndexes := fs.MakeDirs(p.indexes);
    if !madeIndexes {
      return Raised, args;
    }
    ghost var dirs1 := fs.dirs;
    var madeTmp := fs.MakeDirs(p.tmp);
    if !madeTmp {
      return Raised, args;
    }
    if Separate(p) && Empty(files0, dirs0, p.tmp) {
      MadeDirsKeepEmpty(dirs0, p.indexes, p.tmp);
      MadeDirsKeepEmpty(dirs1, p.tmp, p.tmp);
    }
    step, args := Attempt(fs, mediaFile, p, gpu, s, w);
  }

  /**
   * Generation once both folders exist: `generate_images` (removing the
   * temporary folder when it raises), then `generate_bif` and the clean-up.
   * `args` is the command line `generate_images` ran.
   */
  method Attempt(fs: FileSystem, mediaFile: string, p: Paths.ItemPaths, gpu: Option<string>, s: Settings, w: World)
    returns (step: Step, args: seq<string>)
    requires fs.Valid() && mediaFile in fs.files && p.indexBif !in fs.files && p.tmp in fs.dirs
    modifies fs
    ensures fs.Valid() && (step.IsAttempt() || step.Raised?)
    ensures Runs(mediaFile, gpu, s, w) ==> args == Command(mediaFile, p.tmp, gpu, s, w)
    ensures !Runs(mediaFile, gpu, s, w) ==> args == []
    ensures p.tmp !in fs.dirs && forall q | q in fs.files :: !Under(q, p.tmp)
    ensures step.ImagesFailed? && Folder(p.tmp) ==> p.indexBif !in fs.files
    ensures step.BifFailed? ==> p.indexBif !in fs.files && p.indexBif !in fs.dirs
    ensures step.Generated? && Separate(p) && !Under(mediaFile, p.tmp) ==> mediaFile in fs.files && p.indexBif in fs.files
    ensures (step.Generated? && Separate(p) && Empty(old(fs.files), old(fs.dirs), p.tmp) && InOrder(w.ffmpeg(args), s.interval)) ==>
      && p.indexBif in fs.files && Bif.Encodable(s.interval, w.ffmpeg(args).frames)
      && fs.files[p.indexBif] == Bif.BifAsWritten(s.interval, w.ffmpeg(args).frames)
  {
    ghost var files0, dirs0 := fs.files, fs.dirs;
    var imagesOk, hwAccel;
    imagesOk, args, hwAccel := GenerateImages(fs, mediaFile, p.tmp, gpu, s, w);
    if !imagesOk {
      fs.RemoveTree(p.tmp);
      return ImagesFailed, args;
    }
    ghost var run := w.ffmpeg(args);
    ghost var ordered := Separate(p) && Empty(files0, dirs0, p.tmp) && InOrder(run, s.interval) && s.interval > 0;
    if ordered {
      RunListable(run, s.interval);
    }
    step := WriteAndClean(fs, p, s.interval, ordered, RunNames(run, s.interval), run.frames);
    if step.Generated? && Separate(p) && Empty(files0, dirs0, p.tmp) && InOrder(run, s.interval) {
      assert s.interval > 0;
    }
  }

  /**
   * The two `try` blocks around `generate_bif`: on failure the BIF is
   * removed if it exists (`os.remove` raises on a directory); in every case
   * the temporary folder is removed. When the folder holds exactly `names`
   * (and `ordered` says they are listable), the BIF holds `frames`.
   */
  method WriteAndClean(fs: FileSystem, p: Paths.ItemPaths, interval: int,
                       ghost ordered: bool, ghost names: seq<string>, ghost frames: seq<seq<Byte>>)
    returns (step: Step)
    requires fs.Valid() && p.tmp in fs.dirs
    requires ordered ==>
      Separate(p) && NoSubdirs(fs.dirs, p.tmp) && Holds(fs.files, p.tmp, names, frames)
      && Distinct(names) && Sorted(names) && PlainJpgs(names)
    modifies fs
    ensures fs.Valid()
    ensures step.BifFailed? || step.Generated? || step.Raised?
    ensures p.tmp !in fs.dirs && forall q | q in fs.files :: !Under(q, p.tmp)
    ensures step.BifFailed? ==> p.indexBif !in fs.files && p.indexBif !in fs.dirs
    ensures forall q | q in old(fs.files) && !Under(q, p.tmp) && q != p.indexBif :: q in fs.files
    ensures step.Generated? && !Under(p.indexBif, p.tmp) ==> p.indexBif in fs.files
    ensures step.Generated? ==> interval >= 0
    ensures step.Generated? && ordered ==>
      p.indexBif in fs.files && Bif.Encodable(interval, frames) && fs.files[p.indexBif] == Bif.BifAsWritten(interval, frames)
  {
    ghost var files0, dirs0 := fs.files, fs.dirs;
    var bifOk, listed := GenerateBif(fs, p.indexBif, p.tmp, interval);
    if !bifOk {
      if fs.Exists(p.indexBif) {
        var removed := fs.Remove(p.indexBif);
        if !removed {
          fs.RemoveTree(p.tmp);
          return Raised;
        }
      }
      fs.RemoveTree(p.tmp);
      return BifFailed;
    }
    if ordered {
      EntriesAreFiles(files0, dirs0, p.tmp);
      FramesForBif(files0, p.tmp, p.indexBif, listed, names, frames);
    }
    fs.RemoveTree(p.tmp);
    return Generated;
  }

  /** Prefixes chain: a path starting with `a`, where `a` starts with `t`, starts with `t`. */
  lemma PrefixChain(p: string, a: string, t: string)
    requires StartsWith(p, a) && StartsWith(a, t)
    ensures StartsWith(p, t)
  {
    assert p[..|t|] == p[..|a|][..|t|];
  }

  /** `os.makedirs(p)` creates nothing below a folder that `p` does not lie below. */
  lemma MadeDirsKeepEmpty(dirs: set<string>, p: string, tmp: string)
    requires NoSubdirs(dirs, tmp) && !StartsWith(p, tmp + "/")
    ensures NoSubdirs(dirs + {p} + Ancestors(p), tmp)
  {
    forall a | a in Ancestors(p) ensures !StartsWith(a, tmp + "/") {
    }
  }

  /** The names the frames have are listable: each once, sorted, plain `.jpg` names. */
  lemma RunListable(run: FfmpegRun, interval: int)
    requires interval > 0 && InOrder(run, interval)
    ensures Distinct(RunNames(run, interval)) && Sorted(RunNames(run, interval)) && PlainJpgs(RunNames(run, interval))
  {
    if run.exitCode == 0 {
      TimeNamesListable(|run.frames|, interval);
    } else {
      ImgNamesListable(|run.frames|);
    }
  }

  /**
   * `generate_bif` on a folder holding exactly `names`, with the BIF outside
   * the folder: truncating the BIF leaves the frames, and sorting the
   * listing reads them back in order.
   */
  lemma FramesForBif(files: map<string, seq<Byte>>, tmp: string, bif: string, listed: seq<string>, names: seq<string>, frames: seq<seq<Byte>>)
    requires Folder(tmp) && !StartsWith(bif, tmp + "/")
    requires Holds(files, tmp, names, frames) && Distinct(names) && Sorted(names) && PlainJpgs(names)
    requires Distinct(listed) && Names(listed) == Listing(files, tmp)
    ensures var sorted := Sort(JpgNames(listed)); var start := Truncated(files, bif);
      sorted == names && (forall i | 0 <= i < |sorted| :: Paths.Join(tmp, sorted[i]) in start)
      && Images(start, tmp, sorted) == frames
  {
    SortedHolds(files, tmp, listed, names, frames);
    forall i | 0 <= i < |names| ensures Paths.Join(tmp, names[i]) != bif {
      JoinBelow(tmp, names[i]);
    }
  }

  /**
   * `process_item(item_key, gpu)`: the media parts the tree query returns,
   * in order, until an exception leaves the method (`ok` false). `tree` is
   * None when the query itself raises. `steps` holds each part's ending.
   */
  method ProcessItem(fs: FileSystem, tree: Option<seq<MediaPart>>, gpu: Option<string>, s: Settings, w: World)
    returns (ok: bool, steps: seq<Step>)
    requires fs.Valid()
    modifies fs
    ensures fs.Valid()
    ensures tree.None? ==> !ok && steps == [] && fs.files == old(fs.files) && fs.dirs == old(fs.dirs)
    // One step per part until the first exception, which ends the item.
    ensures tree.Some? ==> |steps| <= |tree.value| && (ok ==> |steps| == |tree.value|) && (!ok ==> |steps| > 0)
    ensures forall i | 0 <= i < |steps| :: steps[i].Raised? <==> (i == |steps| - 1 && !ok)
    // Each step belongs to the part at its position: the attribute checks decide the same way for every part.
    ensures tree.Some? ==> forall i | 0 <= i < |steps| ::
      && (steps[i] == NoHash <==> tree.value[i].hash.None?)
      && (steps[i] == Filtered <==> tree.value[i].hash.Some? && tree.value[i].file.Some? && !PassesFilter(tree.value[i], s))
      && (tree.value[i].hash.Some? && tree.value[i].file.None? ==> steps[i] == Raised)
      && (steps[i].IsAttempt() ==> tree.value[i].hash.Some? && tree.value[i].file.Some? && PartPaths(tree.value[i], s).Some?)
    // Running over parts that all skip creates and removes nothing.
    ensures tree.Some? && (forall i | 0 <= i < |tree.value| :: Skips(tree.value[i], s, old(fs.files))) ==>
      ok && fs.files == old(fs.files) && fs.dirs == old(fs.dirs) && forall i | 0 <= i < |steps| :: steps[i].IsSkip()
  {
    steps := [];
    if tree.None? {
      return false, steps;
    }
    var parts := tree.value;
    ghost var allSkip := forall i | 0 <= i < |parts| :: Skips(parts[i], s, fs.files);
    var i := 0;
    while i < |parts|
      invariant 0 <= i <= |parts| && |steps| == i
      invariant fs.Valid()
      invariant forall j | 0 <= j < i :: !steps[j].Raised?
      invariant forall j | 0 <= j < i ::
        && (steps[j] == NoHash <==> parts[j].hash.None?)
        && (steps[j] == Filtered <==> parts[j].hash.Some? && parts[j].file.Some? && !PassesFilter(parts[j], s))
        && (parts[j].hash.Some? && parts[j].file.None? ==> steps[j] == Raised)
        && (steps[j].IsAttempt() ==> parts[j].hash.Some? && parts[j].file.Some? && PartPaths(parts[j], s).Some?)
      invariant allSkip ==> fs.files == old(fs.files) && fs.dirs == old(fs.dirs) && forall j | 0 <= j < i :: steps[j].IsSkip()
    {
      var step, args := ProcessPart(fs, parts[i], gpu, s, w);
      steps := steps + [step];
      if step.Raised? {
        return false, steps;
      }
      i := i + 1;
    }
    return true, steps;
  }
}
