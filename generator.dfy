/**
 * `PlexPreviewGenerator` (src/plex/generator.py): `generate_images`,
 * `generate_bif`, `process_item` and `run`, over the file system of
 * `FileSystem.FileSystem`. What the program learns from outside the file
 * system — MediaInfo, the GPU process queries, ffmpeg, the Plex library —
 * enters as values.
 */
module Generator {
  import opened Wrappers
  import opened LittleEndian
  import opened Text
  import opened Sorting
  import opened Frames
  import opened FileSystem
  import opened Rename
  import opened Output
  import Paths
  import Gpu
  import Ffmpeg
  import Bif

  /**
   * The settings the generator reads (src/config/settings.py), `os.name ==
   * 'nt'`, the path filter `sys.argv[1]` when one is given, and the text
   * `round(1 / interval, 6)` puts into the fps stage.
   */
  datatype Settings = Settings(
    interval: int,
    fps: string,
    quality: int,
    mediaRoot: string,
    tmpRoot: string,
    videosFrom: string,
    videosTo: string,
    gpuThreads: int,
    cpuThreads: int,
    ffmpegPath: string,
    windows: bool,
    fileFilter: Option<string>)

  /** What one ffmpeg run leaves: its exit code and the frames it wrote, in order. */
  datatype FfmpegRun = FfmpegRun(exitCode: int, frames: seq<seq<Byte>>)

  /**
   * The outside world as `generate_images` meets it. `mediaInfo(video)` is
   * None when `MediaInfo.parse` raises, Some(None) when the file has no
   * video track, and Some(Some(h)) when the first track's `hdr_format` is
   * `h` (None or a string). `gpuProcesses` is what gpustat (NVIDIA: command
   * lines per GPU) or amdsmi (AMD: process names per GPU) reports, None when
   * the query raises. `ffmpeg` gives the result of running a command line.
   */
  datatype World = World(
    mediaInfo: string -> Option<Option<Option<string>>>,
    gpuProcesses: Option<seq<seq<string>>>,
    ffmpeg: seq<string> -> FfmpegRun)

  /** `generate_images` queries the GPU's processes for NVIDIA and for an AMD device. */
  predicate NeedsQuery(gpu: Option<string>) {
    Gpu.IsNvidia(gpu) || Gpu.IsAmd(gpu)
  }

  /** The process lists the admission rule sees: none are queried on the CPU path. */
  function Processes(gpu: Option<string>, w: World): seq<seq<string>> {
    if NeedsQuery(gpu) && w.gpuProcesses.Some? then w.gpuProcesses.value else []
  }

  /** `generate_images` gets as far as running ffmpeg: MediaInfo parses, 1 / interval exists, the GPU query answers. */
  predicate Runs(video: string, gpu: Option<string>, s: Settings, w: World) {
    w.mediaInfo(video).Some? && s.interval != 0 && (NeedsQuery(gpu) ==> w.gpuProcesses.Some?)
  }

  /**
   * The ffmpeg command line `generate_images` runs for `video`: the base list
   * with the filter chosen by MediaInfo's HDR answer, rewritten for NVIDIA
   * (`-hwaccel cuda` at 5) or for an AMD device (the VAAPI flags appended and
   * the filter after the first `-vf` rewritten) when the admission rule lets
   * the GPU in.
   */
  function Command(video: string, folder: string, gpu: Option<string>, s: Settings, w: World): seq<string>
    requires w.mediaInfo(video).Some?
  {
    var vf := Ffmpeg.Filter(s.fps, Ffmpeg.IsHdr(w.mediaInfo(video).value));
    var base := Ffmpeg.BaseArgs(s.ffmpegPath, video, s.quality, vf, folder);
    if !(NeedsQuery(gpu) && Gpu.Admit(Ffmpeg.Contention(gpu, Processes(gpu, w)), s.gpuThreads, s.cpuThreads)) then
      base
    else if Gpu.IsNvidia(gpu) then
      Ffmpeg.Insert(Ffmpeg.Insert(base, 5, "-hwaccel"), 6, "cuda")
    else
      var a := base + Ffmpeg.VaapiFlags(gpu.value);
      assert a[14] == "-vf";
      a[Ffmpeg.IndexOf(a, "-vf") + 1 := ReplaceAll(vf, Ffmpeg.ScaleFilter, Ffmpeg.VaapiScaleFilter)]
  }

  /**
   * Where MediaInfo's HDR answer shows in the command line: the filter
   * follows `-vf`, at 15 on the CPU path and at 17 once NVIDIA's two
   * arguments are inserted; for AMD the list ends with the VAAPI flags and
   * holds that filter rewritten for VAAPI.
   */
  lemma CommandFilter(video: string, folder: string, gpu: Option<string>, s: Settings, w: World)
    requires w.mediaInfo(video).Some?
    ensures var vf := Ffmpeg.Filter(s.fps, Ffmpeg.IsHdr(w.mediaInfo(video).value));
      var args := Command(video, folder, gpu, s, w);
      var admitted := NeedsQuery(gpu) && Gpu.Admit(Ffmpeg.Contention(gpu, Processes(gpu, w)), s.gpuThreads, s.cpuThreads);
      && (!admitted ==> |args| == 17 && args[14] == "-vf" && args[15] == vf)
      && (admitted && Gpu.IsNvidia(gpu) ==> |args| == 19 && args[16] == "-vf" && args[17] == vf)
      && (admitted && !Gpu.IsNvidia(gpu) ==>
            |args| == 21 && args[17..] == Ffmpeg.VaapiFlags(gpu.value)
            && ReplaceAll(vf, Ffmpeg.ScaleFilter, Ffmpeg.VaapiScaleFilter) in args)
  {
    var vf := Ffmpeg.Filter(s.fps, Ffmpeg.IsHdr(w.mediaInfo(video).value));
    var base := Ffmpeg.BaseArgs(s.ffmpegPath, video, s.quality, vf, folder);
    if NeedsQuery(gpu) && !Gpu.IsNvidia(gpu) {
      var a := base + Ffmpeg.VaapiFlags(gpu.value);
      assert a[14] == "-vf";
      var i := Ffmpeg.IndexOf(a, "-vf");
      assert i + 1 < 17;
      if Gpu.Admit(Ffmpeg.Contention(gpu, Processes(gpu, w)), s.gpuThreads, s.cpuThreads) {
        assert Command(video, folder, gpu, s, w)[i + 1] == ReplaceAll(vf, Ffmpeg.ScaleFilter, Ffmpeg.VaapiScaleFilter);
      }
    }
  }

  /** Nothing outside `folder` differs between `before` and `after`. */
  ghost predicate SameOutside(before: map<string, seq<Byte>>, after: map<string, seq<Byte>>, folder: string) {
    forall q | !StartsWith(q, folder + "/") :: (q in after <==> q in before) && (q in after ==> after[q] == before[q])
  }

  // ---------------------------------------------------------------------------
  // generate_images
  // ---------------------------------------------------------------------------

  /**
   * `generate_images(video, folder, gpu)`. `ok` is false where the source
   * raises: MediaInfo fails, the interval is 0, the GPU query fails, or a
   * rename fails. A non-zero ffmpeg exit only returns, so `ok` is then true
   * and the frames keep ffmpeg's names. `args` is the command line run and
   * `hwAccel` whether it asks for the GPU.
   */
  method GenerateImages(fs: FileSystem, video: string, folder: string, gpu: Option<string>, s: Settings, w: World)
    returns (ok: bool, args: seq<string>, hwAccel: bool)
    requires fs.Valid()
    modifies fs
    ensures fs.Valid() && fs.dirs == old(fs.dirs)
    ensures !Runs(video, gpu, s, w) ==> !ok && fs.files == old(fs.files)
    ensures Runs(video, gpu, s, w) ==>
      hwAccel == (NeedsQuery(gpu) && Gpu.Admit(Ffmpeg.Contention(gpu, Processes(gpu, w)), s.gpuThreads, s.cpuThreads))
    ensures Runs(video, gpu, s, w) ==> args == Command(video, folder, gpu, s, w)
    ensures !Runs(video, gpu, s, w) ==> args == []
    ensures Folder(folder) ==> SameOutside(old(fs.files), fs.files, folder)
    ensures Runs(video, gpu, s, w) && Folder(folder) && folder in old(fs.dirs) && Empty(old(fs.files), old(fs.dirs), folder) ==>
      var run := w.ffmpeg(args);
      ok && Holds(fs.files, folder, if run.exitCode == 0 then TimeNames(|run.frames|, s.interval) else ImgNames(|run.frames|), run.frames)
  {
    args, hwAccel := [], false;
    var info := w.mediaInfo(video);
    if info.None? || s.interval == 0 {
      return false, args, hwAccel;
    }
    var vf := Ffmpeg.Filter(s.fps, Ffmpeg.IsHdr(info.value));
    var processes: seq<seq<string>> := [];
    if NeedsQuery(gpu) {
      if w.gpuProcesses.None? {
        return false, args, hwAccel;
      }
      processes := w.gpuProcesses.value;
    }
    args, hwAccel := Ffmpeg.BuildArgs(s.ffmpegPath, video, folder, s.quality, vf, gpu, processes, s.gpuThreads, s.cpuThreads);
    var run := w.ffmpeg(args);
    ok := PlaceFrames(fs, folder, run, s.interval);
  }

  /**
   * What follows the ffmpeg run in `generate_images`: ffmpeg's frames land in
   * the folder under `img-%06d.jpg` names; after a non-zero exit the method
   * returns, otherwise each `img*.jpg` name is renamed after its timestamp.
   * `ok` is false where a rename raised.
   */
  method PlaceFrames(fs: FileSystem, folder: string, run: FfmpegRun, interval: int) returns (ok: bool)
    requires fs.Valid() && interval != 0
    modifies fs
    ensures fs.Valid() && fs.dirs == old(fs.dirs)
    ensures run.exitCode != 0 ==> ok
    ensures Folder(folder) ==> SameOutside(old(fs.files), fs.files, folder)
    ensures Folder(folder) && folder in old(fs.dirs) && Empty(old(fs.files), old(fs.dirs), folder) ==>
      ok && Holds(fs.files, folder, if run.exitCode == 0 then TimeNames(|run.frames|, interval) else ImgNames(|run.frames|), run.frames)
  {
    ghost var before := fs.files;
    WriteFrames(fs, folder, run.frames);
    ghost var written := fs.files;
    if Folder(folder) {
      WrittenInside(before, written, folder, run.frames);
      if folder in fs.dirs && Empty(before, fs.dirs, folder) {
        FreshOutput(before, written, fs.dirs, folder, run.frames);
      }
    }
    if run.exitCode != 0 {
      return true;
    }
    var listed := fs.ListDir(folder);
    var names := GlobNames(listed);
    ok := RenameFrames(fs, folder, names, interval);
    if Folder(folder) {
      RenameInside(written, fs.dirs, folder, names, interval);
      if folder in fs.dirs && Empty(before, fs.dirs, folder) {
        EntriesAreFiles(written, fs.dirs, folder);
        FreshListing(written, folder, listed, run.frames);
        RenameFresh(written, fs.dirs, folder, names, run.frames, interval);
      }
    }
  }


  // ---------------------------------------------------------------------------
  // generate_bif
  // ---------------------------------------------------------------------------

  /** The files once `open(p, "wb")` has truncated `p`. */
  function Truncated(files: map<string, seq<Byte>>, p: string): (r: map<string, seq<Byte>>)
    ensures p in r && r[p] == []
    ensures forall q | q != p :: (q in r <==> q in files) && (q in r ==> r[q] == files[q])
  {
    files[p := []]
  }

  /**
   * `generate_bif(bif, folder)`: lists the folder, keeps the `.jpg` names and
   * sorts them, opens the BIF for writing, reads each image and writes the
   * BIF of those images. `listed` is the listing it got, subdirectories
   * included. `ok` is false where the source raises: the folder is not a
   * directory, the BIF cannot be opened for writing (its path is empty or a
   * directory, or its directory is missing), a listed `.jpg` name is not a
   * file, or a field does not fit its u32. The BIF is the file the source
   * writes, with its 56 bytes of padding (`Bif.BifAsWritten`).
   */
  method GenerateBif(fs: FileSystem, bif: string, folder: string, interval: int) returns (ok: bool, listed: seq<string>)
    requires fs.Valid()
    modifies fs
    ensures fs.Valid() && fs.dirs == old(fs.dirs)
    ensures folder in old(fs.dirs) ==> Distinct(listed) && Names(listed) == Entries(old(fs.files), old(fs.dirs), folder)
    ensures var names := Sort(JpgNames(listed)); var start := Truncated(old(fs.files), bif);
      ok <==> (folder in old(fs.dirs) && bif != "" && bif !in old(fs.dirs) && ParentExists(bif, old(fs.dirs))
        && (forall i | 0 <= i < |names| :: Paths.Join(folder, names[i]) in start)
        && Bif.Encodable(interval, Images(start, folder, names)))
    ensures var names := Sort(JpgNames(listed)); var start := Truncated(old(fs.files), bif);
      ok ==> fs.files == start[bif := Bif.BifAsWritten(interval, Images(start, folder, names))]
    ensures !ok ==> fs.files == old(fs.files) || fs.files == Truncated(old(fs.files), bif)
  {
    listed := [];
    if folder !in fs.dirs {
      return false, listed;
    }
    listed := fs.ListDir(folder);
    var names := Sort(JpgNames(listed));
    var created := fs.WriteFile(bif, []);
    if !created {
      return false, listed;
    }
    var images: seq<seq<Byte>> := [];
    var i := 0;
    while i < |names|
      invariant 0 <= i <= |names|
      invariant fs.Valid() && fs.dirs == old(fs.dirs) && fs.files == Truncated(old(fs.files), bif)
      invariant forall j | 0 <= j < i :: Paths.Join(folder, names[j]) in fs.files
      invariant |images| == i && forall j | 0 <= j < i :: images[j] == fs.files[Paths.Join(folder, names[j])]
    {
      var p := Paths.Join(folder, names[i]);
      if p !in fs.files {
        return false, listed;
      }
      images := images + [fs.files[p]];
      i := i + 1;
    }
    assert images == Images(fs.files, folder, names);
    var data := Bif.WriteBif(interval, images, Bif.AsWrittenPadding);
    if data.None? {
      return false, listed;
    }
    ok := fs.WriteFile(bif, data.value);
  }
}
