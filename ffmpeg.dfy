/**
 * The ffmpeg command line `generate_images` builds
 * (src/plex/generator.py:107-151): the SDR or HDR filter chain, the base
 * argument list, and the changes the GPU admission rule makes to it. The fps
 * fragment `round(1 / interval, 6)` is a float and enters as an opaque string.
 */
module Ffmpeg {
  import opened Wrappers
  import opened Text
  import opened Gpu

  const ScaleFilter: string := "scale=w=" + "320:h=240:force_original_aspect_ratio=decrease"
  const VaapiScaleFilter: string := "format=nv12|vaapi,hwupload,scale_vaapi=w=320:h=240:force_original_aspect_ratio=decrease"

  /**
   * The HDR tone-mapping stages, between the fps stage and the scale stage,
   * written in pieces split around each `s`.
   */
  const HdrChain: string :=
    "z" + "scale=t" + "=linear:npl=100,format=gbrpf32le,z" + "scale=p" + "=bt709,tonemap=tonemap=hable:de"
    + "sat=0,z" + "scale=t" + "=bt709:m=bt709:r=tv,format=yuv420p,"

  /**
   * HDR when the file has a video track and the first one's `hdr_format` is
   * neither None nor the string "None". `firstTrack` is None when MediaInfo
   * lists no video track, and otherwise holds that track's `hdr_format`.
   */
  predicate IsHdr(firstTrack: Option<Option<string>>) {
    firstTrack.Some? && firstTrack.value.Some? && firstTrack.value.value != "None"
  }

  /** `vf_parameters` before any GPU adjustment. */
  function Filter(fps: string, hdr: bool): (r: string)
    ensures EndsWith(r, ScaleFilter) && StartsWith(r, "fps=fps=" + fps + ",")
  {
    var head := "fps=fps=" + fps + ",";
    var r := head + (if hdr then HdrChain else "") + ScaleFilter;
    assert r[..|head|] == head;
    assert r[|r| - |ScaleFilter|..] == ScaleFilter;
    r
  }

  /** The argument list as first built: 17 strings, the filter after `-vf`, the output pattern last. */
  function BaseArgs(ffmpegPath: string, video: string, quality: int, vf: string, folder: string): (r: seq<string>)
    ensures |r| == 17 && r[7] == "-i" && r[8] == video && r[14] == "-vf" && r[15] == vf
    ensures r[16] == folder + "/img-%06d.jpg"
  {
    [ffmpegPath, "-loglevel", "info", "-skip_frame:v", "nokey",
     "-threads:0", "1", "-i", video, "-an", "-sn", "-dn",
     "-q:v", FormatInt(quality),
     "-vf", vf,
     folder + "/img-%06d.jpg"]
  }

  /** Python `list.insert(i, x)` for an index within the list. */
  function Insert(s: seq<string>, i: nat, x: string): (r: seq<string>)
    requires i <= |s|
    ensures |r| == |s| + 1 && r[i] == x
    ensures forall k | 0 <= k < i :: r[k] == s[k]
    ensures forall k | i < k < |r| :: r[k] == s[k - 1]
  {
    s[..i] + [x] + s[i..]
  }

  /** Python `list.index(x)`: the first position holding `x`. */
  function IndexOf(s: seq<string>, x: string): (r: nat)
    requires x in s
    ensures r < |s| && s[r] == x && forall k | 0 <= k < r :: s[k] != x
    ensures forall k | 0 <= k < |s| && s[k] == x :: r <= k
  {
    if s[0] == x then 0 else 1 + IndexOf(s[1..], x)
  }

  function VaapiFlags(device: string): seq<string> {
    ["-hwaccel", "vaapi", "-vaapi_device", device]
  }

  /** The contention count the admission rule reads for this GPU. */
  function Contention(gpu: Option<string>, processes: seq<seq<string>>): nat {
    if IsNvidia(gpu) then NvidiaCount(processes) else |AmdOver(processes, |processes|)|
  }

  /**
   * Builds `args` as `generate_images` does, mutating the list in place:
   * for NVIDIA, when admitted, `-hwaccel cuda` is inserted at index 5; for an
   * AMD device, when admitted, the VAAPI flags are appended and the element
   * after the first `-vf` becomes the VAAPI filter. Otherwise the list is the
   * base list. `processes` is what gpustat or amdsmi reports per GPU.
   */
  method BuildArgs(ffmpegPath: string, video: string, folder: string, quality: int, vf: string,
                   gpu: Option<string>, processes: seq<seq<string>>, gpuThreads: int, cpuThreads: int)
    returns (args: seq<string>, hwAccel: bool)
    ensures hwAccel <==> (IsNvidia(gpu) || IsAmd(gpu)) && Admit(Contention(gpu, processes), gpuThreads, cpuThreads)
    ensures !hwAccel ==> args == BaseArgs(ffmpegPath, video, quality, vf, folder)
    ensures hwAccel && IsNvidia(gpu) ==>
      args == Insert(Insert(BaseArgs(ffmpegPath, video, quality, vf, folder), 5, "-hwaccel"), 6, "cuda")
    ensures hwAccel && IsAmd(gpu) ==>
      var a := BaseArgs(ffmpegPath, video, quality, vf, folder) + VaapiFlags(gpu.value);
      a[14] == "-vf" && "-vf" in a && args == a[IndexOf(a, "-vf") + 1 := ReplaceAll(vf, ScaleFilter, VaapiScaleFilter)]
  {
    args := BaseArgs(ffmpegPath, video, quality, vf, folder);
    hwAccel := false;
    if IsNvidia(gpu) {
      var count := NvidiaCount(processes);
      if Admit(count, gpuThreads, cpuThreads) {
        hwAccel := true;
        args := Insert(args, 5, "-hwaccel");
        args := Insert(args, 6, "cuda");
      }
    } else if gpu.Some? && gpu.value != "" {
      var found := AmdFfmpegProcesses(processes);
      if Admit(|found|, gpuThreads, cpuThreads) {
        hwAccel := true;
        args := args + VaapiFlags(gpu.value);
        var vaapi := ReplaceAll(vf, ScaleFilter, VaapiScaleFilter);
        assert args[14] == "-vf";
        args := args[IndexOf(args, "-vf") + 1 := vaapi];
      }
    }
  }

  /**
   * NVIDIA: `-hwaccel cuda` sits at positions 5 and 6, so it comes before
   * `-threads:0` (now 7) and before `-i` (now 9); the rest is the base list
   * shifted by two.
   */
  lemma NvidiaLayout(base: seq<string>)
    requires |base| == 17 && base[5] == "-threads:0" && base[7] == "-i"
    ensures var a := Insert(Insert(base, 5, "-hwaccel"), 6, "cuda");
      |a| == 19 && a[5] == "-hwaccel" && a[6] == "cuda" && a[7] == "-threads:0" && a[9] == "-i"
      && a[..5] == base[..5] && a[7..] == base[5..]
  {
    var a := Insert(Insert(base, 5, "-hwaccel"), 6, "cuda");
    assert a[..5] == base[..5];
    assert a[7..] == base[5..];
  }

  /**
   * AMD: the VAAPI flags are the last four arguments, and unless the ffmpeg
   * path or the video file is itself the string "-vf", the replaced filter
   * is at position 15 and every other base argument keeps its place.
   */
  lemma AmdLayout(ffmpegPath: string, video: string, quality: int, vf: string, folder: string, device: string, vaapi: string)
    requires ffmpegPath != "-vf" && video != "-vf"
    ensures var base := BaseArgs(ffmpegPath, video, quality, vf, folder);
      var a := base + VaapiFlags(device);
      "-vf" in a && IndexOf(a, "-vf") == 14
      && var r := a[IndexOf(a, "-vf") + 1 := vaapi];
      |r| == 21 && r[15] == vaapi && r[17..] == VaapiFlags(device)
      && forall k | 0 <= k < 17 && k != 15 :: r[k] == base[k]
  {
    var base := BaseArgs(ffmpegPath, video, quality, vf, folder);
    var a := base + VaapiFlags(device);
    assert a[14] == "-vf";
    assert FormatInt(quality) != "-vf" by {
      if quality < 0 {
        assert IsDigit(Decimal(-quality, 0)[0]);
        assert FormatInt(quality)[1] == Decimal(-quality, 0)[0];
      } else {
        assert IsDigit(FormatInt(quality)[0]);
      }
    }
    assert forall k | 0 <= k < 14 :: a[k] != "-vf";
  }

  lemma ScaleLetters()
    ensures ScaleFilter[0] == 's' && ScaleFilter[1] == 'c' && ScaleFilter[6] == 'w'
  {
  }

  /** A chunk without `s` passes through the scale replacement unchanged. */
  lemma PassChunk(t: string, r: string)
    requires 's' !in t
    ensures ReplaceAll(t + r, ScaleFilter, VaapiScaleFilter) == t + ReplaceAll(r, ScaleFilter, VaapiScaleFilter)
  {
    ScaleLetters();
    ReplaceSkip(t, r, ScaleFilter, VaapiScaleFilter);
  }

  /** A chunk `s` + `u` that departs from the scale stage at position `j` and has no later `s`. */
  lemma PassMismatch(u: string, r: string, j: nat)
    requires (j == 1 || j == 6) && j <= |u| && u[j - 1] != (if j == 1 then 'c' else 'w') && 's' !in u
    ensures ReplaceAll("s" + u + r, ScaleFilter, VaapiScaleFilter) == "s" + u + ReplaceAll(r, ScaleFilter, VaapiScaleFilter)
  {
    ScaleLetters();
    var t := "s" + u;
    assert t[1..] == u && t[j] == u[j - 1];
    ReplaceSkipMismatch(t, r, ScaleFilter, VaapiScaleFilter, j);
  }

  /** The final scale stage becomes the VAAPI upload and scale stages. */
  lemma ScaleBecomesVaapi()
    ensures ReplaceAll(ScaleFilter, ScaleFilter, VaapiScaleFilter) == VaapiScaleFilter
  {
    assert StartsWith(ScaleFilter, ScaleFilter);
    assert ScaleFilter[|ScaleFilter|..] == "";
  }

  /** The replacement on `"fps=fps=" + fps + "," + rest` touches only `rest`. */
  lemma FpsHead(fps: string, rest: string)
    requires 's' !in fps
    ensures ReplaceAll("fps=fps=" + fps + "," + rest, ScaleFilter, VaapiScaleFilter)
      == "fps=fps=" + fps + "," + ReplaceAll(rest, ScaleFilter, VaapiScaleFilter)
  {
    var h := "fps=fps=" + fps + ",";
    var u3 := "=" + fps + ",";
    var c3 := "s" + u3;
    assert h == "fp" + ("s" + "=fp" + c3);
    var r' := ReplaceAll(rest, ScaleFilter, VaapiScaleFilter);
    PassMismatch(u3, rest, 1);
    PassMismatch("=fp", c3 + rest, 1);
    PassChunk("fp", "s" + "=fp" + (c3 + rest));
    Assoc("s" + "=fp", c3, rest);
    Assoc("fp", "s" + "=fp" + c3, rest);
    Assoc("s" + "=fp", c3, r');
    Assoc("fp", "s" + "=fp" + c3, r');
  }

  /** The scale replacement copies `x` and carries on after it, whatever follows. */
  ghost predicate Passes(x: string) {
    forall r :: ReplaceAll(x + r, ScaleFilter, VaapiScaleFilter) == x + ReplaceAll(r, ScaleFilter, VaapiScaleFilter)
  }

  lemma PassesChunk(t: string)
    requires 's' !in t
    ensures Passes(t)
  {
    forall r ensures ReplaceAll(t + r, ScaleFilter, VaapiScaleFilter) == t + ReplaceAll(r, ScaleFilter, VaapiScaleFilter) {
      PassChunk(t, r);
    }
  }

  lemma PassesMismatch(w: string, u: string, j: nat)
    requires w == "s" + u
    requires (j == 1 || j == 6) && j <= |u| && u[j - 1] != (if j == 1 then 'c' else 'w') && 's' !in u
    ensures Passes(w)
  {
    forall r ensures ReplaceAll(w + r, ScaleFilter, VaapiScaleFilter) == w + ReplaceAll(r, ScaleFilter, VaapiScaleFilter) {
      PassMismatch(u, r, j);
    }
  }

  lemma PassesJoin(x: string, y: string)
    requires Passes(x) && Passes(y)
    ensures Passes(x + y)
  {
    forall r ensures ReplaceAll(x + y + r, ScaleFilter, VaapiScaleFilter) == x + y + ReplaceAll(r, ScaleFilter, VaapiScaleFilter) {
      Assoc(x, y, r);
      Assoc(x, y, ReplaceAll(r, ScaleFilter, VaapiScaleFilter));
      assert ReplaceAll(y + r, ScaleFilter, VaapiScaleFilter) == y + ReplaceAll(r, ScaleFilter, VaapiScaleFilter);
      assert ReplaceAll(x + (y + r), ScaleFilter, VaapiScaleFilter) == x + ReplaceAll(y + r, ScaleFilter, VaapiScaleFilter);
    }
  }

  /** The first two HDR stages pass through the scale replacement. */
  lemma HdrHeadPasses()
    ensures Passes("z" + "scale=t" + "=linear:npl=100,format=gbrpf32le,z" + "scale=p")
  {
    var p0, p1, p2, p3 := "z", "scale=t", "=linear:npl=100,format=gbrpf32le,z", "scale=p";
    PassesChunk(p0);
    PassesMismatch(p1, "cale=t", 6);
    PassesChunk(p2);
    PassesMismatch(p3, "cale=p", 6);
    PassesJoin(p0, p1);
    PassesJoin(p0 + p1, p2);
    PassesJoin(p0 + p1 + p2, p3);
  }

  /** The HDR stages up to the tone-mapping parameters pass through the scale replacement. */
  lemma HdrMidPasses()
    ensures Passes("z" + "scale=t" + "=linear:npl=100,format=gbrpf32le,z" + "scale=p" + "=bt709,tonemap=tonemap=hable:de"
      + "sat=0,z")
  {
    var head := "z" + "scale=t" + "=linear:npl=100,format=gbrpf32le,z" + "scale=p";
    var p4, p5 := "=bt709,tonemap=tonemap=hable:de", "sat=0,z";
    HdrHeadPasses();
    PassesChunk(p4);
    PassesMismatch(p5, "at=0,z", 1);
    PassesJoin(head, p4);
    PassesJoin(head + p4, p5);
  }

  /** The replacement passes over the HDR stages, none of which is the scale stage. */
  lemma HdrPass()
    ensures Passes(HdrChain)
  {
    var mid := "z" + "scale=t" + "=linear:npl=100,format=gbrpf32le,z" + "scale=p" + "=bt709,tonemap=tonemap=hable:de"
      + "sat=0,z";
    var p6, p7 := "scale=t", "=bt709:m=bt709:r=tv,format=yuv420p,";
    HdrMidPasses();
    PassesMismatch(p6, "cale=t", 6);
    PassesChunk(p7);
    PassesJoin(mid, p6);
    PassesJoin(mid + p6, p7);
  }

  /**
   * For AMD the filter keeps its fps and HDR stages and only its final
   * scale stage is replaced, given an fps fragment without an `s` (a
   * rounded float such as "0.2" never has one).
   */
  lemma VaapiFilter(fps: string, hdr: bool)
    requires 's' !in fps
    ensures ReplaceAll(Filter(fps, hdr), ScaleFilter, VaapiScaleFilter)
      == "fps=fps=" + fps + "," + (if hdr then HdrChain else "") + VaapiScaleFilter
  {
    var mid := if hdr then HdrChain else "";
    Assoc("fps=fps=" + fps + ",", mid, ScaleFilter);
    FpsHead(fps, mid + ScaleFilter);
    ScaleBecomesVaapi();
    if hdr {
      HdrPass();
      assert ReplaceAll(HdrChain + ScaleFilter, ScaleFilter, VaapiScaleFilter) == HdrChain + ReplaceAll(ScaleFilter, ScaleFilter, VaapiScaleFilter);
    } else {
      assert mid + ScaleFilter == ScaleFilter;
    }
    Assoc("fps=fps=" + fps + ",", mid, VaapiScaleFilter);
  }
}
