/**
 * GPU detection and GPU contention (src/plex/generator.py:44-103, 132-143).
 * The vendor libraries (pynvml, amdsmi, gpustat) are replaced by what they
 * report: probe results for `detect_gpu`, and for the contention counts the
 * process command lines (NVIDIA) or process names (AMD) of each GPU.
 */
module Gpu {
  import opened Wrappers
  import opened Text
  import Paths

  // ---------------------------------------------------------------------------
  // detect_gpu
  // ---------------------------------------------------------------------------

  /**
   * What the probes report. `nvidiaCount` is `nvmlDeviceGetCount()`, None when
   * pynvml is missing or raised. `amdProcessors` holds, per processor handle,
   * whether amdsmi reports it as a GPU; None when amdsmi is missing or raised.
   * `dri` lists `/dev/dri`, None when the directory does not exist (or listing
   * it raised, which the same `except` swallows).
   */
  datatype Probes = Probes(nvidiaCount: Option<int>, amdProcessors: Option<seq<bool>>, dri: Option<seq<string>>)

  const DriDir: string := "/dev/dri"
  const RenderPrefix: string := "renderD"

  /** The first `/dev/dri` entry whose name starts with `renderD`, by position. */
  function FirstRender(entries: seq<string>): (r: Option<nat>)
    ensures r.Some? ==> r.value < |entries| && StartsWith(entries[r.value], RenderPrefix)
    ensures r.Some? ==> forall j | 0 <= j < r.value :: !StartsWith(entries[j], RenderPrefix)
    ensures r.None? ==> forall j | 0 <= j < |entries| :: !StartsWith(entries[j], RenderPrefix)
  {
    if entries == [] then
      None
    else if StartsWith(entries[0], RenderPrefix) then
      Some(0)
    else
      match FirstRender(entries[1..])
      case None => None
      case Some(i) => Some(i + 1)
  }

  /**
   * `detect_gpu`: "NVIDIA" when pynvml counts a device; otherwise the path of
   * the first render node when amdsmi reports a GPU; otherwise None.
   */
  function DetectGpu(p: Probes): Option<string> {
    if p.nvidiaCount.Some? && p.nvidiaCount.value > 0 then
      Some("NVIDIA")
    else if p.amdProcessors.Some? && true in p.amdProcessors.value && p.dri.Some? then
      match FirstRender(p.dri.value)
      case None => None
      case Some(i) => Some(Paths.Join(DriDir, p.dri.value[i]))
    else
      None
  }

  /** Whether `generate_images` treats a detected GPU as NVIDIA (`gpu == 'NVIDIA'`). */
  predicate IsNvidia(gpu: Option<string>) {
    gpu == Some("NVIDIA")
  }

  /** Whether it treats it as an AMD VAAPI device (`elif gpu:`, a non-empty string). */
  predicate IsAmd(gpu: Option<string>) {
    gpu.Some? && gpu.value != "" && gpu.value != "NVIDIA"
  }

  /** The render-node path `detect_gpu` returns for an entry of `/dev/dri`. */
  lemma RenderPath(entry: string)
    requires StartsWith(entry, RenderPrefix)
    ensures Paths.Join(DriDir, entry) == DriDir + "/" + entry
    ensures Paths.Join(DriDir, entry) != "NVIDIA"
  {
    assert entry[0] == 'r' by {
      assert entry[..|RenderPrefix|][0] == entry[0];
    }
    Paths.JoinRelative(DriDir, entry);
    var j := Paths.Join(DriDir, entry);
    assert j[0] == '/';
  }

  /**
   * The precedence of the probes: NVIDIA first; otherwise AMD exactly when a
   * GPU is reported and a render node exists, and then the node is the first
   * one listed; otherwise the CPU. An AMD answer is never mistaken for NVIDIA.
   */
  lemma DetectGpuDecision(p: Probes)
    ensures IsNvidia(DetectGpu(p)) <==> p.nvidiaCount.Some? && p.nvidiaCount.value > 0
    ensures IsAmd(DetectGpu(p)) <==>
      !(p.nvidiaCount.Some? && p.nvidiaCount.value > 0) && p.amdProcessors.Some? && true in p.amdProcessors.value
      && p.dri.Some? && exists j | 0 <= j < |p.dri.value| :: StartsWith(p.dri.value[j], RenderPrefix)
    ensures IsAmd(DetectGpu(p)) ==> exists i | 0 <= i < |p.dri.value| ::
      DetectGpu(p).value == DriDir + "/" + p.dri.value[i] && StartsWith(p.dri.value[i], RenderPrefix)
      && forall j | 0 <= j < i :: !StartsWith(p.dri.value[j], RenderPrefix)
    ensures DetectGpu(p).None? || IsNvidia(DetectGpu(p)) || IsAmd(DetectGpu(p))
  {
    if !(p.nvidiaCount.Some? && p.nvidiaCount.value > 0) && p.amdProcessors.Some? && true in p.amdProcessors.value && p.dri.Some? {
      var r := FirstRender(p.dri.value);
      if r.Some? {
        RenderPath(p.dri.value[r.value]);
        assert (DriDir + "/" + p.dri.value[r.value])[0] == '/';
      }
    }
  }

  // ---------------------------------------------------------------------------
  // Contention counts
  // ---------------------------------------------------------------------------

  /** gpustat: a command line counts when it contains "ffmpeg", ignoring case. */
  predicate NvidiaFfmpeg(command: string) {
    Contains(Lower(command), "ffmpeg")
  }

  /** amdsmi: a process counts when its name starts with "ffmpeg", ignoring case. */
  predicate AmdFfmpeg(name: string) {
    StartsWith(Lower(name), "ffmpeg")
  }

  /** Matching commands among the first `k` processes of one GPU. */
  function NvidiaCountUpTo(commands: seq<string>, k: nat): nat
    requires k <= |commands|
  {
    if k == 0 then 0 else NvidiaCountUpTo(commands, k - 1) + (if NvidiaFfmpeg(commands[k - 1]) then 1 else 0)
  }

  /** `sum(1 for gpu_stat in gpu_stats for process in gpu_stat.processes if …)` over the first `g` GPUs. */
  function NvidiaCountOver(gpus: seq<seq<string>>, g: nat): nat
    requires g <= |gpus|
  {
    if g == 0 then 0 else NvidiaCountOver(gpus, g - 1) + NvidiaCountUpTo(gpus[g - 1], |gpus[g - 1]|)
  }

  function NvidiaCount(gpus: seq<seq<string>>): nat {
    NvidiaCountOver(gpus, |gpus|)
  }

  /** Number of processes on the first `g` GPUs. */
  function ProcessesOver(gpus: seq<seq<string>>, g: nat): nat
    requires g <= |gpus|
  {
    if g == 0 then 0 else ProcessesOver(gpus, g - 1) + |gpus[g - 1]|
  }

  lemma {:induction false} NvidiaCountUpToBounds(commands: seq<string>, k: nat)
    requires k <= |commands|
    ensures NvidiaCountUpTo(commands, k) <= k
    ensures NvidiaCountUpTo(commands, k) == 0 <==> forall j | 0 <= j < k :: !NvidiaFfmpeg(commands[j])
  {
    if k > 0 {
      NvidiaCountUpToBounds(commands, k - 1);
    }
  }

  lemma {:induction false} NvidiaCountOverBounds(gpus: seq<seq<string>>, g: nat)
    requires g <= |gpus|
    ensures NvidiaCountOver(gpus, g) <= ProcessesOver(gpus, g)
    ensures NvidiaCountOver(gpus, g) == 0 <==>
      forall i, j | 0 <= i < g && 0 <= j < |gpus[i]| :: !NvidiaFfmpeg(gpus[i][j])
  {
    if g > 0 {
      NvidiaCountOverBounds(gpus, g - 1);
      NvidiaCountUpToBounds(gpus[g - 1], |gpus[g - 1]|);
    }
  }

  /**
   * The NVIDIA count never exceeds the number of processes, and it is zero
   * exactly when no process command mentions ffmpeg.
   */
  lemma NvidiaCountMeaning(gpus: seq<seq<string>>)
    ensures NvidiaCount(gpus) <= ProcessesOver(gpus, |gpus|)
    ensures NvidiaCount(gpus) == 0 <==>
      forall i, j | 0 <= i < |gpus| && 0 <= j < |gpus[i]| :: !NvidiaFfmpeg(gpus[i][j])
  {
    NvidiaCountOverBounds(gpus, |gpus|);
  }

  /** The AMD ffmpeg processes among the first `k` of one GPU, in order. */
  function AmdNamesUpTo(names: seq<string>, k: nat): seq<string>
    requires k <= |names|
  {
    if k == 0 then [] else AmdNamesUpTo(names, k - 1) + (if AmdFfmpeg(names[k - 1]) then [names[k - 1]] else [])
  }

  /** The AMD ffmpeg processes of the first `g` GPUs, GPU by GPU. */
  function AmdOver(gpus: seq<seq<string>>, g: nat): seq<string>
    requires g <= |gpus|
  {
    if g == 0 then [] else AmdOver(gpus, g - 1) + AmdNamesUpTo(gpus[g - 1], |gpus[g - 1]|)
  }

  lemma {:induction false} AmdNamesUpToMembers(names: seq<string>, k: nat, x: string)
    requires k <= |names|
    ensures x in AmdNamesUpTo(names, k) <==> AmdFfmpeg(x) && exists j | 0 <= j < k :: names[j] == x
  {
    if k > 0 {
      AmdNamesUpToMembers(names, k - 1, x);
    }
  }

  lemma {:induction false} AmdOverMembers(gpus: seq<seq<string>>, g: nat, x: string)
    requires g <= |gpus|
    ensures x in AmdOver(gpus, g) <==> AmdFfmpeg(x) && exists i | 0 <= i < g :: x in gpus[i]
  {
    if g > 0 {
      AmdOverMembers(gpus, g - 1, x);
      AmdNamesUpToMembers(gpus[g - 1], |gpus[g - 1]|, x);
      if AmdFfmpeg(x) && x in gpus[g - 1] {
        var j :| 0 <= j < |gpus[g - 1]| && gpus[g - 1][j] == x;
      }
    }
  }

  /**
   * `get_amd_ffmpeg_processes`: walks every GPU's process list and keeps the
   * processes whose lowercased name starts with "ffmpeg". The result holds
   * exactly those processes (AmdOverMembers).
   */
  method AmdFfmpegProcesses(gpus: seq<seq<string>>) returns (found: seq<string>)
    ensures found == AmdOver(gpus, |gpus|)
    ensures forall x | x in found :: AmdFfmpeg(x)
  {
    found := [];
    var g := 0;
    while g < |gpus|
      invariant 0 <= g <= |gpus|
      invariant found == AmdOver(gpus, g)
    {
      var processes := gpus[g];
      var k := 0;
      while k < |processes|
        invariant 0 <= k <= |processes|
        invariant found == AmdOver(gpus, g) + AmdNamesUpTo(processes, k)
      {
        if AmdFfmpeg(processes[k]) {
          found := found + [processes[k]];
        }
        k := k + 1;
      }
      g := g + 1;
    }
    forall x | x in found ensures AmdFfmpeg(x) {
      AmdOverMembers(gpus, |gpus|, x);
    }
  }

  /** The admission rule: use the GPU while fewer than GPU_THREADS ffmpeg processes run on it, or always when CPU_THREADS is 0. */
  predicate Admit(count: int, gpuThreads: int, cpuThreads: int) {
    count < gpuThreads || cpuThreads == 0
  }
}
