/**
 * `run` (src/plex/generator.py:275-296): every library section of the Plex
 * server, episode and movie sections searched for their items, each item
 * handed to `process_item` in a process pool whose failures are logged and
 * passed over. The pool's items are taken one after the other here, in the
 * order they are submitted.
 */
module Library {
  import opened Wrappers
  import opened LittleEndian
  import opened FileSystem
  import opened Generator
  import opened Job

  /** A library section: its `type` and the keys its search returns. */
  datatype Section = Section(kind: string, items: seq<string>)

  /** The section types `run` searches; every other one is passed over. */
  predicate Supported(sec: Section) {
    sec.kind == "episode" || sec.kind == "movie"
  }

  /** The item keys `run` submits, section after section, in search order. */
  function MediaKeys(sections: seq<Section>): seq<string> {
    if sections == [] then []
    else
      var last := sections[|sections| - 1];
      MediaKeys(sections[..|sections| - 1]) + (if Supported(last) then last.items else [])
  }

  /** A key is submitted exactly when a supported section lists it. */
  lemma {:induction false} MediaKeysMembers(sections: seq<Section>, key: string)
    ensures key in MediaKeys(sections) <==>
      exists i, j | 0 <= i < |sections| && 0 <= j < |sections[i].items| :: Supported(sections[i]) && sections[i].items[j] == key
  {
    if sections != [] {
      var init := sections[..|sections| - 1];
      MediaKeysMembers(init, key);
      if key in MediaKeys(init) {
        var i, j :| 0 <= i < |init| && 0 <= j < |init[i].items| && Supported(init[i]) && init[i].items[j] == key;
        assert sections[i] == init[i];
      }
      if exists i, j | 0 <= i < |sections| && 0 <= j < |sections[i].items| :: Supported(sections[i]) && sections[i].items[j] == key {
        var i, j :| 0 <= i < |sections| && 0 <= j < |sections[i].items| && Supported(sections[i]) && sections[i].items[j] == key;
        if i < |init| {
          assert init[i] == sections[i];
        }
      }
    }
  }

  /** One submitted item: its key and whether `process_item` returned normally. */
  datatype Outcome = Outcome(key: string, ok: bool)

  /** The keys of a list of outcomes, in order. */
  function Keys(outcomes: seq<Outcome>): (r: seq<string>)
    ensures |r| == |outcomes| && forall k | 0 <= k < |outcomes| :: r[k] == outcomes[k].key
  {
    seq(|outcomes|, k requires 0 <= k < |outcomes| => outcomes[k].key)
  }

  lemma KeysAppend(a: seq<Outcome>, b: seq<Outcome>)
    ensures Keys(a + b) == Keys(a) + Keys(b)
  {
  }

  /** Every media part of the item's tree is passed over. */
  predicate ItemSkips(tree: Option<seq<MediaPart>>, s: Settings, files: map<string, seq<Byte>>) {
    tree.Some? && forall k | 0 <= k < |tree.value| :: Skips(tree.value[k], s, files)
  }

  /** Every item of every supported section is passed over. */
  predicate LibrarySkips(sections: seq<Section>, trees: string -> Option<seq<MediaPart>>, s: Settings, files: map<string, seq<Byte>>) {
    forall i, j | 0 <= i < |sections| && Supported(sections[i]) && 0 <= j < |sections[i].items| ::
      ItemSkips(trees(sections[i].items[j]), s, files)
  }

  /** The keys of one more section. */
  lemma MediaKeysSnoc(sections: seq<Section>, sec: Section)
    ensures MediaKeys(sections + [sec]) == MediaKeys(sections) + (if Supported(sec) then sec.items else [])
  {
    assert (sections + [sec])[..|sections|] == sections;
  }

  /**
   * The pool of one supported section: every key submitted, and each
   * `future.result()` collected in order, an exception logged as a failure.
   */
  method RunSection(fs: FileSystem, keys: seq<string>, trees: string -> Option<seq<MediaPart>>, gpu: Option<string>, s: Settings, w: World)
    returns (results: seq<Outcome>)
    requires fs.Valid()
    modifies fs
    ensures fs.Valid()
    ensures Keys(results) == keys
    ensures forall k | 0 <= k < |results| :: trees(results[k].key).None? ==> !results[k].ok
    ensures (forall k | 0 <= k < |keys| :: ItemSkips(trees(keys[k]), s, old(fs.files))) ==>
      fs.files == old(fs.files) && fs.dirs == old(fs.dirs) && forall k | 0 <= k < |results| :: results[k].ok
  {
    ghost var allSkip := forall k | 0 <= k < |keys| :: ItemSkips(trees(keys[k]), s, fs.files);
    results := [];
    var j := 0;
    while j < |keys|
      invariant 0 <= j <= |keys| && fs.Valid()
      invariant Keys(results) == keys[..j]
      invariant forall k | 0 <= k < j :: trees(results[k].key).None? ==> !results[k].ok
      invariant allSkip ==> fs.files == old(fs.files) && fs.dirs == old(fs.dirs) && forall k | 0 <= k < j :: results[k].ok
    {
      var ok, steps := ProcessItem(fs, trees(keys[j]), gpu, s, w);
      KeysAppend(results, [Outcome(keys[j], ok)]);
      results := results + [Outcome(keys[j], ok)];
      j := j + 1;
    }
    assert keys[..j] == keys;
  }

  /**
   * `run(gpu)`. `trees` gives each key's media parts (None when the query
   * raises). The result is None when `run` raises: a pool of no workers
   * (`ProcessPoolExecutor` refuses `max_workers <= 0`) at the first
   * supported section. Otherwise one outcome per submitted key, in order.
   */
  method Run(fs: FileSystem, sections: seq<Section>, trees: string -> Option<seq<MediaPart>>, gpu: Option<string>, s: Settings, w: World)
    returns (outcomes: Option<seq<Outcome>>)
    requires fs.Valid()
    modifies fs
    ensures fs.Valid()
    ensures outcomes.None? <==> s.cpuThreads + s.gpuThreads <= 0 && exists i | 0 <= i < |sections| :: Supported(sections[i])
    ensures outcomes.None? ==> fs.files == old(fs.files) && fs.dirs == old(fs.dirs)
    // Every key is processed once, in submission order, whatever happened to the others.
    ensures outcomes.Some? ==> Keys(outcomes.value) == MediaKeys(sections)
    // An item whose tree query raises is a failure.
    ensures outcomes.Some? ==> forall k | 0 <= k < |outcomes.value| :: trees(outcomes.value[k].key).None? ==> !outcomes.value[k].ok
    // A library whose previews all exist: every item succeeds and nothing changes.
    ensures outcomes.Some? && LibrarySkips(sections, trees, s, old(fs.files)) ==>
      fs.files == old(fs.files) && fs.dirs == old(fs.dirs) && forall k | 0 <= k < |outcomes.value| :: outcomes.value[k].ok
  {
    ghost var allSkip := LibrarySkips(sections, trees, s, fs.files);
    var done: seq<Outcome> := [];
    var i := 0;
    while i < |sections|
      invariant 0 <= i <= |sections| && fs.Valid()
      invariant s.cpuThreads + s.gpuThreads <= 0 ==> forall k | 0 <= k < i :: !Supported(sections[k])
      invariant s.cpuThreads + s.gpuThreads <= 0 ==> fs.files == old(fs.files) && fs.dirs == old(fs.dirs)
      invariant Keys(done) == MediaKeys(sections[..i])
      invariant forall k | 0 <= k < |done| :: trees(done[k].key).None? ==> !done[k].ok
      invariant allSkip ==> fs.files == old(fs.files) && fs.dirs == old(fs.dirs) && forall k | 0 <= k < |done| :: done[k].ok
    {
      var sec := sections[i];
      assert sections[..i + 1] == sections[..i] + [sec];
      MediaKeysSnoc(sections[..i], sec);
      if Supported(sec) {
        if s.cpuThreads + s.gpuThreads <= 0 {
          return None;
        }
        assert allSkip ==> forall k | 0 <= k < |sec.items| :: ItemSkips(trees(sec.items[k]), s, fs.files);
        var results := RunSection(fs, sec.items, trees, gpu, s, w);
        KeysAppend(done, results);
        done := done + results;
      }
      i := i + 1;
    }
    assert sections[..i] == sections;
    return Some(done);
  }
}
