/**
 * Path strings as `process_item` derives them (src/plex/generator.py:216-250):
 * `posixpath.join`, `sanitize_path`, the hash-sharded bundle directory and
 * the paths of the BIF and of the temporary frame directory.
 */
module Paths {
  import opened Wrappers
  import opened Text

  /** `posixpath.join(a, b)`: an absolute `b` replaces `a`; otherwise one `/` separates them unless `a` is empty or ends in `/`. */
  function Join(a: string, b: string): string {
    if StartsWith(b, "/") then b else if a == "" || EndsWith(a, "/") then a + b else a + "/" + b
  }

  /** A relative component goes after a single separating slash. */
  lemma JoinRelative(a: string, b: string)
    requires a != "" && a[|a| - 1] != '/' && (b == "" || b[0] != '/')
    ensures Join(a, b) == a + "/" + b
    ensures b != "" ==> Join(a, b)[|Join(a, b)| - 1] == b[|b| - 1]
  {
    Relative(b);
    assert !EndsWith(a, "/") by {
      assert a[|a| - 1..][0] == a[|a| - 1];
    }
  }

  lemma Relative(b: string)
    requires b == "" || b[0] != '/'
    ensures !StartsWith(b, "/")
  {
    if |b| > 0 {
      assert b[..1][0] == b[0];
    }
  }

  /** An absolute component discards what came before. */
  lemma JoinAbsolute(a: string, b: string)
    requires b != "" && b[0] == '/'
    ensures Join(a, b) == b
  {
    assert b[..1] == "/";
  }

  /** `sanitize_path`: on Windows (`os.name == 'nt'`) every backslash becomes a slash; elsewhere the path is kept. */
  function Sanitize(path: string, windows: bool): (r: string)
    ensures |r| == |path|
    ensures forall i | 0 <= i < |path| :: r[i] == (if windows && path[i] == '\\' then '/' else path[i])
  {
    ReplaceChar(path, '\\', '/');
    if windows then ReplaceAll(path, "\\", "/") else path
  }

  /** Sanitizing leaves no backslash on Windows, and sanitizing twice is sanitizing once. */
  lemma SanitizeIdempotent(path: string, windows: bool)
    ensures windows ==> '\\' !in Sanitize(path, windows)
    ensures Sanitize(Sanitize(path, windows), windows) == Sanitize(path, windows)
  {
    var r := Sanitize(path, windows);
    if windows {
      forall i | 0 <= i < |r| ensures r[i] != '\\' {
      }
    }
    var rr := Sanitize(r, windows);
    assert forall i | 0 <= i < |r| :: rr[i] == r[i];
  }

  /** Sanitizing works character by character, so it distributes over concatenation. */
  lemma SanitizeAppend(a: string, b: string, windows: bool)
    ensures Sanitize(a + b, windows) == Sanitize(a, windows) + Sanitize(b, windows)
  {
    var l, r := Sanitize(a + b, windows), Sanitize(a, windows) + Sanitize(b, windows);
    forall i | 0 <= i < |l| ensures l[i] == r[i] {
      if i >= |a| {
        assert (a + b)[i] == b[i - |a|];
      }
    }
  }

  /** `f"{h[0]}/{h[1:]}.bundle"`; an empty hash raises IndexError. */
  function BundleFile(hash: string): (r: Option<string>)
    ensures r.Some? <==> hash != ""
    ensures r.Some? ==> r.value == [hash[0]] + "/" + hash[1..] + ".bundle"
  {
    if hash == "" then None else Some([hash[0]] + "/" + hash[1..] + ".bundle")
  }

  /** The paths `process_item` derives for one media part. */
  datatype ItemPaths = ItemPaths(bundle: string, indexes: string, indexBif: string, tmp: string)

  /**
   * The bundle directory under `<media>/localhost`, its `Contents/Indexes`
   * directory, the `index-sd.bif` inside it, and `<tmp folder>/<hash>`;
   * each sanitized. None when the hash is empty.
   */
  function DerivePaths(hash: string, mediaRoot: string, tmpRoot: string, windows: bool): (r: Option<ItemPaths>)
    ensures r.Some? <==> hash != ""
  {
    match BundleFile(hash)
    case None => None
    case Some(bundleFile) =>
      var bundle := Sanitize(Join(Join(mediaRoot, "localhost"), bundleFile), windows);
      var indexes := Sanitize(Join(Join(bundle, "Contents"), "Indexes"), windows);
      var indexBif := Sanitize(Join(indexes, "index-sd.bif"), windows);
      var tmp := Sanitize(Join(tmpRoot, hash), windows);
      Some(ItemPaths(bundle, indexes, indexBif, tmp))
  }

  /** On either operating system the BIF sits directly in the indexes directory. */
  lemma BifInIndexes(hash: string, mediaRoot: string, tmpRoot: string, windows: bool)
    requires hash != ""
    ensures var p := DerivePaths(hash, mediaRoot, tmpRoot, windows).value;
      p.indexBif == p.indexes + "/index-sd.bif"
  {
    var p := DerivePaths(hash, mediaRoot, tmpRoot, windows).value;
    var c := Join(p.bundle, "Contents");
    var j := Join(c, "Indexes");
    IndexesDir(c);
    SanitizeIdempotent(j, windows);
    InDirectory(p.indexes, windows);
  }

  /** `Join(c, "Indexes")` is not empty and ends in `s`. */
  lemma IndexesDir(c: string)
    ensures var j := Join(c, "Indexes"); j != "" && j[|j| - 1] == 's'
  {
    var j := Join(c, "Indexes");
    Relative("Indexes");
    if c == "" || EndsWith(c, "/") {
      assert j == c + "Indexes";
    } else {
      assert j == c + "/" + "Indexes";
    }
  }

  /** The BIF joined onto an already sanitized directory that does not end in a slash. */
  lemma InDirectory(d: string, windows: bool)
    requires d != "" && d[|d| - 1] != '/' && Sanitize(d, windows) == d
    ensures Sanitize(Join(d, "index-sd.bif"), windows) == d + "/index-sd.bif"
  {
    JoinRelative(d, "index-sd.bif");
    assert d + "/" + "index-sd.bif" == d + "/index-sd.bif";
    SanitizeAppend(d, "/index-sd.bif", windows);
    SanitizeLiteral(windows);
  }

  lemma SanitizeLiteral(windows: bool)
    ensures Sanitize("/index-sd.bif", windows) == "/index-sd.bif"
  {
    var s := "/index-sd.bif";
    assert forall i | 0 <= i < |s| :: s[i] != '\\';
  }

  /**
   * On POSIX, for a media root that neither is empty nor ends in `/` and a
   * hash that does not start with `/`, the BIF is
   * `<media>/localhost/<h[0]>/<h[1:]>.bundle/Contents/Indexes/index-sd.bif`.
   */
  lemma BifPathLayout(hash: string, mediaRoot: string, tmpRoot: string)
    requires hash != "" && hash[0] != '/'
    requires mediaRoot != "" && mediaRoot[|mediaRoot| - 1] != '/'
    ensures DerivePaths(hash, mediaRoot, tmpRoot, false).value.indexBif
      == mediaRoot + "/" + "localhost" + "/" + ([hash[0]] + "/" + hash[1..] + ".bundle")
        + "/" + "Contents" + "/" + "Indexes" + "/" + "index-sd.bif"
  {
    var bundleFile := [hash[0]] + "/" + hash[1..] + ".bundle";
    var local := Join(mediaRoot, "localhost");
    JoinRelative(mediaRoot, "localhost");
    var bundle := Join(local, bundleFile);
    JoinRelative(local, bundleFile);
    var contents := Join(bundle, "Contents");
    JoinRelative(bundle, "Contents");
    var indexes := Join(contents, "Indexes");
    JoinRelative(contents, "Indexes");
    JoinRelative(indexes, "index-sd.bif");
  }
}
