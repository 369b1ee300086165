/**
 * The rename loop of `generate_images` (src/plex/generator.py:174-177): each
 * name the glob `img*.jpg` lists is parsed back to its frame number and the
 * file is renamed, inside the same folder, to its start time. A name `int`
 * rejects raises ValueError and ends the loop; renames already done stay.
 */
module Rename {
  import opened Wrappers
  import opened LittleEndian
  import opened Text
  import opened Frames
  import opened FileSystem
  import Paths

  /** The path a listed frame is renamed to. */
  function Target(folder: string, name: string, interval: int): string
    requires FrameNumber(name).Some?
  {
    Paths.Join(folder, NewName(FrameNumber(name).value, interval))
  }

  /**
   * The files after renaming `names` in order, and whether the loop ran to its
   * end (false where `int` or `os.rename` raised).
   */
  function RenameAll(files: map<string, seq<Byte>>, dirs: set<string>, folder: string, names: seq<string>, interval: int)
    : (map<string, seq<Byte>>, bool)
    decreases |names|
  {
    if names == [] then
      (files, true)
    else if FrameNumber(names[0]).None? then
      (files, false)
    else
      var src, dst := Paths.Join(folder, names[0]), Target(folder, names[0], interval);
      if src in files && dst !in dirs then RenameAll(Moved(files, src, dst), dirs, folder, names[1..], interval)
      else (files, false)
  }

  /** The loop itself, on the file system. */
  method RenameFrames(fs: FileSystem, folder: string, names: seq<string>, interval: int) returns (ok: bool)
    requires fs.Valid()
    modifies fs
    ensures fs.Valid() && fs.dirs == old(fs.dirs)
    ensures (fs.files, ok) == RenameAll(old(fs.files), old(fs.dirs), folder, names, interval)
  {
    var i := 0;
    while i < |names|
      invariant 0 <= i <= |names|
      invariant fs.Valid() && fs.dirs == old(fs.dirs)
      invariant RenameAll(old(fs.files), fs.dirs, folder, names, interval)
        == RenameAll(fs.files, fs.dirs, folder, names[i..], interval)
    {
      assert names[i..][1..] == names[i + 1..];
      var frame := FrameNumber(names[i]);
      if frame.None? {
        return false;
      }
      var moved := fs.Rename(Paths.Join(folder, names[i]), Target(folder, names[i], interval));
      if !moved {
        return false;
      }
      i := i + 1;
    }
    assert names[i..] == [];
    return true;
  }

  /**
   * The conditions under which the glob's names rename independently of one
   * another: each is listed once, matches the glob and is a file of the
   * folder; no target is a directory, and no two names carry one frame number.
   */
  ghost predicate Apart(files: map<string, seq<Byte>>, dirs: set<string>, folder: string, names: seq<string>, interval: int) {
    && Distinct(names)
    && (forall n | n in names :: MatchesGlob(n) && Paths.Join(folder, n) in files)
    && (forall n | n in names && FrameNumber(n).Some? :: Target(folder, n, interval) !in dirs)
    && (forall m, n | m in names && n in names && FrameNumber(m).Some? && FrameNumber(m) == FrameNumber(n) :: m == n)
  }

  /** Joining onto one folder keeps relative names apart. */
  lemma JoinInjective(folder: string, a: string, b: string)
    requires a != "" && a[0] != '/' && b != "" && b[0] != '/'
    requires Paths.Join(folder, a) == Paths.Join(folder, b)
    ensures a == b
  {
    Paths.Relative(a);
    Paths.Relative(b);
    var j := Paths.Join(folder, a);
    var sep := if folder == "" || EndsWith(folder, "/") then "" else "/";
    assert j == folder + sep + a && j == folder + sep + b;
    assert a == j[|folder + sep|..] && b == j[|folder + sep|..];
  }

  /** A listed frame and a renamed one are different files of the folder. */
  lemma SourceNotTarget(folder: string, n: string, m: string, interval: int)
    requires MatchesGlob(n) && FrameNumber(m).Some?
    ensures Paths.Join(folder, n) != Target(folder, m, interval)
  {
    var t := NewName(FrameNumber(m).value, interval);
    NewNameNotGlob(FrameNumber(m).value, interval);
    NewNameHead(FrameNumber(m).value, interval);
    GlobHead(n);
    if Paths.Join(folder, n) == Paths.Join(folder, t) {
      JoinInjective(folder, n, t);
    }
  }

  /** Distinct frame numbers give distinct targets. */
  lemma TargetsApart(folder: string, m: string, n: string, interval: int)
    requires interval != 0 && FrameNumber(m).Some? && FrameNumber(n).Some? && FrameNumber(m) != FrameNumber(n)
    ensures Target(folder, m, interval) != Target(folder, n, interval)
  {
    var a, b := FrameNumber(m).value, FrameNumber(n).value;
    NewNameHead(a, interval);
    NewNameHead(b, interval);
    if Target(folder, m, interval) == Target(folder, n, interval) {
      JoinInjective(folder, NewName(a, interval), NewName(b, interval));
      NewNameInjective(a, b, interval);
    }
  }

  /** Distinct names give distinct sources. */
  lemma SourcesApart(folder: string, m: string, n: string)
    requires MatchesGlob(m) && MatchesGlob(n) && m != n
    ensures Paths.Join(folder, m) != Paths.Join(folder, n)
  {
    GlobHead(m);
    GlobHead(n);
    if Paths.Join(folder, m) == Paths.Join(folder, n) {
      JoinInjective(folder, m, n);
    }
  }

  lemma GlobHead(n: string)
    requires MatchesGlob(n)
    ensures n != "" && n[0] == 'i'
  {
    assert n[..3][0] == n[0];
  }

  lemma NewNameHead(frame: int, interval: int)
    ensures NewName(frame, interval) != "" && NewName(frame, interval)[0] != '/'
  {
    var v := frame * interval;
    if v >= 0 {
      assert NewName(frame, interval)[0] == Decimal(v, 10)[0];
      assert IsDigit(Decimal(v, 10)[0]);
    }
  }

  lemma HeadOrTail(s: seq<string>)
    requires s != []
    ensures forall x :: x in s <==> x == s[0] || x in s[1..]
  {
    assert s == [s[0]] + s[1..];
  }

  lemma DistinctTail(s: seq<string>)
    requires Distinct(s) && s != []
    ensures Distinct(s[1..]) && s[0] !in s[1..]
  {
    forall i, j | 0 <= i < j < |s[1..]| ensures s[1..][i] != s[1..][j] {
      assert s[1..][i] == s[i + 1] && s[1..][j] == s[j + 1];
    }
    forall i | 0 <= i < |s[1..]| ensures s[1..][i] != s[0] {
      assert s[1..][i] == s[i + 1];
    }
  }

  /** `q` is neither the old nor the new name of any of `names`. */
  ghost predicate Untouched(q: string, folder: string, names: seq<string>, interval: int) {
    forall n | n in names :: q != Paths.Join(folder, n) && (FrameNumber(n).Some? ==> q != Target(folder, n, interval))
  }

  /** In `after` the bytes of each of `names` sit at its target and its old name is gone. */
  ghost predicate Landed(files: map<string, seq<Byte>>, after: map<string, seq<Byte>>, folder: string, names: seq<string>, interval: int) {
    forall n | n in names ::
      FrameNumber(n).Some? && Paths.Join(folder, n) in files && Paths.Join(folder, n) !in after
      && Target(folder, n, interval) in after && after[Target(folder, n, interval)] == files[Paths.Join(folder, n)]
  }

  /** Every path no rename touches is in `after` as it was in `files`. */
  ghost predicate Kept(files: map<string, seq<Byte>>, after: map<string, seq<Byte>>, folder: string, names: seq<string>, interval: int) {
    forall q | Untouched(q, folder, names, interval) ::
      (q in after <==> q in files) && (q in files ==> after[q] == files[q])
  }

  /** `after` is `files` with every one of `names` moved to its target. */
  ghost predicate Arrived(files: map<string, seq<Byte>>, after: map<string, seq<Byte>>, folder: string, names: seq<string>, interval: int) {
    Landed(files, after, folder, names, interval) && Kept(files, after, folder, names, interval)
  }

  /**
   * Renaming names that are apart runs to the end exactly when every name
   * parses, and then every frame has arrived at its target.
   */
  lemma {:induction false} RenameApart(files: map<string, seq<Byte>>, dirs: set<string>, folder: string, names: seq<string>, interval: int)
    requires interval != 0 && Apart(files, dirs, folder, names, interval)
    ensures var r := RenameAll(files, dirs, folder, names, interval);
      (r.1 <==> forall n | n in names :: FrameNumber(n).Some?)
      && (r.1 ==> Arrived(files, r.0, folder, names, interval))
    decreases |names|
  {
    if names == [] {
      assert Kept(files, files, folder, names, interval);
    } else if FrameNumber(names[0]).Some? {
      var n0, rest := names[0], names[1..];
      var src, dst := Paths.Join(folder, n0), Target(folder, n0, interval);
      var files1 := Moved(files, src, dst);
      RestApart(files, dirs, folder, names, interval);
      RenameApart(files1, dirs, folder, rest, interval);
      var r := RenameAll(files1, dirs, folder, rest, interval);
      assert RenameAll(files, dirs, folder, names, interval) == r;
      HeadOrTail(names);
      if r.1 {
        FirstApart(folder, names, interval);
        KeptStep(files, r.0, folder, names, interval);
        LandedStep(files, r.0, folder, names, interval);
      }
    }
  }

  /** The first name's old and new paths are no other name's. */
  lemma FirstApart(folder: string, names: seq<string>, interval: int)
    requires interval != 0 && names != [] && Distinct(names) && forall n | n in names :: MatchesGlob(n)
    requires FrameNumber(names[0]).Some?
    requires forall m, n | m in names && n in names && FrameNumber(m).Some? && FrameNumber(m) == FrameNumber(n) :: m == n
    ensures Paths.Join(folder, names[0]) != Target(folder, names[0], interval)
    ensures Untouched(Paths.Join(folder, names[0]), folder, names[1..], interval)
    ensures Untouched(Target(folder, names[0], interval), folder, names[1..], interval)
  {
    var n0, rest := names[0], names[1..];
    var src, dst := Paths.Join(folder, n0), Target(folder, n0, interval);
    SourceNotTarget(folder, n0, n0, interval);
    DistinctTail(names);
    forall n | n in rest
      ensures src != Paths.Join(folder, n) && (FrameNumber(n).Some? ==> src != Target(folder, n, interval))
      ensures dst != Paths.Join(folder, n) && (FrameNumber(n).Some? ==> dst != Target(folder, n, interval))
    {
      SourcesApart(folder, n0, n);
      SourceNotTarget(folder, n, n0, interval);
      if FrameNumber(n).Some? {
        SourceNotTarget(folder, n0, n, interval);
        TargetsApart(folder, n0, n, interval);
      }
    }
  }

  /** Paths untouched by all the names were untouched by the first rename and by the rest. */
  lemma KeptStep(files: map<string, seq<Byte>>, after: map<string, seq<Byte>>, folder: string, names: seq<string>, interval: int)
    requires names != [] && FrameNumber(names[0]).Some? && Paths.Join(folder, names[0]) in files
    requires Kept(Moved(files, Paths.Join(folder, names[0]), Target(folder, names[0], interval)), after, folder, names[1..], interval)
    ensures Kept(files, after, folder, names, interval)
  {
    var n0, rest := names[0], names[1..];
    var src, dst := Paths.Join(folder, n0), Target(folder, n0, interval);
    var files1 := Moved(files, src, dst);
    forall q | Untouched(q, folder, names, interval)
      ensures (q in after <==> q in files) && (q in files ==> after[q] == files[q])
    {
      assert n0 in names;
      assert q != src && q != dst;
      forall n | n in rest ensures q != Paths.Join(folder, n) && (FrameNumber(n).Some? ==> q != Target(folder, n, interval)) {
        assert n in names;
      }
      assert Untouched(q, folder, rest, interval);
    }
  }

  /** The first name lands by its own rename, the rest by theirs. */
  lemma LandedStep(files: map<string, seq<Byte>>, after: map<string, seq<Byte>>, folder: string, names: seq<string>, interval: int)
    requires names != [] && FrameNumber(names[0]).Some? && Paths.Join(folder, names[0]) in files
    requires Paths.Join(folder, names[0]) != Target(folder, names[0], interval)
    requires Untouched(Paths.Join(folder, names[0]), folder, names[1..], interval)
    requires Untouched(Target(folder, names[0], interval), folder, names[1..], interval)
    requires forall n | n in names[1..] :: Paths.Join(folder, n) != Paths.Join(folder, names[0])
    requires var files1 := Moved(files, Paths.Join(folder, names[0]), Target(folder, names[0], interval));
      Arrived(files1, after, folder, names[1..], interval)
    ensures Landed(files, after, folder, names, interval)
  {
    var n0, rest := names[0], names[1..];
    var src, dst := Paths.Join(folder, n0), Target(folder, n0, interval);
    var files1 := Moved(files, src, dst);
    assert src !in files1;
    assert src !in after && dst in after && after[dst] == files[src];
    forall n | n in names
      ensures FrameNumber(n).Some? && Paths.Join(folder, n) in files && Paths.Join(folder, n) !in after
      ensures Target(folder, n, interval) in after && after[Target(folder, n, interval)] == files[Paths.Join(folder, n)]
    {
      if n != n0 {
        assert n in rest;
        var s := Paths.Join(folder, n);
        assert s in files1 && s != src;
        assert s != dst;
      }
    }
  }

  /** After the first rename the remaining names are still apart. */
  lemma RestApart(files: map<string, seq<Byte>>, dirs: set<string>, folder: string, names: seq<string>, interval: int)
    requires interval != 0 && Apart(files, dirs, folder, names, interval)
    requires names != [] && FrameNumber(names[0]).Some?
    ensures var files1 := Moved(files, Paths.Join(folder, names[0]), Target(folder, names[0], interval));
      Apart(files1, dirs, folder, names[1..], interval)
  {
    var n0, rest := names[0], names[1..];
    var src, dst := Paths.Join(folder, n0), Target(folder, n0, interval);
    var files1 := Moved(files, src, dst);
    DistinctTail(names);
    HeadOrTail(names);
    forall n | n in rest ensures MatchesGlob(n) && Paths.Join(folder, n) in files1 {
      SourcesApart(folder, n0, n);
      SourceNotTarget(folder, n, n0, interval);
    }
    assert forall n | n in rest && FrameNumber(n).Some? :: Target(folder, n, interval) !in dirs;
    assert forall m, n | m in rest && n in rest && FrameNumber(m).Some? && FrameNumber(m) == FrameNumber(n) :: m == n;
  }

  /** A frame's old and new paths both lie inside the folder. */
  lemma MovesInside(folder: string, name: string, interval: int)
    requires folder != "" && folder[|folder| - 1] != '/'
    requires MatchesGlob(name) && FrameNumber(name).Some?
    ensures StartsWith(Paths.Join(folder, name), folder + "/")
    ensures StartsWith(Target(folder, name, interval), folder + "/")
  {
    var src, dst := Paths.Join(folder, name), Target(folder, name, interval);
    GlobHead(name);
    NewNameHead(FrameNumber(name).value, interval);
    Paths.JoinRelative(folder, name);
    Paths.JoinRelative(folder, NewName(FrameNumber(name).value, interval));
    assert src[..|folder| + 1] == folder + "/";
    assert dst[..|folder| + 1] == folder + "/";
  }

  /** The renames move files only inside the folder: everything outside it stays. */
  lemma {:induction false} RenameInside(files: map<string, seq<Byte>>, dirs: set<string>, folder: string, names: seq<string>, interval: int)
    requires folder != "" && folder[|folder| - 1] != '/'
    requires forall n | n in names :: MatchesGlob(n)
    ensures var r := RenameAll(files, dirs, folder, names, interval);
      forall q | !StartsWith(q, folder + "/") :: (q in r.0 <==> q in files) && (q in files ==> r.0[q] == files[q])
    decreases |names|
  {
    if names != [] && FrameNumber(names[0]).Some? {
      var src, dst := Paths.Join(folder, names[0]), Target(folder, names[0], interval);
      MovesInside(folder, names[0], interval);
      HeadOrTail(names);
      if src in files && dst !in dirs {
        RenameInside(Moved(files, src, dst), dirs, folder, names[1..], interval);
      }
    }
  }
}
