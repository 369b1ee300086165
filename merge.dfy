/**
 * scripts/merge.py: the repository walked from `.` into a list of relative
 * file paths, pruning excluded directory names and skipping the output file,
 * then every file written into one text file after a listing of the paths.
 * The walk is a directory tree given as data (each directory's entries in
 * the order `os.walk` reports them); file contents are given as strings.
 */
module Merge {
  import opened Text

  /** The file `merge.py` writes, which it never lists. */
  const OutputName := "merged_repository.txt"

  /** `EXCLUDED_DIRS`: directory names the walk does not descend into. */
  const ExcludedDirs: set<string> := {".git", ".build", "merge.py"}

  /** A directory: its name, its file names and its subdirectories. */
  datatype Dir = Dir(name: string, files: seq<string>, subdirs: seq<Dir>)

  /**
   * The paths the file loop of one directory appends: each file name but
   * the output file, after `prefix` (the directory's path relative to `.`,
   * empty or ending in "/", which is what `normpath` leaves of
   * `os.path.join(root, file)`).
   */
  function FileLines(files: seq<string>, prefix: string): (r: seq<string>)
    ensures |r| <= |files|
  {
    if files == [] then []
    else
      var last := files[|files| - 1];
      FileLines(files[..|files| - 1], prefix) + (if last == OutputName then [] else [prefix + last])
  }

  /** What `os.walk` yields from directory `d`, top-down, as listed paths. */
  function Structure(d: Dir, prefix: string, excluded: set<string>): seq<string>
    decreases d, 1
  {
    FileLines(d.files, prefix) + Forest(d.subdirs, prefix, excluded)
  }

  /** The walk of the subdirectories `ds` that survive `dirs[:] = [...]`, in order. */
  function Forest(ds: seq<Dir>, prefix: string, excluded: set<string>): seq<string>
    decreases ds, 0
  {
    if ds == [] then []
    else
      (if ds[0].name in excluded then [] else Structure(ds[0], prefix + ds[0].name + "/", excluded))
      + Forest(ds[1..], prefix, excluded)
  }

  /** A directory still to be walked, with its path prefix. */
  datatype Pending = Pending(dir: Dir, prefix: string)

  /** The paths still to come from the directories on the stack, top first. */
  function Rest(stack: seq<Pending>, excluded: set<string>): seq<string> {
    if stack == [] then [] else Structure(stack[0].dir, stack[0].prefix, excluded) + Rest(stack[1..], excluded)
  }

  /** The kept subdirectories of a directory, as stack entries in walk order. */
  function Kept(ds: seq<Dir>, prefix: string, excluded: set<string>): seq<Pending> {
    if ds == [] then []
    else (if ds[0].name in excluded then [] else [Pending(ds[0], prefix + ds[0].name + "/")]) + Kept(ds[1..], prefix, excluded)
  }

  /** The number of directories in a tree, which bounds the walk. */
  function Size(d: Dir): nat
    decreases d, 1
  {
    1 + ForestSize(d.subdirs)
  }

  function ForestSize(ds: seq<Dir>): nat
    decreases ds, 0
  {
    if ds == [] then 0 else Size(ds[0]) + ForestSize(ds[1..])
  }

  function StackSize(stack: seq<Pending>): nat {
    if stack == [] then 0 else Size(stack[0].dir) + StackSize(stack[1..])
  }

  /** The walk still to come from one directory pushed on a stack. */
  lemma RestPush(top: Pending, kept: seq<Pending>, stack: seq<Pending>, excluded: set<string>)
    ensures Rest([top] + kept + stack, excluded) == Structure(top.dir, top.prefix, excluded) + Rest(kept + stack, excluded)
  {
    assert ([top] + kept + stack)[1..] == kept + stack;
  }

  /** Pushing the kept subdirectories leaves their walk to come. */
  lemma {:induction false} PushKept(ds: seq<Dir>, prefix: string, excluded: set<string>, stack: seq<Pending>)
    ensures Rest(Kept(ds, prefix, excluded) + stack, excluded) == Forest(ds, prefix, excluded) + Rest(stack, excluded)
  {
    if ds != [] {
      var kept := Kept(ds[1..], prefix, excluded);
      PushKept(ds[1..], prefix, excluded, stack);
      if ds[0].name !in excluded {
        var top := Pending(ds[0], prefix + ds[0].name + "/");
        RestPush(top, kept, stack, excluded);
        Assoc(Structure(ds[0], top.prefix, excluded), Forest(ds[1..], prefix, excluded), Rest(stack, excluded));
      } else {
        assert Kept(ds, prefix, excluded) == kept;
      }
    } else {
      assert Kept(ds, prefix, excluded) + stack == stack;
    }
  }

  /** Pushing the kept subdirectories leaves no more than their size to walk. */
  lemma {:induction false} PushKeptSize(ds: seq<Dir>, prefix: string, excluded: set<string>, stack: seq<Pending>)
    ensures StackSize(Kept(ds, prefix, excluded) + stack) <= ForestSize(ds) + StackSize(stack)
  {
    if ds != [] {
      PushKeptSize(ds[1..], prefix, excluded, stack);
      var tail := Kept(ds[1..], prefix, excluded) + stack;
      if ds[0].name !in excluded {
        var top := Pending(ds[0], prefix + ds[0].name + "/");
        assert Kept(ds, prefix, excluded) + stack == [top] + tail;
        assert ([top] + tail)[1..] == tail;
      } else {
        assert Kept(ds, prefix, excluded) + stack == tail;
      }
    } else {
      assert Kept(ds, prefix, excluded) + stack == stack;
    }
  }

  /** Visiting the top directory: its files come first, then its kept subdirectories replace it. */
  lemma WalkStep(stack: seq<Pending>, excluded: set<string>)
    requires stack != []
    ensures var top := stack[0]; var next := Kept(top.dir.subdirs, top.prefix, excluded) + stack[1..];
      Rest(stack, excluded) == FileLines(top.dir.files, top.prefix) + Rest(next, excluded)
      && StackSize(next) < StackSize(stack)
  {
    var top, below := stack[0], stack[1..];
    assert Rest(stack, excluded) == Structure(top.dir, top.prefix, excluded) + Rest(below, excluded);
    PushKept(top.dir.subdirs, top.prefix, excluded, below);
    Assoc(FileLines(top.dir.files, top.prefix), Forest(top.dir.subdirs, top.prefix, excluded), Rest(below, excluded));
    PushKeptSize(top.dir.subdirs, top.prefix, excluded, below);
  }

  /** The file loop of one walked directory: appends `FileLines(files, prefix)`. */
  method AppendFiles(structure: seq<string>, files: seq<string>, prefix: string) returns (r: seq<string>)
    ensures r == structure + FileLines(files, prefix)
  {
    r := structure;
    var i := 0;
    while i < |files|
      invariant 0 <= i <= |files|
      invariant r == structure + FileLines(files[..i], prefix)
    {
      assert files[..i + 1][..i] == files[..i];
      if files[i] != OutputName {
        r := r + [prefix + files[i]];
      }
      i := i + 1;
    }
    assert files[..i] == files;
  }

  /**
   * `get_file_structure(".", excluded)`: the loop over `os.walk`, with the
   * walk kept as a stack of directories still to visit.
   */
  method GetFileStructure(root: Dir, excluded: set<string>) returns (structure: seq<string>)
    ensures structure == Structure(root, "", excluded)
  {
    structure := [];
    var stack := [Pending(root, "")];
    while stack != []
      invariant structure + Rest(stack, excluded) == Structure(root, "", excluded)
      decreases StackSize(stack)
    {
      var top := stack[0];
      WalkStep(stack, excluded);
      structure := AppendFiles(structure, top.dir.files, top.prefix);
      stack := Kept(top.dir.subdirs, top.prefix, excluded) + stack[1..];
    }
  }

  /** Names the file system can give an entry: non-empty, without "/". */
  predicate PlainName(n: string) {
    n != "" && '/' !in n
  }

  /** Every name in the tree is plain. */
  predicate WellFormed(d: Dir)
    decreases d, 1
  {
    && (forall k | 0 <= k < |d.files| :: PlainName(d.files[k]))
    && (forall k | 0 <= k < |d.subdirs| :: PlainName(d.subdirs[k].name))
    && WellFormedForest(d.subdirs)
  }

  predicate WellFormedForest(ds: seq<Dir>)
    decreases ds, 0
  {
    ds == [] || (WellFormed(ds[0]) && WellFormedForest(ds[1..]))
  }

  /** The last component of a path. */
  function Basename(p: string): string {
    if p == [] || p[|p| - 1] == '/' then [] else Basename(p[..|p| - 1]) + [p[|p| - 1]]
  }

  /** A prefix that ends at a "/" (or is empty) does not change a plain name's basename. */
  lemma {:induction false} BasenameAfter(prefix: string, f: string)
    requires prefix == [] || prefix[|prefix| - 1] == '/'
    requires '/' !in f
    ensures Basename(prefix + f) == f
  {
    if f == [] {
      assert prefix + f == prefix;
    } else {
      var init := f[..|f| - 1];
      BasenameAfter(prefix, init);
      assert (prefix + f)[..|prefix + f| - 1] == prefix + init;
      assert init + [f[|f| - 1]] == f;
    }
  }

  /** Every file but the output file is listed after the prefix. */
  lemma {:induction false} FileLinesHas(files: seq<string>, prefix: string, k: nat)
    requires k < |files| && files[k] != OutputName
    ensures prefix + files[k] in FileLines(files, prefix)
  {
    if k < |files| - 1 {
      var init := files[..|files| - 1];
      FileLinesHas(init, prefix, k);
      assert init[k] == files[k];
    }
  }

  /** Every listed path of one directory is a file other than the output file, after the prefix. */
  lemma {:induction false} FileLinesFrom(files: seq<string>, prefix: string, p: string) returns (k: nat)
    requires p in FileLines(files, prefix)
    ensures k < |files| && files[k] != OutputName && p == prefix + files[k]
  {
    var init := files[..|files| - 1];
    if p in FileLines(init, prefix) {
      k := FileLinesFrom(init, prefix, p);
      assert init[k] == files[k];
    } else {
      k := |files| - 1;
    }
  }

  /** Every path the walk lists is a file name other than the output file, after a "/" or at the start. */
  lemma {:induction false} OutputNeverListed(d: Dir, prefix: string, excluded: set<string>, p: string)
    requires WellFormed(d) && (prefix == [] || prefix[|prefix| - 1] == '/')
    requires p in Structure(d, prefix, excluded)
    ensures Basename(p) != OutputName
    decreases d, 1
  {
    if p in FileLines(d.files, prefix) {
      var k := FileLinesFrom(d.files, prefix, p);
      BasenameAfter(prefix, d.files[k]);
    } else {
      OutputNeverListedForest(d.subdirs, prefix, excluded, p);
    }
  }

  lemma {:induction false} OutputNeverListedForest(ds: seq<Dir>, prefix: string, excluded: set<string>, p: string)
    requires WellFormedForest(ds) && (prefix == [] || prefix[|prefix| - 1] == '/')
    requires p in Forest(ds, prefix, excluded)
    ensures Basename(p) != OutputName
    decreases ds, 0
  {
    var child := prefix + ds[0].name + "/";
    if ds[0].name !in excluded && p in Structure(ds[0], child, excluded) {
      OutputNeverListed(ds[0], child, excluded, p);
    } else {
      OutputNeverListedForest(ds[1..], prefix, excluded, p);
    }
  }

  /** Every file of the walked directory itself is listed, except the output file. */
  lemma TopFilesListed(d: Dir, prefix: string, excluded: set<string>, f: string)
    requires f in d.files && f != OutputName
    ensures prefix + f in Structure(d, prefix, excluded)
  {
    var k :| 0 <= k < |d.files| && d.files[k] == f;
    FileLinesHas(d.files, prefix, k);
  }

  /** Exclusion prunes directories only: a file named `merge.py` at the top is still listed. */
  lemma MergeScriptListed(root: Dir)
    requires "merge.py" in root.files
    ensures "merge.py" in Structure(root, "", ExcludedDirs)
  {
    TopFilesListed(root, "", ExcludedDirs, "merge.py");
    assert "" + "merge.py" == "merge.py";
  }

  /** Every path listed from a directory starts with the directory's prefix. */
  lemma {:induction false} ListedBelow(d: Dir, prefix: string, excluded: set<string>, p: string)
    requires p in Structure(d, prefix, excluded)
    ensures StartsWith(p, prefix)
    decreases d, 1
  {
    if p in FileLines(d.files, prefix) {
      var k := FileLinesFrom(d.files, prefix, p);
      assert p[..|prefix|] == prefix;
    } else {
      ListedBelowForest(d.subdirs, prefix, excluded, p);
    }
  }

  /** A path from the walk of a kept subdirectory `ds[k]` starts with that subdirectory's prefix. */
  lemma {:induction false} ListedBelowForest(ds: seq<Dir>, prefix: string, excluded: set<string>, p: string)
    requires p in Forest(ds, prefix, excluded)
    ensures exists k | 0 <= k < |ds| :: ds[k].name !in excluded && StartsWith(p, prefix + ds[k].name + "/")
    decreases ds, 0
  {
    var child := prefix + ds[0].name + "/";
    if ds[0].name !in excluded && p in Structure(ds[0], child, excluded) {
      ListedBelow(ds[0], child, excluded, p);
    } else {
      ListedBelowForest(ds[1..], prefix, excluded, p);
      var k :| 0 <= k < |ds[1..]| && ds[1..][k].name !in excluded && StartsWith(p, prefix + ds[1..][k].name + "/");
      assert ds[k + 1] == ds[1..][k];
    }
  }

  /** A string starting with `prefix + a + "/"` spells `a` after `prefix`, then a "/". */
  lemma SlashAt(p: string, prefix: string, a: string)
    requires StartsWith(p, prefix + a + "/")
    ensures |prefix| + |a| < |p| && p[|prefix| + |a|] == '/'
    ensures forall i | 0 <= i < |a| :: p[|prefix| + i] == a[i]
  {
    var q := prefix + a + "/";
    assert p[..|q|] == q;
    assert q[|prefix| + |a|] == '/';
    forall i | 0 <= i < |a| ensures p[|prefix| + i] == a[i] {
      assert q[|prefix| + i] == a[i];
    }
  }

  /** No string starts with two different plain names, each followed by "/", after the same prefix. */
  lemma DistinctComponents(p: string, prefix: string, a: string, b: string)
    requires '/' !in a && '/' !in b && a != b
    ensures !(StartsWith(p, prefix + a + "/") && StartsWith(p, prefix + b + "/"))
  {
    if StartsWith(p, prefix + a + "/") && StartsWith(p, prefix + b + "/") {
      SlashAt(p, prefix, a);
      SlashAt(p, prefix, b);
    }
  }

  /** A plain name after `prefix` does not start with another name and a "/" after it. */
  lemma NotBelow(prefix: string, f: string, name: string)
    requires '/' !in f
    ensures !StartsWith(prefix + f, prefix + name + "/")
  {
    if |prefix + f| > |prefix| + |name| {
      assert (prefix + f)[|prefix| + |name|] == f[|name|];
    }
    assert (prefix + name + "/")[|prefix| + |name|] == '/';
  }

  /** Nothing is listed below a subdirectory whose name is excluded. */
  lemma ExcludedPruned(d: Dir, prefix: string, excluded: set<string>, k: nat, p: string)
    requires WellFormed(d) && k < |d.subdirs| && d.subdirs[k].name in excluded
    requires p in Structure(d, prefix, excluded)
    ensures !StartsWith(p, prefix + d.subdirs[k].name + "/")
  {
    var name := d.subdirs[k].name;
    if p in FileLines(d.files, prefix) {
      var m := FileLinesFrom(d.files, prefix, p);
      NotBelow(prefix, d.files[m], name);
    } else {
      ListedBelowForest(d.subdirs, prefix, excluded, p);
      var m :| 0 <= m < |d.subdirs| && d.subdirs[m].name !in excluded && StartsWith(p, prefix + d.subdirs[m].name + "/");
      DistinctComponents(p, prefix, name, d.subdirs[m].name);
    }
  }

  /** The first line `merge_files` writes. */
  const Title := "File and Folder Structure:\n"

  /** The rule under it. */
  const Rule := "===========================\n"

  /** The listing section: each path on its own line, in order. */
  function Listing(paths: seq<string>): string {
    if paths == [] then "" else Listing(paths[..|paths| - 1]) + paths[|paths| - 1] + "\n"
  }

  /** One file's block: a header naming its path, its contents, a blank line. */
  function Block(path: string, content: string): string {
    "===== " + path + " =====\n" + content + "\n\n"
  }

  /** The blocks of all files, in listing order. */
  function Blocks(paths: seq<string>, contents: string -> string): string {
    if paths == [] then "" else Blocks(paths[..|paths| - 1], contents) + Block(paths[|paths| - 1], contents(paths[|paths| - 1]))
  }

  /** The whole merged file. */
  function Merged(paths: seq<string>, contents: string -> string): string {
    Title + Rule + Listing(paths) + "\n\n" + Blocks(paths, contents)
  }

  /** The listing of one more path. */
  lemma ListingSnoc(paths: seq<string>, path: string)
    ensures Listing(paths + [path]) == Listing(paths) + path + "\n"
  {
    assert (paths + [path])[..|paths|] == paths;
  }

  /** The blocks of one more path. */
  lemma BlocksSnoc(paths: seq<string>, path: string, contents: string -> string)
    ensures Blocks(paths + [path], contents) == Blocks(paths, contents) + Block(path, contents(path))
  {
    assert (paths + [path])[..|paths|] == paths;
  }

  /** Writing a header, the contents and a blank line appends the path's block. */
  lemma WroteBlock(prev: string, path: string, content: string)
    ensures prev + "===== " + path + " =====\n" + content + "\n\n" == prev + Block(path, content)
  {
  }

  /**
   * `merge_files(file_structure)`: the text written to the output file,
   * with `contents` the text each path reads as.
   */
  method MergeFiles(paths: seq<string>, contents: string -> string) returns (out: string)
    ensures out == Merged(paths, contents)
  {
    out := Title + Rule;
    ghost var written := [];
    var i := 0;
    while i < |paths|
      invariant 0 <= i <= |paths| && written == paths[..i]
      invariant out == Title + Rule + Listing(written)
    {
      ListingSnoc(written, paths[i]);
      Assoc(Title + Rule, Listing(written), paths[i] + "\n");
      out := out + (paths[i] + "\n");
      written := written + [paths[i]];
      i := i + 1;
    }
    assert written == paths;
    out := out + "\n\n";
    ghost var head := out;
    written := [];
    i := 0;
    while i < |paths|
      invariant 0 <= i <= |paths| && written == paths[..i]
      invariant out == head + Blocks(written, contents)
    {
      BlocksSnoc(written, paths[i], contents);
      Assoc(head, Blocks(written, contents), Block(paths[i], contents(paths[i])));
      ghost var prev := out;
      out := out + "===== " + paths[i] + " =====\n";
      out := out + contents(paths[i]);
      out := out + "\n\n";
      WroteBlock(prev, paths[i], contents(paths[i]));
      written := written + [paths[i]];
      i := i + 1;
    }
    assert written == paths;
  }

  /** The index of the first newline in `s`, or |s|. */
  function NewlineAt(s: string): (k: nat)
    ensures k <= |s| && '\n' !in s[..k] && (k < |s| ==> s[k] == '\n')
  {
    if s == [] then 0 else if s[0] == '\n' then 0 else 1 + NewlineAt(s[1..])
  }

  /** Splitting newline-terminated text into its lines. */
  function Lines(s: string): seq<string>
    decreases |s|
  {
    if s == [] then []
    else
      var k := NewlineAt(s);
      if k == |s| then [s] else [s[..k]] + Lines(s[k + 1..])
  }

  /** The first line of `line + "\n" + rest` is `line` when it has no newline. */
  lemma {:induction false} NewlineAfter(line: string, rest: string)
    requires '\n' !in line
    ensures NewlineAt(line + "\n" + rest) == |line|
    decreases |line|
  {
    if line != [] {
      NewlineAfter(line[1..], rest);
      assert (line + "\n" + rest)[1..] == line[1..] + "\n" + rest;
    }
  }

  /** The listing as "first line, then the rest" (the recursion builds it from the end). */
  lemma {:induction false} ListingFront(paths: seq<string>)
    requires paths != []
    ensures Listing(paths) == paths[0] + "\n" + Listing(paths[1..])
  {
    var init, last := paths[..|paths| - 1], paths[|paths| - 1];
    if |paths| > 1 {
      calc {
        Listing(paths);
        Listing(init) + last + "\n";
        { ListingFront(init); }
        init[0] + "\n" + Listing(init[1..]) + last + "\n";
        { assert init[1..] == paths[1..][..|paths[1..]| - 1]; }
        paths[0] + "\n" + Listing(paths[1..]);
      }
    } else {
      assert init == [];
    }
  }

  /** Reading the listing back line by line gives the paths, when no path holds a newline. */
  lemma {:induction false} ListingLines(paths: seq<string>)
    requires forall k | 0 <= k < |paths| :: '\n' !in paths[k]
    ensures Lines(Listing(paths)) == paths
    decreases |paths|
  {
    if paths != [] {
      ListingFront(paths);
      var rest := Listing(paths[1..]);
      NewlineAfter(paths[0], rest);
      var s := paths[0] + "\n" + rest;
      assert s[..|paths[0]|] == paths[0];
      assert s[|paths[0]| + 1..] == rest;
      ListingLines(paths[1..]);
    }
  }

  /** The blocks of two lists of paths, one after the other. */
  lemma {:induction false} BlocksAppend(a: seq<string>, b: seq<string>, contents: string -> string)
    ensures Blocks(a + b, contents) == Blocks(a, contents) + Blocks(b, contents)
    decreases |b|
  {
    if b != [] {
      var init := b[..|b| - 1];
      BlocksAppend(a, init, contents);
      assert (a + b)[..|a + b| - 1] == a + init;
    } else {
      assert a + b == a;
    }
  }

  /** The blocks of a single path are its block. */
  lemma BlocksOne(path: string, contents: string -> string)
    ensures Blocks([path], contents) == Block(path, contents(path))
  {
    assert [path][..0] == [];
  }

  /** The blocks around one path: those of the paths before it, its own, those after it. */
  lemma BlockOf(before: seq<string>, path: string, after: seq<string>, contents: string -> string)
    ensures Blocks(before + [path] + after, contents) == Blocks(before, contents) + Block(path, contents(path)) + Blocks(after, contents)
  {
    BlocksAppend(before + [path], after, contents);
    BlocksAppend(before, [path], contents);
    BlocksOne(path, contents);
  }
}
