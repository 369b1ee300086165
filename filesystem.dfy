/**
 * The file system as `process_item`, `generate_images` and `generate_bif`
 * see it (src/plex/generator.py:174-177, 187-214, 237-273): a map from file
 * paths to their bytes and a set of directory paths, updated in place by the
 * `os` and `shutil` calls the code makes. Where the call would raise, the
 * method reports failure and changes nothing.
 */
module FileSystem {
  import opened LittleEndian
  import opened Text

  /** `p` is `dir` itself or lies somewhere below it. */
  predicate Under(p: string, dir: string) {
    p == dir || StartsWith(p, dir + "/")
  }

  /** `p` names an entry directly inside `dir`. */
  predicate InDir(p: string, dir: string) {
    StartsWith(p, dir + "/") && '/' !in p[|dir| + 1..]
  }

  /** The directories above `p`: each prefix that ends just before a `/`. */
  function Ancestors(p: string): (r: set<string>)
    ensures forall a | a in r :: |a| < |p| && StartsWith(p, a + "/")
  {
    set i | 0 < i < |p| && p[i] == '/' :: p[..i]
  }

  /** The names of the files directly inside `dir`. */
  function Listing(files: map<string, seq<Byte>>, dir: string): set<string> {
    set p | p in files && InDir(p, dir) :: p[|dir| + 1..]
  }

  /** The names of the directories directly inside `dir`. */
  function Subdirs(dirs: set<string>, dir: string): set<string> {
    set d | d in dirs && InDir(d, dir) :: d[|dir| + 1..]
  }

  /** The names `os.listdir(dir)` reports: its files and its subdirectories. */
  function Entries(files: map<string, seq<Byte>>, dirs: set<string>, dir: string): set<string> {
    Listing(files, dir) + Subdirs(dirs, dir)
  }

  /** The directory part of `p`: everything before its last `/`, or "" when it has none. */
  function DirName(p: string): string
    decreases |p|
  {
    if p == "" then "" else if p[|p| - 1] == '/' then p[..|p| - 1] else DirName(p[..|p| - 1])
  }

  /**
   * `open` can create `p`: its directory is the working directory (no `/`
   * in `p`), the root (`p` starts with its only `/`), or an existing directory.
   */
  predicate ParentExists(p: string, dirs: set<string>) {
    DirName(p) == "" || DirName(p) in dirs
  }

  /** A name without `/` joined onto `dir` lies directly in `dir`. */
  lemma {:induction false} DirNameJoin(dir: string, name: string)
    requires '/' !in name
    ensures DirName(dir + "/" + name) == dir
    decreases |name|
  {
    if name == [] {
      assert dir + "/" + name == dir + "/";
    } else {
      var init := name[..|name| - 1];
      assert (dir + "/" + name)[..|dir + "/" + name| - 1] == dir + "/" + init;
      assert '/' !in init by {
        forall k | 0 <= k < |init| ensures init[k] != '/' {
          assert init[k] == name[k];
        }
      }
      DirNameJoin(dir, init);
    }
  }

  class FileSystem {
    var files: map<string, seq<Byte>>
    var dirs: set<string>

    /** Nothing is both a file and a directory. */
    ghost predicate Valid()
      reads this
    {
      files.Keys !! dirs
    }

    constructor (files0: map<string, seq<Byte>>, dirs0: set<string>)
      requires files0.Keys !! dirs0
      ensures Valid() && files == files0 && dirs == dirs0
    {
      files := files0;
      dirs := dirs0;
    }

    /** `os.path.isfile`. */
    predicate IsFile(p: string)
      reads this
    {
      p in files
    }

    /** `os.path.exists`. */
    predicate Exists(p: string)
      reads this
    {
      p in files || p in dirs
    }

    /** The names `os.listdir(dir)` reports. */
    function EntryNames(dir: string): set<string>
      reads this
    {
      Entries(files, dirs, dir)
    }

    /**
     * `os.makedirs(p, exist_ok=True)`: creates `p` and the directories above
     * it; raises when `p` is empty or it or a directory above it is a file.
     */
    method MakeDirs(p: string) returns (ok: bool)
      requires Valid()
      modifies this
      ensures Valid() && files == old(files)
      ensures ok <==> p != "" && p !in old(files) && Ancestors(p) !! old(files).Keys
      ensures dirs == if ok then old(dirs) + {p} + Ancestors(p) else old(dirs)
    {
      ok := p != "" && p !in files && Ancestors(p) !! files.Keys;
      if ok {
        dirs := dirs + {p} + Ancestors(p);
      }
    }

    /**
     * `shutil.rmtree(p, ignore_errors=True)`: removes the directory `p` and
     * everything below it; on any other path the error is ignored.
     */
    method RemoveTree(p: string)
      requires Valid()
      modifies this
      ensures Valid()
      ensures p in old(dirs) ==> files == (map q | q in old(files) && !Under(q, p) :: old(files)[q])
      ensures p in old(dirs) ==> dirs == set q | q in old(dirs) && !Under(q, p)
      ensures p !in old(dirs) ==> files == old(files) && dirs == old(dirs)
      ensures p in old(dirs) ==> forall q | q in files :: !Under(q, p)
    {
      if p in dirs {
        files := map q | q in files && !Under(q, p) :: files[q];
        dirs := set q | q in dirs && !Under(q, p);
      }
    }

    /** `os.remove(p)`: deletes a file; raises on a directory or a missing path. */
    method Remove(p: string) returns (ok: bool)
      requires Valid()
      modifies this
      ensures Valid() && dirs == old(dirs)
      ensures ok <==> p in old(files)
      ensures files == if ok then old(files) - {p} else old(files)
    {
      ok := p in files;
      if ok {
        files := files - {p};
      }
    }

    /**
     * `os.rename(src, dst)` for a file, as on POSIX: an existing file at
     * `dst` is replaced; raises when `src` is not a file or `dst` is a directory.
     */
    method Rename(src: string, dst: string) returns (ok: bool)
      requires Valid()
      modifies this
      ensures Valid() && dirs == old(dirs)
      ensures ok <==> src in old(files) && dst !in old(dirs)
      ensures files == if ok then Moved(old(files), src, dst) else old(files)
    {
      ok := src in files && dst !in dirs;
      if ok {
        files := Moved(files, src, dst);
      }
    }

    /**
     * `open(p, "wb")` and a write: raises when `p` is empty, is a directory,
     * or its directory does not exist.
     */
    method WriteFile(p: string, data: seq<Byte>) returns (ok: bool)
      requires Valid()
      modifies this
      ensures Valid() && dirs == old(dirs)
      ensures ok <==> p != "" && p !in old(dirs) && ParentExists(p, old(dirs))
      ensures files == if ok then old(files)[p := data] else old(files)
    {
      ok := p != "" && p !in dirs && ParentExists(p, dirs);
      if ok {
        files := files[p := data];
      }
    }

    /**
     * `os.listdir(dir)`: the names of the files and directories in `dir`,
     * each once, in whatever order the system lists them.
     */
    method ListDir(dir: string) returns (names: seq<string>)
      ensures Distinct(names) && Names(names) == EntryNames(dir)
    {
      var all := EntryNames(dir);
      var left := all;
      names := [];
      while left != {}
        invariant Distinct(names)
        invariant left !! Names(names)
        invariant left + Names(names) == all
        decreases |left|
      {
        var n :| n in left;
        Extend(names, n);
        names := names + [n];
        left := left - {n};
      }
    }
  }

  /** The map after moving the file at `src` to `dst`, replacing whatever was there. */
  function Moved(files: map<string, seq<Byte>>, src: string, dst: string): (r: map<string, seq<Byte>>)
    requires src in files
    ensures dst in r && r[dst] == files[src]
    ensures src != dst ==> src !in r
    ensures forall q | q != src && q != dst :: (q in r <==> q in files) && (q in r ==> r[q] == files[q])
  {
    if src == dst then files else (files - {src})[dst := files[src]]
  }

  /** The names a listing holds. */
  function Names(s: seq<string>): set<string> {
    set n | n in s
  }

  predicate Distinct(s: seq<string>) {
    forall i, j | 0 <= i < j < |s| :: s[i] != s[j]
  }

  /** Appending a new name keeps a listing free of repeats and adds just that name. */
  lemma Extend(s: seq<string>, n: string)
    requires Distinct(s) && n !in Names(s)
    ensures Distinct(s + [n]) && Names(s + [n]) == Names(s) + {n}
  {
    var t := s + [n];
    forall i | 0 <= i < |s| ensures t[i] != n {
      assert s[i] in Names(s);
    }
  }

  /** In a list without repeats every listed name occurs exactly once. */
  lemma {:induction false} DistinctOnce(a: seq<string>, x: string)
    requires Distinct(a)
    ensures multiset(a)[x] == if x in a then 1 else 0
    decreases |a|
  {
    if a != [] {
      assert a == [a[0]] + a[1..];
      assert Distinct(a[1..]) by {
        forall i, j | 0 <= i < j < |a[1..]| ensures a[1..][i] != a[1..][j] {
          assert a[1..][i] == a[i + 1] && a[1..][j] == a[j + 1];
        }
      }
      DistinctOnce(a[1..], x);
      assert a[0] !in a[1..] by {
        forall i | 0 <= i < |a[1..]| ensures a[1..][i] != a[0] {
          assert a[1..][i] == a[i + 1];
        }
      }
    }
  }

  /** Two listings without repeats of one set of names are arrangements of one another. */
  lemma DistinctListings(a: seq<string>, b: seq<string>)
    requires Distinct(a) && Distinct(b) && Names(a) == Names(b)
    ensures multiset(a) == multiset(b)
  {
    forall x ensures multiset(a)[x] == multiset(b)[x] {
      DistinctOnce(a, x);
      DistinctOnce(b, x);
      if x in a {
        assert x in Names(a);
      }
      if x in b {
        assert x in Names(b);
      }
    }
  }
}
