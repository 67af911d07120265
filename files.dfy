/** The part of the filesystem the sorter touches: which files exist, which
    directories exist, `os.path.exists`, `os.makedirs(..., exist_ok=True)`
    and `shutil.move`. */
module Files {
  import opened Strings

  /** A file path split as `os.path.join(dir, name)`: `name` is its basename. */
  datatype Path = Path(dir: string, name: string)

  /** What one processing call did with the file it was given. */
  datatype Outcome =
    | Ignored              // the name filter dropped it
    | Vanished             // it no longer existed when processing began
    | Unstable             // its size never settled, or reading it failed
    | Failed               // an exception inside the handler's `try` was caught; nothing moved
    | Raised               // an exception escaped the handler; nothing moved
    | Sorted(dest: Path, suffix: nat)  // moved to `dest`; `suffix` is the `_k` used, 0 for none

  /** Where a file is, whatever the spelling of its directory: the directory
      in its normal spelling and the name. Two paths with the same place
      name the same file. */
  function Place(p: Path): (r: Path)
    ensures r.name == p.name && r.dir == NormPath(p.dir)
    ensures NormPath(r.dir) == r.dir
  {
    Path(NormPath(p.dir), p.name)
  }

  /** Every file is recorded at its place, so each file is recorded once. */
  predicate Normal(files: set<Path>) {
    forall p :: p in files ==> Place(p) == p
  }

  /** `D/x` and `D//x` are the file `D/x`. */
  lemma SpellingSamePlace(d: string, n: string)
    requires d != []
    ensures Place(Path(d + "/", n)) == Place(Path(d, n))
  {
    NormTrailingSlash(d);
  }

  /** A file recorded in directory `d` is found when it is looked up in the
      directory spelled `d/`: the lookup is by place. */
  lemma FoundInAnySpelling(files: set<Path>, d: string, n: string)
    requires Normal(files) && Path(d, n) in files && d != []
    ensures Place(Path(d + "/", n)) in files
  {
    SpellingSamePlace(d, n);
  }

  /** The path string of a file. */
  function FullPath(p: Path): string {
    Join(p.dir, p.name)
  }

  /** What `os.path.join(d, n)` puts in front of a relative name `n`. */
  function DirPrefix(d: string): (pre: string)
    ensures forall n :: !StartsWith(n, "/") ==> Join(d, n) == pre + n
  {
    if d == [] || d[|d| - 1] == '/' then d else d + "/"
  }

  /** `d` and every directory above it: what `os.makedirs(d)` creates. */
  function DirAndParents(d: string): (ds: set<string>)
    ensures d in ds
    ensures forall i :: 0 < i < |d| && d[i] == '/' ==> d[..i] in ds
    ensures forall q :: q in ds ==> q == d || (|q| < |d| && d[..|q|] == q && d[|q|] == '/')
  {
    {d} + set i | 0 < i < |d| && d[i] == '/' :: d[..i]
  }

  /** The names `n` for which `os.path.exists(os.path.join(d, n))` holds,
      for a name `n` without `/`: a file named `n` in a directory spelled
      like `d` up to doubled or trailing `/`, or a directory at `d/n` in
      any such spelling. */
  function TakenNames(files: set<Path>, dirs: set<string>, d: string): (names: set<string>)
    ensures forall n :: n in names <==>
              (exists e :: Path(e, n) in files && NormPath(e) == NormPath(d)) ||
              (exists q :: q in dirs && NormPath(q) == DirPrefix(NormPath(d)) + n)
  {
    FileNamesIn(files, NormPath(d)) + DirNamesUnder(dirs, DirPrefix(NormPath(d)))
  }

  /** The names of the files in the directory whose normal spelling is `nd`. */
  function FileNamesIn(files: set<Path>, nd: string): (names: set<string>)
    ensures forall n :: n in names <==> exists e :: Path(e, n) in files && NormPath(e) == nd
  {
    var names := set p | p in files && NormPath(p.dir) == nd :: p.name;
    assert forall e, n :: Path(e, n) in files && NormPath(e) == nd ==> n in names by {
      forall e, n | Path(e, n) in files && NormPath(e) == nd ensures n in names {
        assert Path(e, n).name == n;
      }
    }
    names
  }

  /** The names `n` for which `pre + n` is a directory, in its normal spelling. */
  function DirNamesUnder(dirs: set<string>, pre: string): (names: set<string>)
    ensures forall n :: n in names <==> exists q :: q in dirs && NormPath(q) == pre + n
  {
    var normal := set q | q in dirs :: NormPath(q);
    var names := set x | x in normal && StartsWith(x, pre) :: x[|pre|..];
    assert forall n :: n in names ==> exists q :: q in dirs && NormPath(q) == pre + n by {
      forall n | n in names ensures exists q :: q in dirs && NormPath(q) == pre + n {
        var x :| x in normal && StartsWith(x, pre) && x[|pre|..] == n;
        var q :| q in dirs && NormPath(q) == x;
        PrefixThenRest(x, pre);
      }
    }
    assert forall q, n :: q in dirs && NormPath(q) == pre + n ==> n in names by {
      forall q, n | q in dirs && NormPath(q) == pre + n ensures n in names {
        RestAfterPrefix(pre, n);
        assert NormPath(q) in normal;
      }
    }
    names
  }

  lemma PrefixThenRest(x: string, pre: string)
    requires StartsWith(x, pre)
    ensures x == pre + x[|pre|..]
  {
    assert x == x[..|pre|] + x[|pre|..];
  }

  lemma RestAfterPrefix(pre: string, n: string)
    ensures StartsWith(pre + n, pre) && (pre + n)[|pre|..] == n
  {
    assert (pre + n)[..|pre|] == pre;
  }

  /** A trailing `/` on the destination changes nothing that is taken. */
  lemma TrailingSlashSameNames(files: set<Path>, dirs: set<string>, d: string)
    requires d != []
    ensures TakenNames(files, dirs, d + "/") == TakenNames(files, dirs, d)
  {
    NormTrailingSlash(d);
  }

  /** Nor does a doubled `/` inside it. */
  lemma DoubleSlashSameNames(files: set<Path>, dirs: set<string>, a: string, b: string)
    ensures TakenNames(files, dirs, a + "//" + b) == TakenNames(files, dirs, a + "/" + b)
  {
    NormDoubleSlash(a, b);
  }

  /** A file already in `d` takes its name in the destination spelled
      `d/`, as `os.path.exists` sees it. */
  lemma TrailingSlashCollision(d: string, n: string)
    requires d != []
    ensures n in TakenNames({Path(d, n)}, {}, d + "/")
  {
    NormTrailingSlash(d);
    assert Path(d, n) in {Path(d, n)};
  }

  /** A file sits at `d` or at a directory above it, so `os.makedirs(d)`
      raises instead of creating it. */
  predicate BlockedByFile(files: set<Path>, d: string) {
    exists p :: p in files && NormPath(FullPath(p)) in DirAndParents(NormPath(d))
  }

  class FileSystem {
    var files: set<Path>
    var dirs: set<string>

    /** Files are recorded at their places. */
    predicate Valid()
      reads this
    {
      Normal(files)
    }

    constructor (files0: set<Path>, dirs0: set<string>)
      ensures Valid()
      ensures files == (set p | p in files0 :: Place(p)) && dirs == dirs0
    {
      files := set p | p in files0 :: Place(p);
      dirs := dirs0;
    }

    /** `os.makedirs(d, exist_ok=True)`: `d` and the directories above it,
        in their normal spelling, exist afterwards, unless a file is in the way; then it raises (`ok`
        is false) and nothing changes. */
    method MakeDirs(d: string) returns (ok: bool)
      modifies this
      ensures ok <==> !BlockedByFile(old(files), d)
      ensures ok ==> dirs == old(dirs) + DirAndParents(NormPath(d))
      ensures !ok ==> dirs == old(dirs)
      ensures files == old(files)
    {
      ok := !BlockedByFile(files, d);
      if ok {
        dirs := dirs + DirAndParents(NormPath(d));
      }
    }

    /** `shutil.move(src, dst)`: the file at the place of `src` disappears
        and one appears at the place of `dst`; every other file stays where
        it was. */
    method Move(src: Path, dst: Path)
      requires Valid() && Place(src) in files
      modifies this
      ensures Valid()
      ensures files == old(files) - {Place(src)} + {Place(dst)}
      ensures dirs == old(dirs)
    {
      files := files - {Place(src)} + {Place(dst)};
    }
  }
}
