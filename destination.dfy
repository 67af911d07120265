/** The duplicate-name loop that all three versions of the sorter run before
    moving a file: try the name itself, then `base_1ext`, `base_2ext`, ...
    (suffix before the extension) until a name is free in the destination. */
module Destination {
  import opened Strings
  import opened Files

  /** The name tried at attempt `k`: the name itself at 0, `base_k ext` after.
      Splitting the extension off an attempt gives back the numbered root and
      the extension of `name`: the number goes before the extension. */
  function Candidate(name: string, k: nat): (r: string)
    ensures k == 0 ==> r == name
    ensures k > 0 ==> SplitExt(r) == (SplitExt(name).0 + "_" + NatToString(k), SplitExt(name).1)
  {
    if k == 0 then name
    else
      var (base, ext) := SplitExt(name);
      SuffixedSplit(name, NatToString(k));
      base + "_" + NatToString(k) + ext
  }

  /** Inserting `_digits` between the root and the extension of `name` keeps
      the extension. */
  lemma SuffixedSplit(name: string, digits: string)
    requires forall i :: 0 <= i < |digits| ==> IsDigit(digits[i])
    ensures var (base, ext) := SplitExt(name);
            SplitExt(base + "_" + digits + ext) == (base + "_" + digits, ext)
  {
    var (base, ext) := SplitExt(name);
    var c := base + "_" + digits + ext;
    var m := |base|;
    if ext != [] {
      assert c[m] == '_';
      assert c[m + 1 + |digits|] == '.';
      assert InBasename(c, m) by {
        forall k | 0 <= k < |c| && m <= k ensures c[k] != '/' {
          if k == m {
          } else if k <= m + |digits| {
            assert c[k] == digits[k - m - 1];
          } else {
            assert c[k] == ext[k - m - 1 - |digits|];
          }
        }
      }
      assert HasExtension(c);
      var r := SplitExt(c);
      assert c[|c| - |r.1|..] == r.1;
      assert c[|c| - |ext|..] == ext;
      DotSuffixAtLastDot(c, r.1);
      DotSuffixAtLastDot(c, ext);
      assert r.1 == ext;
      assert r.0 == c[..|c| - |ext|] == base + "_" + digits;
    } else {
      assert base == name;
      if HasExtension(c) {
        var i, j :| 0 <= i < j < |c| && c[i] != '.' && c[j] == '.' && InBasename(c, i);
        assert InBasename(name, i) by {
          forall k | 0 <= k < |name| && i <= k ensures name[k] != '/' {
            assert name[k] == c[k];
          }
        }
      }
      assert SplitExt(c).1 == [];
      assert c == base + "_" + digits;
    }
  }

  /** Different attempts try different names. */
  lemma CandidateInjective(name: string, j: nat, k: nat)
    requires Candidate(name, j) == Candidate(name, k)
    ensures j == k
  {
    var (base, ext) := SplitExt(name);
    if j != 0 && k != 0 {
      var dj, dk := NatToString(j), NatToString(k);
      var s := Candidate(name, j);
      assert s == base + "_" + dj + ext && s == base + "_" + dk + ext;
      assert |dj| == |dk|;
      assert dj == s[|base| + 1..|base| + 1 + |dj|];
      assert dk == s[|base| + 1..|base| + 1 + |dk|];
      NatToStringInjective(j, k);
    }
  }

  /** The names tried by the first `k` attempts. */
  ghost function Attempts(name: string, k: nat): (tried: set<string>)
    ensures forall j :: 0 <= j < k ==> Candidate(name, j) in tried
  {
    set j | 0 <= j < k :: Candidate(name, j)
  }

  /** The first `k` attempts are `k` different names. */
  lemma {:induction false} AttemptsCount(name: string, k: nat)
    ensures |Attempts(name, k)| == k
  {
    if k > 0 {
      AttemptsCount(name, k - 1);
      var c := Candidate(name, k - 1);
      if c in Attempts(name, k - 1) {
        var j :| 0 <= j < k - 1 && Candidate(name, j) == c;
        CandidateInjective(name, j, k - 1);
      }
      assert Attempts(name, k) == Attempts(name, k - 1) + {c};
    }
  }

  /** A subset of a finite set is no larger than it. */
  lemma {:induction false} SubsetSize(a: set<string>, b: set<string>)
    requires a <= b
    ensures |a| <= |b|
    decreases |a|
  {
    if a != {} {
      var x :| x in a;
      SubsetSize(a - {x}, b - {x});
    }
  }

  /** `r` is what the loop settles on for `name` among `taken`: attempt `k`,
      which is free, with every earlier attempt taken. */
  predicate IsFreeName(taken: set<string>, name: string, r: string, k: nat) {
    r == Candidate(name, k) && r !in taken
    && forall j :: 0 <= j < k ==> Candidate(name, j) in taken
  }

  /** The collision loop: starts from `name` with counter 1 and tries
      `base_counter ext` while the current name is taken. It terminates
      because the attempts are pairwise distinct and `taken` is finite. */
  method FreeName(taken: set<string>, name: string) returns (r: string, k: nat)
    ensures IsFreeName(taken, name, r, k)
  {
    r, k := name, 0;
    var counter := 1;
    while r in taken
      invariant k == counter - 1 >= 0 && r == Candidate(name, k)
      invariant forall j :: 0 <= j < k ==> Candidate(name, j) in taken
      decreases |taken| - k
    {
      AttemptsCount(name, k + 1);
      SubsetSize(Attempts(name, k + 1), taken);
      r := Candidate(name, counter);
      counter := counter + 1;
      k := counter - 1;
    }
  }

  /** The free name the loop settles on is unique: at most one attempt is
      both free and preceded only by taken attempts. */
  lemma FreeNameUnique(taken: set<string>, name: string, r1: string, k1: nat, r2: string, k2: nat)
    requires IsFreeName(taken, name, r1, k1) && IsFreeName(taken, name, r2, k2)
    ensures r1 == r2 && k1 == k2
  {
  }

  /** In a directory holding exactly the first `n` attempts for `name`, the
      loop settles on attempt `n`. */
  lemma FreeNameAfterAttempts(taken: set<string>, name: string, placed: seq<string>, r: string, k: nat)
    requires forall i :: 0 <= i < |placed| ==> placed[i] == Candidate(name, i)
    requires forall x :: x in taken <==> x in placed
    requires IsFreeName(taken, name, r, k)
    ensures k == |placed|
  {
    var n := |placed|;
    if n < k {
      assert Candidate(name, n) in placed;
      var j :| 0 <= j < n && placed[j] == Candidate(name, n);
      CandidateInjective(name, j, n);
    }
  }

  /** Resolving the same name `n` times into an empty directory, each result
      being added to the directory, yields `name, name_1, ..., name_(n-1)`. */
  method ResolveRepeatedly(name: string, n: nat) returns (placed: seq<string>)
    ensures |placed| == n
    ensures forall i :: 0 <= i < n ==> placed[i] == Candidate(name, i)
  {
    var taken: set<string> := {};
    placed := [];
    while |placed| < n
      invariant |placed| <= n
      invariant forall i :: 0 <= i < |placed| ==> placed[i] == Candidate(name, i)
      invariant forall x :: x in taken <==> x in placed
    {
      var r, k := FreeName(taken, name);
      FreeNameAfterAttempts(taken, name, placed, r, k);
      PlaceNext(taken, placed, r);
      placed := placed + [r];
      taken := taken + {r};
    }
  }

  /** Adding the same name to the directory and to the list keeps them in step. */
  lemma PlaceNext(taken: set<string>, placed: seq<string>, r: string)
    requires forall x :: x in taken <==> x in placed
    ensures forall x :: x in taken + {r} <==> x in placed + [r]
  {
  }

  /** The end of the handler's `try` block: after the destination directory
      exists, find the first free attempt for `name` in `dest` and move `src`
      there. The move raises, and the error is caught, when `src` is gone or
      `moveError` holds (a permission or cross-volume failure); then nothing
      moves. `dirs` are the directories after `os.makedirs`. */
  predicate MovedToFreeName(files0: set<Path>, dirs: set<string>, files1: set<Path>,
                            src: Path, dest: string, name: string, moveError: bool, outcome: Outcome) {
    if Place(src) in files0 && !moveError then
      outcome.Sorted? && outcome.dest.dir == dest &&
      IsFreeName(TakenNames(files0, dirs, dest), name, outcome.dest.name, outcome.suffix) &&
      files1 == files0 - {Place(src)} + {Place(outcome.dest)}
    else
      outcome == Failed && files1 == files0
  }

  /** Moving to a free name overwrites no file and no directory, whatever
      spelling of the destination they were recorded under, and loses no
      file: there are as many files afterwards as before. */
  lemma MoveKeepsEveryFile(files0: set<Path>, dirs: set<string>, files1: set<Path>,
                           src: Path, dest: string, name: string, moveError: bool, outcome: Outcome)
    requires MovedToFreeName(files0, dirs, files1, src, dest, name, moveError, outcome)
    ensures outcome.Sorted? ==> Place(outcome.dest) !in files0 && Place(src) !in files1
    ensures outcome.Sorted? ==>
              forall p :: p in files0 && NormPath(p.dir) == NormPath(dest) ==> p.name != outcome.dest.name
    ensures outcome.Sorted? ==>
              forall q :: q in dirs ==> NormPath(q) != DirPrefix(NormPath(dest)) + outcome.dest.name
    ensures forall p :: p in files0 && p != Place(src) ==> p in files1
    ensures Normal(files0) ==> Normal(files1)
    ensures |files1| == |files0|
  {
    if outcome.Sorted? {
      var taken := TakenNames(files0, dirs, dest);
      assert outcome.dest.name !in taken;
      forall p | p in files0 && NormPath(p.dir) == NormPath(dest) ensures p.name != outcome.dest.name {
        assert Path(p.dir, p.name) in files0;
      }
      var there := Place(outcome.dest);
      assert there == Path(NormPath(dest), outcome.dest.name);
      assert NormPath(there.dir) == NormPath(dest);
      assert there != Place(src);
      assert |files0 - {Place(src)}| == |files0| - 1;
    }
  }

  /** A directory already named like the file, in any spelling, counts as
      taken, as `os.path.exists` reports it: the loop moves on to a numbered
      attempt. */
  lemma ExistingDirectoryForcesSuffix(files: set<Path>, dirs: set<string>, dest: string,
                                      name: string, q: string, r: string, k: nat)
    requires q in dirs && NormPath(q) == DirPrefix(NormPath(dest)) + name
    requires IsFreeName(TakenNames(files, dirs, dest), name, r, k)
    ensures k > 0 && r != name
  {
  }

  /** The collision loop followed by `shutil.move`, as the three handlers run them. */
  method MoveToFreeName(fs: FileSystem, src: Path, dest: string, name: string, moveError: bool)
    returns (outcome: Outcome)
    requires fs.Valid()
    modifies fs
    ensures fs.Valid()
    ensures fs.dirs == old(fs.dirs)
    ensures MovedToFreeName(old(fs.files), fs.dirs, fs.files, src, dest, name, moveError, outcome)
  {
    var free, k := FreeName(TakenNames(fs.files, fs.dirs, dest), name);
    if Place(src) in fs.files && !moveError {
      fs.Move(src, Path(dest, free));
      outcome := Sorted(Path(dest, free), k);
    } else {
      outcome := Failed;
    }
  }
}
