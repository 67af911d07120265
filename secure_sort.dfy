/** secure_smart_sort.py, the extension-only version. `wait_for_download`
    polls the file size until two equal positive readings follow each other,
    `sort_file` picks the first destination folder listing the extension and
    moves the file under a free name, and `process_file` chains the name
    filter, the stability gate and the sort. */
module SecureSort {
  import opened Strings
  import opened Rules
  import opened Files
  import Destination

  /** The watched directory, which is also the root of the destination folders. */
  const DownloadsDir := "~/Downloads"

  const Destinations: seq<ExtensionRule> := [
    ("Images", [".jpg", ".jpeg", ".png", ".gif", ".svg", ".webp"]),
    ("Documents", [".pdf", ".docx", ".txt", ".xlsx", ".pptx", ".csv"]),
    ("Audio", [".mp3", ".wav", ".aac"]),
    ("Video", [".mp4", ".mkv", ".mov", ".avi"]),
    ("Archives", [".zip", ".rar", ".7z", ".tar", ".gz"]),
    ("Installers", [".exe", ".msi", ".dmg", ".pkg"])]

  /** The number of size readings `wait_for_download` takes at most. */
  const MaxAttempts := 30

  // ---------------------------------------------------------------------
  // Stability detection

  /** The verdict of the size poll over `readings`, where `previous` is the
      size read just before them. A reading is `None` when
      `os.path.getsize` raised (the file vanished), which ends the poll with
      false; a reading equal to the previous one and positive ends it with
      true. */
  function PollStable(readings: seq<Option<nat>>, previous: int): bool {
    if readings == [] then false
    else
      match readings[0]
      case None => false
      case Some(size) => (size == previous && size > 0) || PollStable(readings[1..], size)
  }

  /** Reading `i` is the one that proves the file stable: every reading up to
      it succeeded, and it is positive and equal to the reading before it. */
  ghost predicate StableAt(readings: seq<Option<nat>>, previous: int, i: int) {
    0 <= i < |readings| &&
    (forall j :: 0 <= j <= i ==> readings[j].Some?) &&
    readings[i].value > 0 &&
    readings[i].value == (if i == 0 then previous else readings[i - 1].value)
  }

  /** The poll succeeds exactly when some reading proves the file stable. */
  lemma {:induction false} PollStableIff(readings: seq<Option<nat>>, previous: int)
    ensures PollStable(readings, previous) <==> exists i :: StableAt(readings, previous, i)
    decreases |readings|
  {
    if readings != [] {
      match readings[0]
      case None =>
      case Some(size) =>
        var rest := readings[1..];
        PollStableIff(rest, size);
        if size == previous && size > 0 {
          assert StableAt(readings, previous, 0);
        } else {
          if exists i :: StableAt(rest, size, i) {
            var i :| StableAt(rest, size, i);
            assert StableAt(readings, previous, i + 1);
          }
          if exists i :: StableAt(readings, previous, i) {
            var i :| StableAt(readings, previous, i);
            assert i > 0;
            assert StableAt(rest, size, i - 1);
          }
        }
    }
  }

  /** `wait_for_download`: at most `MaxAttempts` readings are taken, so only
      the first `MaxAttempts` entries of `readings` matter; the size before
      the first reading is -1. */
  method WaitForDownload(readings: seq<Option<nat>>) returns (stable: bool)
    requires |readings| >= MaxAttempts
    ensures stable == PollStable(readings[..MaxAttempts], -1)
  {
    var historicalSize: int := -1;
    var attempt := 0;
    while attempt < MaxAttempts
      invariant 0 <= attempt <= MaxAttempts
      invariant PollStable(readings[..MaxAttempts], -1) == PollStable(readings[attempt..MaxAttempts], historicalSize)
    {
      assert readings[attempt..MaxAttempts][0] == readings[attempt];
      assert readings[attempt..MaxAttempts][1..] == readings[attempt + 1..MaxAttempts];
      match readings[attempt]
      case None =>
        return false;
      case Some(currentSize) =>
        if currentSize == historicalSize && currentSize > 0 {
          return true;
        }
        historicalSize := currentSize;
      attempt := attempt + 1;
    }
    return false;
  }

  /** The first reading can never prove stability, because the size before
      it is -1: a successful poll takes at least two readings. */
  lemma FirstReadingNeverStable(readings: seq<Option<nat>>)
    ensures PollStable(readings, -1) ==> |readings| >= 2
  {
    PollStableIff(readings, -1);
    if PollStable(readings, -1) {
      var i :| StableAt(readings, -1, i);
      assert i > 0;
    }
  }

  /** A file whose size stays zero is never reported stable. */
  lemma {:induction false} ZeroSizeNeverStable(readings: seq<Option<nat>>, previous: int)
    requires forall i :: 0 <= i < |readings| ==> readings[i] == Some(0)
    ensures !PollStable(readings, previous)
    decreases |readings|
  {
    if readings != [] {
      ZeroSizeNeverStable(readings[1..], 0);
    }
  }

  /** A file whose size grows at every reading is never reported stable. */
  lemma {:induction false} GrowingNeverStable(readings: seq<Option<nat>>, previous: int)
    requires forall i :: 0 <= i < |readings| ==> readings[i].Some?
    requires |readings| > 0 ==> previous < readings[0].value
    requires forall i :: 0 < i < |readings| ==> readings[i - 1].value < readings[i].value
    ensures !PollStable(readings, previous)
    decreases |readings|
  {
    if readings != [] {
      GrowingNeverStable(readings[1..], readings[0].value);
    }
  }

  /** Once a reading fails the poll is over: readings after it never count. */
  lemma {:induction false} VanishedEndsPoll(readings: seq<Option<nat>>, previous: int, k: nat)
    requires k < |readings| && readings[k].None?
    ensures PollStable(readings, previous) == PollStable(readings[..k], previous)
    decreases k
  {
    if k > 0 {
      assert readings[..k][0] == readings[0];
      assert readings[..k][1..] == readings[1..][..k - 1];
      match readings[0]
      case None =>
      case Some(size) => VanishedEndsPoll(readings[1..], size, k - 1);
    }
  }

  /** Sizes 10 then 10 prove the file stable, whatever comes after. */
  lemma TenTenStable(rest: seq<Option<nat>>)
    ensures PollStable([Some(10), Some(10)] + rest, -1)
  {
    var readings := [Some(10), Some(10)] + rest;
    assert readings[1..][0] == Some(10);
  }

  // ---------------------------------------------------------------------
  // Sorting

  /** The `for`/`break` search of `sort_file` for the first folder whose list
      holds `ext`, "Others" when none does. */
  method TargetFolder(rules: seq<ExtensionRule>, ext: string) returns (folder: string)
    ensures folder == ExtensionFolder(rules, ext)
  {
    folder := Others;
    var i := 0;
    while i < |rules|
      invariant 0 <= i <= |rules|
      invariant forall j :: 0 <= j < i ==> ext !in rules[j].1
    {
      if ext in rules[i].1 {
        folder := rules[i].0;
        break;
      }
      i := i + 1;
    }
  }

  /** The destination directory `sort_file` picks for a file name. */
  function DestDir(filename: string): string {
    Join(DownloadsDir, ExtensionFolder(Destinations, LowerExt(filename)))
  }

  /** What `sort_file` does. `os.makedirs` runs outside the `try`, so a file
      in its way raises out of the handler; the collision loop and the move
      run inside it, so a missing source or a failing move (`moveError`) is
      caught and printed. */
  predicate SortFileEffect(files0: set<Path>, dirs0: set<string>, files1: set<Path>, dirs1: set<string>,
                           src: Path, moveError: bool, outcome: Outcome) {
    var dest := DestDir(src.name);
    if BlockedByFile(files0, dest) then
      outcome == Raised && files1 == files0 && dirs1 == dirs0
    else
      dirs1 == dirs0 + DirAndParents(NormPath(dest)) &&
      Destination.MovedToFreeName(files0, dirs1, files1, src, dest, src.name, moveError, outcome)
  }

  /** A file named `Others`, with no extension, sitting in the downloads
      folder is in the way of its own destination folder `~/Downloads/Others`:
      `os.makedirs` raises and the error leaves the handler. */
  lemma OthersFileRaises(files1: set<Path>, dirs1: set<string>, moveError: bool, outcome: Outcome)
    requires SortFileEffect({Path(DownloadsDir, "Others")}, {}, files1, dirs1,
                            Path(DownloadsDir, "Others"), moveError, outcome)
    ensures outcome == Raised && files1 == {Path(DownloadsDir, "Others")}
  {
    OthersBlocksItself();
  }

  lemma OthersBlocksItself()
    ensures BlockedByFile({Path(DownloadsDir, "Others")}, DestDir("Others"))
  {
    OthersGoesToOthers();
    var src := Path(DownloadsDir, "Others");
    assert NormPath(FullPath(src)) in DirAndParents(NormPath(DestDir("Others")));
  }

  lemma OthersGoesToOthers()
    ensures DestDir("Others") == FullPath(Path(DownloadsDir, "Others"))
  {
    OthersHasNoExtension();
    EmptyExtensionIsOthers();
  }

  lemma OthersHasNoExtension()
    ensures LowerExt("Others") == ""
  {
    var name := "Others";
    assert !HasExtension(name) by {
      assert forall j :: 0 <= j < |name| ==> name[j] != '.';
    }
  }

  lemma EmptyExtensionIsOthers()
    ensures ExtensionFolder(Destinations, "") == Others
  {
    assert "" !in Destinations[0].1;
    assert "" !in Destinations[1].1;
    assert "" !in Destinations[2].1;
    assert "" !in Destinations[3].1;
    assert "" !in Destinations[4].1;
    assert "" !in Destinations[5].1;
  }

  /** `sort_file` for the file `src`. */
  method SortFile(fs: FileSystem, src: Path, moveError: bool) returns (outcome: Outcome)
    requires fs.Valid()
    modifies fs
    ensures fs.Valid()
    ensures SortFileEffect(old(fs.files), old(fs.dirs), fs.files, fs.dirs, src, moveError, outcome)
  {
    var ext := LowerExt(src.name);
    var folder := TargetFolder(Destinations, ext);
    var dest := Join(DownloadsDir, folder);
    var ok := fs.MakeDirs(dest);
    if !ok {
      return Raised;
    }
    outcome := Destination.MoveToFreeName(fs, src, dest, src.name, moveError);
  }

  /** `process_file`: `readings` are the sizes the poll would observe. A file
      that passes the name filter and the poll is sorted by `sort_file`. */
  method ProcessFile(fs: FileSystem, src: Path, readings: seq<Option<nat>>, moveError: bool)
    returns (outcome: Outcome)
    requires |readings| >= MaxAttempts
    requires fs.Valid()
    modifies fs
    ensures fs.Valid()
    ensures IsHiddenOrPartial(src.name) ==> outcome == Ignored
    ensures !IsHiddenOrPartial(src.name) && !PollStable(readings[..MaxAttempts], -1) ==> outcome == Unstable
    ensures outcome.Ignored? || outcome.Unstable? ==> fs.files == old(fs.files) && fs.dirs == old(fs.dirs)
    ensures !IsHiddenOrPartial(src.name) && PollStable(readings[..MaxAttempts], -1) ==>
              SortFileEffect(old(fs.files), old(fs.dirs), fs.files, fs.dirs, src, moveError, outcome)
    ensures forall p :: p in old(fs.files) && p != Place(src) ==> p in fs.files
  {
    if IsHiddenOrPartial(src.name) {
      return Ignored;
    }
    var stable := WaitForDownload(readings);
    if !stable {
      return Unstable;
    }
    outcome := SortFile(fs, src, moveError);
    if !BlockedByFile(old(fs.files), DestDir(src.name)) {
      Destination.MoveKeepsEveryFile(old(fs.files), fs.dirs, fs.files, src, DestDir(src.name), src.name, moveError, outcome);
    }
  }

  /** A zero-byte file that never grows within the attempt budget is never
      moved: it stays where it is. */
  method ZeroByteFileStays(fs: FileSystem, src: Path) returns (outcome: Outcome)
    requires fs.Valid()
    modifies fs
    ensures fs.Valid()
    ensures outcome == Ignored || outcome == Unstable
    ensures fs.files == old(fs.files)
  {
    var readings := seq(MaxAttempts, _ => Some(0));
    ZeroSizeNeverStable(readings[..MaxAttempts], -1);
    outcome := ProcessFile(fs, src, readings, false);
  }
}
