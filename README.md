# SmartSort AI, modelled in Dafny

SmartSort AI watches a downloads folder and moves every new file into a
folder chosen by rules. The repository holds three versions of the same
engine:

- `main.py` is the configurable version. `ContentBrain.analyze` searches an
  ordered keyword -> folder table against the lower-cased extracted text
  and the lower-cased file name. When no keyword matches, it searches an
  ordered folder -> extensions table, and "Others" is the fallback. A
  "financial" folder also renames the file to `{Key}_{today}_{name}`,
  unless the name already carries today's date. `ProHandler.process`:
  - drops hidden files, in-progress downloads, "Unknown" and the app's own
    installer names;
  - gives up on files that vanished during the wait;
  - finds a free name in the destination by trying `base_1ext`,
    `base_2ext`, ... and moves the file there.
- `SmartSortAIPro.py` has the same classifier with fixed tables and no
  renaming, and the same handler.
- `secure_smart_sort.py` is an extension-only sorter. It runs a stability
  poll first: the file is sorted only once two consecutive size readings
  are equal and positive, within 30 readings.

The model has these modules:

- `Strings`: the Python string operations the engine uses, over ASCII:
  - `lower` and `title`;
  - `in` on strings;
  - `rfind` and `os.path.splitext`;
  - `os.path.join`;
  - `str(int)`.
- `Rules`: the first-match search that all three versions share.
- `Files`: a filesystem class with a set of file paths and a set of
  directories. `MakeDirs` and `Move` update them in place.
- `Destination`: the collision-suffix loop as an imperative method. It is
  proved to terminate and to pick the first free attempt.
- `MainApp`, `SmartSortPro` and `SecureSort`: one module per source file.

The extracted text, today's date and the sequence of size readings are
parameters. Each `process` call is one method run against the filesystem
as it stands after the wait.

## Model

| member | source | states |
|---|---|---|
| Strings.LowerChar | main.py:74 | `str.lower` on one character: the result is never an upper-case letter, an upper-case letter maps to the same letter of the lower-case alphabet, and every other character is unchanged |
| Strings.Lower | main.py:74 | lower-casing keeps the length; no character of the result is upper-case, and each one is the same letter as the input character at that index |
| Strings.LowerIdempotent | main.py:74-78 | lower-casing text that is already lower-cased changes nothing |
| Strings.LowerIdentity | SmartSortAIPro.py:53 | a name without upper-case letters is its own lower case |
| Strings.TitleFrom | main.py:82 | `str.title`: a letter is upper-cased exactly when it starts the string or follows a non-letter, and non-letters are unchanged |
| Strings.Title | main.py:82 | `key.title()` keeps the length and every non-letter, keeps each letter's identity, and upper-cases exactly the letters that start a word |
| Strings.TitleSameLetters | main.py:82 | title-casing only changes the case of letters |
| Strings.TitleIdempotent | main.py:82 | title-casing a title-cased key changes nothing |
| Strings.Contains | main.py:78 | `key in text`: the key starts the text or occurs in its tail |
| Strings.ContainsAt | main.py:78 | `k in s` holds exactly when `k` occurs at some index of `s` |
| Strings.ContainsInSuffix | main.py:80 | a substring of the tail is a substring of the whole |
| Strings.ContainsInMiddle | main.py:80 | a string occurs in any string built around it |
| Strings.ContainsHasChars | main.py:78 | every character of a contained key occurs in the text |
| Strings.RFind | main.py:62 | `rfind` returns the last index holding the character, or -1 when there is none |
| Strings.SplitExt | main.py:81 | `splitext`: root and extension concatenate back to the path; the extension starts with '.' and holds no other '.' and no '/'; it is non-empty exactly when the basename has a '.' after some non-'.' character |
| Strings.HasExtensionAt | main.py:81 | a basename has an extension exactly when its last '.' comes after its last '/' and after some other non-'.' character of the basename |
| Strings.SplitExtAfterDirectory | main.py:62 | splitting `dir/ + name` gives the extension of `name` |
| Strings.ExtAfterPrefix | main.py:81-82 | a prefix without dots or slashes before a name not starting with '.' leaves the extension unchanged |
| Strings.ExtOfJoinedPath | main.py:62 | the extension of the full path equals the extension of the basename |
| Strings.SplitExtExamples | main.py:81 | "a.tar.gz" splits as ("a.tar", ".gz"); ".bashrc", "README" and "dir.d/file" have no extension; "photo.png" splits as ("photo", ".png") |
| Strings.Join | main.py:113 | `os.path.join`: an absolute name replaces the directory; otherwise the result is the directory, one '/' unless the directory is empty or already ends in '/', then the name |
| Strings.Basename | main.py:101 | `os.path.basename`: the result is a suffix of the path with no '/' in it, preceded by a '/' when it is not the whole path |
| Strings.BasenameOfJoin | main.py:101 | the basename of `os.path.join(dir, name)` is `name` when `name` has no '/' |
| Strings.StartsWith | main.py:104 | `s.startswith(p)`: `p` is a prefix of `s` |
| Strings.Squeeze | main.py:119 | collapsing runs of '/' leaves no doubled '/', keeps the first and last character, and leaves a path without doubled '/' unchanged |
| Strings.NormPath | main.py:119 | the spelling the kernel resolves: no doubled '/', no trailing '/' except for the root, an absolute path stays absolute, and a path already in that form is unchanged |
| Strings.SqueezeAppendSlash | main.py:119 | appending '/' adds one only when the path does not already end in '/' |
| Strings.NormTrailingSlash | main.py:119 | `d/` and `d` name the same place |
| Strings.SqueezeDoubleSlash | main.py:119 | collapsing runs of '/' treats `a//b` like `a/b` |
| Strings.NormDoubleSlash | main.py:119 | `a//b` and `a/b` name the same place |
| Strings.NatToString | main.py:120 | `str(counter)` is a non-empty string of decimal digits with no leading zero; "0" is the only one starting with '0' |
| Strings.DecimalRoundTrip | main.py:120 | reading back the decimal digits of `n` gives `n` |
| Strings.NatToStringInjective | main.py:119-121 | different counters give different strings |
| Rules.ScanText | main.py:63-74 | the scanned text has no upper-case letters; it is empty unless scanning is on and the extension is ".pdf" or a plain-text one, and then it is the extracted text lower-cased, character by character |
| Rules.LowerExt | main.py:62 | the extension of the name, lower-cased: same length, the same letter at every index with no upper case left, starting with '.', and non-empty exactly when the name has an extension |
| Rules.FirstSemantic | main.py:77-78 | the index of the first keyword found in the text or the lower-cased name; none exactly when no keyword is found |
| Rules.KeyMatches | main.py:78 | `key in text or key in filename.lower()` |
| Rules.FirstExtension | main.py:86-87 | the index of the first folder whose list holds the extension; none exactly when no list holds it |
| Rules.ExtensionFolder | main.py:86-90 | the folder of the first rule listing the extension; "Others" when no rule lists it |
| Rules.ClassifyFolder | main.py:77-90 | the folder is "Others", a semantic-rule folder or an extension-rule folder |
| Rules.SemanticPrecedence | main.py:77-78 | the first matching keyword decides the folder, even when later keywords or the extension also match |
| Rules.ExtensionFallback | main.py:86-88 | with no keyword match, the first folder listing the extension decides |
| Rules.NoMatchIsOthers | main.py:90 | with no match at all the folder is "Others" |
| Rules.OthersOnlyWithoutMatch | main.py:77-90 | when no rule names "Others", the folder is "Others" exactly when no rule matched |
| Rules.IsHiddenOrPartial | secure_smart_sort.py:29 | a name starting with '.' or containing "crdownload" is dropped by every version |
| Files.Place | main.py:108 | the place of a file is its directory in normal spelling and its name; a place is its own place |
| Files.Normal | main.py:108 | every recorded file is recorded at its place, so no file is recorded twice under two spellings |
| Files.SpellingSamePlace | main.py:108 | `d/` joined with a name and `d` joined with it are the same file |
| Files.FoundInAnySpelling | main.py:108 | a file recorded in `d` exists when looked up through the spelling `d/`, as `os.path.exists` finds it |
| Files.DirPrefix | main.py:115 | for a name not starting with '/', `os.path.join(d, n)` is this prefix followed by `n` |
| Files.DirAndParents | main.py:114 | the directories `os.makedirs(d)` ensures: `d` and each prefix of `d` ending just before a '/', and nothing else |
| Files.TakenNames | main.py:119 | a name is taken in `d` exactly when a file of that name sits in a directory spelled like `d` up to doubled or trailing '/', or a directory sits at `d/name` in any such spelling, as `os.path.exists` reports |
| Files.FileNamesIn | main.py:119 | the names of the files whose directory normalises to the given one, and no others |
| Files.DirNamesUnder | main.py:119 | the names `n` for which some directory normalises to the prefix followed by `n`, and no others |
| Files.TrailingSlashSameNames | main.py:113-119 | a destination spelled with a trailing '/' has exactly the same names taken |
| Files.DoubleSlashSameNames | main.py:113-119 | a destination spelled with a doubled '/' has exactly the same names taken |
| Files.TrailingSlashCollision | main.py:113-121 | a file already in `d` collides with the same name in the destination `d/` |
| Files.BlockedByFile | main.py:114 | `os.makedirs` raises when a file sits at the directory or at one above it, compared in normal spelling |
| Files.FileSystem.Valid | main.py:108 | the filesystem records each file once, at its place |
| Files.FileSystem.constructor | main.py:108 | the initial files are recorded at their places, so the filesystem starts valid |
| Files.FileSystem.MakeDirs | main.py:114 | `os.makedirs(d, exist_ok=True)` succeeds exactly when no file is in the way; then `d` and its parents exist in normal spelling, otherwise nothing changes; files never change |
| Files.FileSystem.Move | main.py:123 | the file at the place of the source disappears and one appears at the place of the destination; every other file and every directory is kept, and the filesystem stays valid |
| Destination.Candidate | main.py:118-120 | attempt 0 is the name itself; attempt `k` splits as the original root plus `_k` and the original extension |
| Destination.SuffixedSplit | main.py:118-120 | inserting `_digits` before the extension leaves the extension unchanged |
| Destination.CandidateInjective | main.py:117-121 | different attempts of the suffix loop try different names |
| Destination.IsFreeName | main.py:117-121 | the loop's result: attempt `k` is not taken and every earlier attempt is |
| Destination.AttemptsCount | main.py:117-121 | the first `k` attempts of the suffix loop are `k` different names, which bounds the loop by the size of the directory |
| Destination.FreeName | main.py:117-121 | the loop terminates on a free name, namely the first attempt (`name`, then `base_k ext`) that is not taken |
| Destination.FreeNameUnique | main.py:117-121 | only one attempt is free with all earlier attempts taken, so the loop's result is determined |
| Destination.FreeNameAfterAttempts | main.py:117-121 | in a directory holding exactly the first `n` attempts, the loop settles on attempt `n` |
| Destination.ResolveRepeatedly | main.py:117-123 | resolving a name `n` times into an empty directory yields `name, name_1, ..., name_(n-1)` |
| Destination.MovedToFreeName | main.py:117-126 | a source that exists in any spelling moves to the first free attempt in the destination, where a directory counts as taken; a missing source or a failing move is caught and nothing moves |
| Destination.MoveToFreeName | main.py:117-126 | the collision loop and `shutil.move` do exactly what `MovedToFreeName` describes, and leave the directories alone |
| Destination.MoveKeepsEveryFile | main.py:117-123 | the move reuses the name of no file in any spelling of the destination and of no directory there, keeps every other file, keeps the files recorded at their places, and leaves the number of files unchanged |
| Destination.ExistingDirectoryForcesSuffix | main.py:119 | a directory already named like the file, in any spelling, makes the loop use a numbered attempt |
| MainApp.IsIgnoredName | main.py:104-105 | hidden names, partial downloads, "Unknown" and the app's own installer names are dropped |
| MainApp.IsFinancial | main.py:80 | a folder is financial when its lower-cased name contains "financial" |
| MainApp.Matched | main.py:77-78 | the first semantic rule whose key occurs in the scanned text or the lower-cased name |
| MainApp.DefaultKeysAreWords | main.py:28-34 | every built-in key is a non-empty word of lower-case letters |
| MainApp.FinancialName | main.py:81-82 | `{Key}_{today}_{base}{ext}` is the original file name behind the prefix `Title(key) + "_" + today + "_"` |
| MainApp.Analyze | main.py:61-90 | the folder is the first-match classification; the name changes only through the financial rename of the first matched key, when the name lacks today's date; a name with the date is kept |
| MainApp.FinancialRename | main.py:80-82 | a financial first match on an undated name renames to `Title(key)_today_name` |
| MainApp.NonFinancialKeepsName | main.py:83-90 | every non-financial outcome keeps the file name |
| MainApp.FinancialNameHasDate | main.py:82 | the stamped name contains today's date |
| MainApp.RenameIdempotent | main.py:80-83 | analysing a renamed file again on the same day, with any text, keeps its name |
| MainApp.RenameKeepsExtension | main.py:81-82 | for a key and date without dots or slashes, the stamped name has the original extension |
| MainApp.InvoiceExample | main.py:77-82 | with the default rules, `invoice_march.pdf` goes to Financial/Invoices as `Invoice_2026-10-17_invoice_march.pdf` |
| MainApp.Process | main.py:99-126 | filtered names are ignored, and a file that exists in no spelling is left alone; a file in the way of the destination folder gives a caught failure with nothing changed; otherwise the folder and its parents exist and the file moves to the first free name there, or a failing move is caught; no other file is lost and the filesystem stays valid |
| SmartSortPro.IsIgnoredName | SmartSortAIPro.py:77 | hidden names, partial downloads and "Unknown" are dropped |
| SmartSortPro.Analyze | SmartSortAIPro.py:39-61 | the folder is the first-match classification over the fixed tables; the name is always the input name |
| SmartSortPro.KeysNonEmpty | SmartSortAIPro.py:21-27 | no built-in keyword is empty |
| SmartSortPro.FailedExtractionUsesName | SmartSortAIPro.py:41-53 | with empty extracted text, a keyword matches exactly when it occurs in the lower-cased name |
| SmartSortPro.UnreadExtensionIgnoresText | SmartSortAIPro.py:42-49 | for an extension the extractor does not read, the result does not depend on the text |
| SmartSortPro.PhotoExample | SmartSortAIPro.py:52-59 | `photo.png` with no keyword goes to Images |
| SmartSortPro.InvoiceExample | SmartSortAIPro.py:52-54 | `invoice_march.pdf` goes to Financial/Invoices under its own name, whatever its text |
| SmartSortPro.Process | SmartSortAIPro.py:73-103 | filtered names are ignored, and a file that exists in no spelling is left alone; a file in the way of the destination folder gives a caught failure with nothing changed; otherwise the file moves to the first free name in the analysed folder, or a failing move is caught; no other file is lost and the filesystem stays valid |
| SecureSort.PollStable | secure_smart_sort.py:37-46 | the poll ends false on a failed reading or when readings run out, and true on a positive reading equal to the previous one |
| SecureSort.PollStableIff | secure_smart_sort.py:37-46 | the poll succeeds exactly when some reading is positive and equal to the one before it, with no failed reading up to it |
| SecureSort.WaitForDownload | secure_smart_sort.py:37-46 | the loop's verdict is the poll over the first 30 readings, starting from -1 |
| SecureSort.FirstReadingNeverStable | secure_smart_sort.py:38-42 | the first reading never succeeds, so success takes at least two readings |
| SecureSort.ZeroSizeNeverStable | secure_smart_sort.py:42 | a file whose size stays zero is never stable |
| SecureSort.GrowingNeverStable | secure_smart_sort.py:42 | a file whose size grows at every reading is never stable |
| SecureSort.VanishedEndsPoll | secure_smart_sort.py:40-45 | readings after a failed one never affect the verdict |
| SecureSort.TenTenStable | secure_smart_sort.py:42 | sizes 10 then 10 are stable |
| SecureSort.TargetFolder | secure_smart_sort.py:49-54 | the `for`/`break` search returns the first folder listing the extension, else "Others" |
| SecureSort.DestDir | secure_smart_sort.py:49-56 | the destination directory is the downloads folder joined with the folder for the lower-cased extension |
| SecureSort.EmptyExtensionIsOthers | secure_smart_sort.py:13-20 | no destination lists the empty extension, so a file without one goes to "Others" |
| SecureSort.SortFileEffect | secure_smart_sort.py:48-71 | a file in the way of `os.makedirs`, which runs outside the `try`, raises out of the handler with nothing changed; otherwise the folder and its parents exist and a source existing in any spelling moves to the first free name, or the caught error leaves every file in place |
| SecureSort.OthersFileRaises | secure_smart_sort.py:56-57 | a file named `Others` in the downloads folder blocks its own destination `~/Downloads/Others`, so the handler raises and nothing moves |
| SecureSort.SortFile | secure_smart_sort.py:48-71 | `sort_file` does exactly what `SortFileEffect` describes |
| SecureSort.ProcessFile | secure_smart_sort.py:27-35 | filtered names and unstable files are never moved; a file passing the filter and the 30-reading poll is sorted as `SortFileEffect` describes; no other file is lost and the filesystem stays valid |
| SecureSort.ZeroByteFileStays | secure_smart_sort.py:27-32 | a zero-byte file is never moved |

## Left out

- The settings window, the tray icon and its menu, and subprocess launching (main.py:129-214, SmartSortAIPro.py:106-120) are user interface only.
- The watchdog observers (main.py:94-97, SmartSortAIPro.py:63-71, secure_smart_sort.py:22-25) are left out. The model makes one processing call per event. main.py and SmartSortAIPro.py start a thread per event, so their calls can race on the same file; that is not captured. secure_smart_sort.py handles its events one at a time, on the observer's thread.
- Loading and saving the JSON configuration (main.py:47-57) is file I/O. The configuration is a parameter, and `MainApp.DefaultConfig` holds the built-in tables.
- Text extraction with `PdfReader` and `read(2000)` is not modelled. Its output, possibly empty, is the parameter `extracted`.
- `time.sleep` is dropped. `datetime.date.today()` is the parameter `today`.
- Logging and printing are dropped.
- Startup cleanup (main.py:191-198, secure_smart_sort.py:73-85) is a loop over `os.listdir` that calls the same processing method once per entry. Its own tests are left out: main.py skips entries that are not files, and secure_smart_sort.py skips directories and hidden names. The model reflects them only by taking `src` as a file. An error that escapes `sort_file` during that loop would end it early; that is not modelled either.
- `os.path.expanduser` is not modelled. Paths keep their leading `~`.
- `str.lower` and `str.title` are modelled on ASCII letters only. Non-ASCII letters are treated as uncased.
- Files.FileSystem.MakeDirs fails only when a file is in the way. Other `os.makedirs` failures, such as missing permissions, are not modelled.
- A failing `shutil.move` is the parameter `moveError`. The model does not say why it fails, such as a permission or cross-volume error.
- The directory set of a `FileSystem` must list every existing directory, parents included. The model does not check that.
- File names starting with '/' are not modelled, because `os.path.join` would then discard the destination folder.
- Files.TakenNames compares directories by their normal spelling, with runs of '/' collapsed and a trailing '/' dropped. Components `.` and `..`, symbolic links and case-insensitive filesystems are not resolved. A name containing '/' is treated as one name, not as a path into a subfolder. No file name reaches the loop with a '/' in it, but a configured key containing '/' would produce such a renamed name.
- Destination.FreeName sees one snapshot of the destination directory. A file that another thread creates between the check and the move is not captured.
- Names containing '/' and keys containing '.' or '/' are outside RenameKeepsExtension's hypotheses. A configured key with a '.' would shift the extension that the collision loop sees. `MainApp.DefaultKeysAreWords` shows that the default keys contain neither character.
- Keys with upper-case letters never match, because they are compared against lower-cased text. The model keeps that behaviour as written.
