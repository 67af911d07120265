/** SmartSortAIPro.py, the version with fixed rule tables. Its
    `ContentBrain.analyze` runs the same first-match search as main.py but
    never renames, and its `ProHandler.process` filters names, skips files
    that vanished, resolves a free name and moves the file. */
module SmartSortPro {
  import opened Strings
  import opened Rules
  import opened Files
  import Destination

  /** The vault root (`~` is left unexpanded). */
  const TargetDir := "~/Documents/SmartSort_Vault"

  const SemanticRules: seq<SemanticRule> := [
    ("invoice", "Financial/Invoices"),
    ("receipt", "Financial/Receipts"),
    ("resume", "HR/Resumes"),
    ("report", "Work/Reports"),
    ("assignment", "University/Assignments")]

  const ExtensionMap: seq<ExtensionRule> := [
    ("Images", [".jpg", ".jpeg", ".png", ".gif", ".svg", ".webp"]),
    ("Documents", [".pdf", ".docx", ".txt", ".xlsx", ".pptx", ".csv"]),
    ("Audio", [".mp3", ".wav", ".aac"]),
    ("Video", [".mp4", ".mkv", ".mov", ".avi"]),
    ("Archives", [".zip", ".rar", ".7z", ".tar", ".gz"]),
    ("Installers", [".exe", ".msi", ".dmg", ".pkg"])]

  /** Hidden files, in-progress browser downloads and "Unknown". */
  predicate IsIgnoredName(name: string) {
    IsHiddenOrPartial(name) || name == "Unknown"
  }

  /** `ContentBrain.analyze`: text extraction always runs here (there is no
      deep-scan switch); `extracted` is its output, empty when it failed. */
  function Analyze(filename: string, extracted: string): (r: Analysis)
    ensures r.name == filename
    ensures r.folder == ClassifyFolder(SemanticRules, ExtensionMap,
                                       ScanText(true, LowerExt(filename), extracted),
                                       Lower(filename), LowerExt(filename))
  {
    var ext := LowerExt(filename);
    var text := ScanText(true, ext, extracted);
    match FirstSemantic(SemanticRules, text, Lower(filename))
    case Some(i) => Analysis(SemanticRules[i].1, filename)
    case None => Analysis(ExtensionFolder(ExtensionMap, ext), filename)
  }

  /** No built-in keyword is empty, so empty text matches no keyword. */
  lemma KeysNonEmpty()
    ensures forall i :: 0 <= i < |SemanticRules| ==> |SemanticRules[i].0| > 0
  {
  }

  /** When extraction fails the text is empty, and the file is classified by
      its name alone: a rule matches exactly when its key occurs in the
      lower-cased name. */
  lemma FailedExtractionUsesName(filename: string)
    ensures forall i :: 0 <= i < |SemanticRules| ==>
              (KeyMatches(SemanticRules[i].0, ScanText(true, LowerExt(filename), ""), Lower(filename))
               <==> Contains(Lower(filename), SemanticRules[i].0))
  {
    KeysNonEmpty();
    assert Lower("") == "";
  }

  /** A file the extractor does not read is classified the same whatever the
      extractor would have produced. */
  lemma UnreadExtensionIgnoresText(filename: string, t1: string, t2: string)
    requires LowerExt(filename) != ".pdf" && LowerExt(filename) !in PlainTextExtensions
    ensures Analyze(filename, t1) == Analyze(filename, t2)
  {
  }

  /** `photo.png` with no keyword in its text goes to Images. */
  lemma PhotoExample()
    ensures Analyze("photo.png", "") == Analysis("Images", "photo.png")
  {
    PhotoLowerName();
    PhotoHasNoKeyword();
    PhotoExtension();
    PngIsImage();
    NoRuleMatches(SemanticRules, "", "photo.png");
  }

  lemma PhotoLowerName()
    ensures Lower("photo.png") == "photo.png"
  {
    LowerIdentity("photo.png");
  }

  lemma PngIsImage()
    ensures ExtensionFolder(ExtensionMap, ".png") == "Images"
  {
    assert ".png" in ExtensionMap[0].1;
  }

  lemma PhotoExtension()
    ensures LowerExt("photo.png") == ".png"
  {
    SplitExtExamples();
    LowerIdentity(".png");
  }

  lemma PhotoHasNoKeyword()
    ensures forall i :: 0 <= i < |SemanticRules| ==> !KeyMatches(SemanticRules[i].0, "", "photo.png")
  {
    var name := "photo.png";
    assert 'i' !in name && 'r' !in name && 'a' !in name;
    forall i | 0 <= i < |SemanticRules| ensures !KeyMatches(SemanticRules[i].0, "", name) {
      var key := SemanticRules[i].0;
      if Contains(name, key) {
        ContainsHasChars(name, key, 0);
      }
      if Contains("", key) {
        ContainsHasChars("", key, 0);
      }
    }
  }

  /** `invoice_march.pdf` goes to Financial/Invoices, keeping its name,
      whatever its text. */
  lemma InvoiceExample(extracted: string)
    ensures Analyze("invoice_march.pdf", extracted) == Analysis("Financial/Invoices", "invoice_march.pdf")
  {
    var name := "invoice_march.pdf";
    LowerIdentity(name);
    assert StartsWith(name, "invoice");
    assert KeyMatches(SemanticRules[0].0, ScanText(true, LowerExt(name), extracted), Lower(name));
  }

  /** `ProHandler.process` for one file event, the two-second wait elided:
      `fs` is the filesystem after the wait. As in main.py, a file in the way
      of `os.makedirs` and a failing `shutil.move` (`moveError`) are caught and
      logged, and end in `Failed` with nothing moved. */
  method Process(fs: FileSystem, src: Path, extracted: string, moveError: bool) returns (outcome: Outcome)
    requires fs.Valid()
    modifies fs
    ensures fs.Valid()
    ensures IsIgnoredName(src.name) ==> outcome == Ignored
    ensures !IsIgnoredName(src.name) && Place(src) !in old(fs.files) ==> outcome == Vanished
    ensures outcome.Ignored? || outcome.Vanished? ==> fs.files == old(fs.files) && fs.dirs == old(fs.dirs)
    ensures !IsIgnoredName(src.name) && Place(src) in old(fs.files) ==>
              var dest := Join(TargetDir, Analyze(src.name, extracted).folder);
              if BlockedByFile(old(fs.files), dest) then
                outcome == Failed && fs.files == old(fs.files) && fs.dirs == old(fs.dirs)
              else
                fs.dirs == old(fs.dirs) + DirAndParents(NormPath(dest)) &&
                Destination.MovedToFreeName(old(fs.files), fs.dirs, fs.files, src, dest, src.name, moveError, outcome)
    ensures forall p :: p in old(fs.files) && p != Place(src) ==> p in fs.files
  {
    if IsIgnoredName(src.name) {
      return Ignored;
    }
    if Place(src) !in fs.files {
      return Vanished;
    }
    var a := Analyze(src.name, extracted);
    var dest := Join(TargetDir, a.folder);
    var ok := fs.MakeDirs(dest);
    if !ok {
      return Failed;
    }
    outcome := Destination.MoveToFreeName(fs, src, dest, a.name, moveError);
    Destination.MoveKeepsEveryFile(old(fs.files), fs.dirs, fs.files, src, dest, a.name, moveError, outcome);
  }
}
