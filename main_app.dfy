/** main.py, the configurable version of the sorter. `ContentBrain.analyze`
    picks the destination folder by the first matching rule and, for a
    financial folder, stamps today's date into the name; `ProHandler.process`
    drops unwanted names, gives up on files that vanished, finds a free name
    in the destination folder and moves the file there. */
module MainApp {
  import opened Strings
  import opened Rules
  import opened Files
  import Destination

  /** The settings `process` reads: the vault root, the deep-scan and
      startup-cleanup switches, and the two ordered rule tables. */
  datatype Config = Config(targetDir: string, deepScan: bool, startupCleanup: bool,
                           semanticRules: seq<SemanticRule>, extensionRules: seq<ExtensionRule>)

  /** The built-in configuration, used when no configuration file exists or
      the file cannot be parsed (`~` is left unexpanded). */
  const DefaultConfig := Config(
    "~/Documents/SmartSort_Vault", true, true,
    [("invoice", "Financial/Invoices"),
     ("receipt", "Financial/Receipts"),
     ("resume", "HR/Resumes"),
     ("report", "Work/Reports"),
     ("assignment", "University/Assignments")],
    [("Images", [".jpg", ".jpeg", ".png", ".gif", ".svg", ".webp"]),
     ("Documents", [".pdf", ".docx", ".txt", ".xlsx", ".pptx", ".csv"]),
     ("Audio", [".mp3", ".wav", ".aac"]),
     ("Video", [".mp4", ".mkv", ".mov", ".avi"]),
     ("Archives", [".zip", ".rar", ".7z", ".tar", ".gz"]),
     ("Installers", [".exe", ".msi", ".dmg", ".pkg"])])

  /** Every built-in key is a non-empty word of lower-case letters: it can
      match the lower-cased text and name, and it holds no '.' or '/' that
      would disturb the extension of a date-stamped name. */
  lemma DefaultKeysAreWords()
    ensures forall i :: 0 <= i < |DefaultConfig.semanticRules| ==>
              DefaultConfig.semanticRules[i].0 != [] &&
              forall c :: 0 <= c < |DefaultConfig.semanticRules[i].0| ==> IsLowerChar(DefaultConfig.semanticRules[i].0[c])
  {
    var rules := DefaultConfig.semanticRules;
    assert forall c :: 0 <= c < |rules[0].0| ==> IsLowerChar(rules[0].0[c]);
    assert forall c :: 0 <= c < |rules[1].0| ==> IsLowerChar(rules[1].0[c]);
    assert forall c :: 0 <= c < |rules[2].0| ==> IsLowerChar(rules[2].0[c]);
    assert forall c :: 0 <= c < |rules[3].0| ==> IsLowerChar(rules[3].0[c]);
    assert forall c :: 0 <= c < |rules[4].0| ==> IsLowerChar(rules[4].0[c]);
  }

  /** The app's own installer artifacts, which the handler never moves. */
  const InstallerNames := ["SmartSort.app", "SmartSort.zip", "SmartSort.exe"]

  /** The names `process` returns on at once: hidden files, in-progress
      browser downloads, "Unknown" and the installer artifacts. */
  predicate IsIgnoredName(name: string) {
    IsHiddenOrPartial(name) || name == "Unknown" || name in InstallerNames
  }

  /** The semantic rule that matches first, if any. */
  function Matched(filename: string, extracted: string, cfg: Config): Option<nat> {
    FirstSemantic(cfg.semanticRules, ScanText(cfg.deepScan, LowerExt(filename), extracted), Lower(filename))
  }

  /** A folder counts as financial when "financial" occurs in it, ignoring case. */
  predicate IsFinancial(folder: string) {
    Contains(Lower(folder), "financial")
  }

  /** The date-stamped name `{Key}_{today}_{base}{ext}`: since the base and
      the extension are split from the file name, this is the file name with
      a prefix. */
  function FinancialName(key: string, today: string, filename: string): (r: string)
    ensures r == Title(key) + "_" + today + "_" + filename
  {
    var (base, ext) := SplitExt(filename);
    Title(key) + "_" + today + "_" + base + ext
  }

  /** `ContentBrain.analyze`. `extracted` is the text the extractor produced
      and `today` the ISO date `str(datetime.date.today())`. */
  function Analyze(filename: string, extracted: string, cfg: Config, today: string): (r: Analysis)
    ensures r.folder == ClassifyFolder(cfg.semanticRules, cfg.extensionRules,
                                       ScanText(cfg.deepScan, LowerExt(filename), extracted),
                                       Lower(filename), LowerExt(filename))
    ensures r.name != filename ==>
              Matched(filename, extracted, cfg).Some? && IsFinancial(r.folder) && !Contains(filename, today) &&
              r.name == FinancialName(cfg.semanticRules[Matched(filename, extracted, cfg).value].0, today, filename)
    ensures Contains(filename, today) ==> r.name == filename
  {
    match Matched(filename, extracted, cfg)
    case Some(i) =>
      var (key, folder) := cfg.semanticRules[i];
      if IsFinancial(folder) && !Contains(filename, today) then
        Analysis(folder, FinancialName(key, today, filename))
      else
        Analysis(folder, filename)
    case None =>
      Analysis(ExtensionFolder(cfg.extensionRules, LowerExt(filename)), filename)
  }

  /** When the first matching rule's folder is financial and the name does
      not yet carry today's date, the file is renamed `{Key}_{today}_{name}`. */
  lemma FinancialRename(filename: string, extracted: string, cfg: Config, today: string, i: nat)
    requires Matched(filename, extracted, cfg) == Some(i)
    requires IsFinancial(cfg.semanticRules[i].1) && !Contains(filename, today)
    ensures Analyze(filename, extracted, cfg, today)
         == Analysis(cfg.semanticRules[i].1, Title(cfg.semanticRules[i].0) + "_" + today + "_" + filename)
  {
  }

  /** Only a financial folder reached through a semantic rule renames: every
      other outcome keeps the file name. */
  lemma NonFinancialKeepsName(filename: string, extracted: string, cfg: Config, today: string)
    requires Matched(filename, extracted, cfg).None? ||
             !IsFinancial(cfg.semanticRules[Matched(filename, extracted, cfg).value].1)
    ensures Analyze(filename, extracted, cfg, today).name == filename
  {
  }

  /** A date-stamped name carries the date. */
  lemma FinancialNameHasDate(key: string, today: string, filename: string)
    ensures Contains(FinancialName(key, today, filename), today)
  {
    ContainsInMiddle(Title(key) + "_", today, "_" + filename);
    assert Title(key) + "_" + today + "_" + filename == (Title(key) + "_") + today + ("_" + filename);
  }

  /** A renamed file carries today's date, so analysing it again on the same
      day, whatever text is then extracted, keeps its name. */
  lemma RenameIdempotent(filename: string, extracted: string, extracted2: string, cfg: Config, today: string)
    requires Analyze(filename, extracted, cfg, today).name != filename
    ensures var renamed := Analyze(filename, extracted, cfg, today).name;
            Analyze(renamed, extracted2, cfg, today).name == renamed
  {
    var renamed := Analyze(filename, extracted, cfg, today).name;
    var key := cfg.semanticRules[Matched(filename, extracted, cfg).value].0;
    FinancialNameHasDate(key, today, filename);
    assert Contains(renamed, today);
  }

  /** A key without dots or slashes keeps the extension of a name that does
      not start with a dot (the names `process` lets through). */
  lemma RenameKeepsExtension(key: string, today: string, filename: string)
    requires forall i :: 0 <= i < |key| ==> key[i] != '.' && key[i] != '/'
    requires forall i :: 0 <= i < |today| ==> today[i] != '.' && today[i] != '/'
    requires forall i :: 0 <= i < |filename| ==> filename[i] != '/'
    requires !StartsWith(filename, ".")
    ensures SplitExt(FinancialName(key, today, filename)).1 == SplitExt(filename).1
  {
    var t := Title(key);
    forall i | 0 <= i < |t| ensures t[i] != '.' && t[i] != '/' {
      assert LowerChar(t[i]) == LowerChar(key[i]);
    }
    var prefix := t + "_" + today + "_";
    assert forall i :: 0 <= i < |prefix| ==> prefix[i] != '.' && prefix[i] != '/' by {
      forall i | 0 <= i < |prefix| ensures prefix[i] != '.' && prefix[i] != '/' {
        if i < |t| { assert prefix[i] == t[i]; }
        else if i == |t| || i == |prefix| - 1 { }
        else { assert prefix[i] == today[i - |t| - 1]; }
      }
    }
    assert filename == [] || filename[0] != '.';
    ExtAfterPrefix(prefix, filename);
  }

  /** With the built-in rules, `invoice_march.pdf` goes to
      Financial/Invoices under a date-stamped name. */
  lemma InvoiceExample(extracted: string)
    ensures Analyze("invoice_march.pdf", extracted, DefaultConfig, "2026-10-17")
         == Analysis("Financial/Invoices", "Invoice_2026-10-17_invoice_march.pdf")
  {
    InvoiceMatchesFirstRule(extracted);
    FinancialInvoicesIsFinancial();
    InvoiceNameUndated();
    FinancialRename("invoice_march.pdf", extracted, DefaultConfig, "2026-10-17", 0);
    TitleInvoice();
    StampedInvoiceName();
  }

  lemma InvoiceMatchesFirstRule(extracted: string)
    ensures Matched("invoice_march.pdf", extracted, DefaultConfig) == Some(0)
  {
    var name := "invoice_march.pdf";
    LowerIdentity(name);
    assert StartsWith(name, "invoice");
  }

  lemma FinancialInvoicesIsFinancial()
    ensures IsFinancial("Financial/Invoices")
  {
    var f := "Financial/Invoices";
    forall i | 0 <= i < 9 ensures Lower(f)[i] == "financial"[i] {
      assert Lower(f)[i] == LowerChar(f[i]);
    }
    assert StartsWith(Lower(f), "financial");
  }

  lemma InvoiceNameUndated()
    ensures !Contains("invoice_march.pdf", "2026-10-17")
  {
    var name, date := "invoice_march.pdf", "2026-10-17";
    assert forall i :: 0 <= i < |name| ==> name[i] != '2';
    if Contains(name, date) {
      ContainsHasChars(name, date, 0);
    }
  }

  lemma TitleInvoice()
    ensures Title("invoice") == "Invoice"
  {
    var t := Title("invoice");
    assert t[0] == 'I' by { CaseDetermined(t[0], 'I'); }
    forall i | 1 <= i < 7 ensures t[i] == "invoice"[i] {
      CaseDetermined(t[i], "invoice"[i]);
    }
  }

  lemma StampedInvoiceName()
    ensures "Invoice" + "_" + "2026-10-17" + "_" + "invoice_march.pdf" == "Invoice_2026-10-17_invoice_march.pdf"
  {
  }

  /** `ProHandler.process` for one file event, the two-second wait elided:
      `fs` is the filesystem after the wait. Every step after the existence
      check sits in a `try` whose errors are logged: a file in the way of
      `os.makedirs` and a failing `shutil.move` (`moveError`) both end in
      `Failed` with nothing moved. */
  method Process(fs: FileSystem, src: Path, extracted: string, cfg: Config, today: string, moveError: bool)
    returns (outcome: Outcome)
    requires fs.Valid()
    modifies fs
    ensures fs.Valid()
    ensures IsIgnoredName(src.name) ==> outcome == Ignored
    ensures !IsIgnoredName(src.name) && Place(src) !in old(fs.files) ==> outcome == Vanished
    ensures outcome.Ignored? || outcome.Vanished? ==> fs.files == old(fs.files) && fs.dirs == old(fs.dirs)
    ensures !IsIgnoredName(src.name) && Place(src) in old(fs.files) ==>
              var a := Analyze(src.name, extracted, cfg, today);
              var dest := Join(cfg.targetDir, a.folder);
              if BlockedByFile(old(fs.files), dest) then
                outcome == Failed && fs.files == old(fs.files) && fs.dirs == old(fs.dirs)
              else
                fs.dirs == old(fs.dirs) + DirAndParents(NormPath(dest)) &&
                Destination.MovedToFreeName(old(fs.files), fs.dirs, fs.files, src, dest, a.name, moveError, outcome)
    ensures forall p :: p in old(fs.files) && p != Place(src) ==> p in fs.files
  {
    if IsIgnoredName(src.name) {
      return Ignored;
    }
    if Place(src) !in fs.files {
      return Vanished;
    }
    var a := Analyze(src.name, extracted, cfg, today);
    var dest := Join(cfg.targetDir, a.folder);
    var ok := fs.MakeDirs(dest);
    if !ok {
      return Failed;
    }
    outcome := Destination.MoveToFreeName(fs, src, dest, a.name, moveError);
    Destination.MoveKeepsEveryFile(old(fs.files), fs.dirs, fs.files, src, dest, a.name, moveError, outcome);
  }
}
