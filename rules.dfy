/** The first-match classification that all three versions of the sorter
    share: an ordered keyword -> folder table is searched first, then an
    ordered folder -> extensions table, and "Others" is the fallback.
    Python dictionaries iterate in insertion order, so both tables are
    sequences of pairs here. */
module Rules {
  import opened Strings

  datatype Option<T> = None | Some(value: T)

  /** A semantic rule: a keyword and the folder it sends matching files to. */
  type SemanticRule = (string, string)

  /** An extension rule: a folder and the extensions it collects. */
  type ExtensionRule = (string, seq<string>)

  /** What `ContentBrain.analyze` returns: the destination folder and the
      name the file is to have there. */
  datatype Analysis = Analysis(folder: string, name: string)

  /** The extensions whose content is read as plain text. */
  const PlainTextExtensions := [".txt", ".md", ".csv"]

  /** The lower-cased text the semantic rules are matched against:
      `extracted` is what the extractor produced (the text of the first two
      pages of a PDF, or the first 2000 characters of a plain text file; empty
      when extraction failed), and it is consulted only when scanning is on
      and the extension is one the extractor handles. */
  function ScanText(deepScan: bool, ext: string, extracted: string): (text: string)
    ensures forall i :: 0 <= i < |text| ==> !IsUpperChar(text[i])
    ensures text != [] ==> deepScan && (ext == ".pdf" || ext in PlainTextExtensions)
    ensures deepScan && (ext == ".pdf" || ext in PlainTextExtensions) ==>
              |text| == |extracted| && forall i :: 0 <= i < |text| ==> LowerChar(text[i]) == LowerChar(extracted[i])
  {
    if deepScan && (ext == ".pdf" || ext in PlainTextExtensions) then Lower(extracted) else ""
  }

  /** The lower-cased extension of a file name, as all three versions compute it. */
  function LowerExt(filename: string): (ext: string)
    ensures ext == [] || ext[0] == '.'
    ensures forall i :: 0 <= i < |ext| ==> !IsUpperChar(ext[i])
    ensures |ext| == |SplitExt(filename).1|
    ensures forall i :: 0 <= i < |ext| ==> UpperChar(ext[i]) == UpperChar(SplitExt(filename).1[i])
    ensures ext != [] <==> HasExtension(filename)
  {
    Lower(SplitExt(filename).1)
  }

  /** Hidden files and in-progress browser downloads, which no version moves. */
  predicate IsHiddenOrPartial(name: string) {
    StartsWith(name, ".") || Contains(name, "crdownload")
  }

  /** The folder used when no rule matches. */
  const Others := "Others"

  /** `key in text or key in lname`, both already lower-cased by the caller. */
  predicate KeyMatches(key: string, text: string, lname: string) {
    Contains(text, key) || Contains(lname, key)
  }

  /** The index of the first semantic rule whose key occurs in the text or the
      lower-cased file name, if any. */
  function FirstSemantic(rules: seq<SemanticRule>, text: string, lname: string): (r: Option<nat>)
    ensures r.Some? ==> r.value < |rules| && KeyMatches(rules[r.value].0, text, lname)
    ensures r.Some? ==> forall j :: 0 <= j < r.value ==> !KeyMatches(rules[j].0, text, lname)
    ensures r.None? <==> forall j :: 0 <= j < |rules| ==> !KeyMatches(rules[j].0, text, lname)
  {
    if rules == [] then None
    else if KeyMatches(rules[0].0, text, lname) then Some(0)
    else
      match FirstSemantic(rules[1..], text, lname)
      case None => None
      case Some(i) => Some(i + 1)
  }

  /** No key matching gives no semantic match. */
  lemma NoRuleMatches(rules: seq<SemanticRule>, text: string, lname: string)
    requires forall j :: 0 <= j < |rules| ==> !KeyMatches(rules[j].0, text, lname)
    ensures FirstSemantic(rules, text, lname).None?
  {
  }

  /** The index of the first extension rule whose list holds `ext`, if any. */
  function FirstExtension(rules: seq<ExtensionRule>, ext: string): (r: Option<nat>)
    ensures r.Some? ==> r.value < |rules| && ext in rules[r.value].1
    ensures r.Some? ==> forall j :: 0 <= j < r.value ==> ext !in rules[j].1
    ensures r.None? <==> forall j :: 0 <= j < |rules| ==> ext !in rules[j].1
  {
    if rules == [] then None
    else if ext in rules[0].1 then Some(0)
    else
      match FirstExtension(rules[1..], ext)
      case None => None
      case Some(i) => Some(i + 1)
  }

  /** The folder the extension table assigns to `ext`, or "Others". */
  function ExtensionFolder(rules: seq<ExtensionRule>, ext: string): (folder: string)
    ensures (forall j :: 0 <= j < |rules| ==> ext !in rules[j].1) ==> folder == Others
    ensures forall i :: 0 <= i < |rules| && ext in rules[i].1 && (forall j :: 0 <= j < i ==> ext !in rules[j].1) ==>
              folder == rules[i].0
  {
    match FirstExtension(rules, ext)
    case Some(i) => rules[i].0
    case None => Others
  }

  /** The folder the classifier picks, semantic rules first. */
  function ClassifyFolder(sem: seq<SemanticRule>, exts: seq<ExtensionRule>,
                          text: string, lname: string, ext: string): (folder: string)
    ensures folder == Others
         || (exists i :: 0 <= i < |sem| && folder == sem[i].1)
         || (exists i :: 0 <= i < |exts| && folder == exts[i].0)
  {
    match FirstSemantic(sem, text, lname)
    case Some(i) => sem[i].1
    case None => ExtensionFolder(exts, ext)
  }

  /** A matching semantic rule with no earlier matching rule decides the
      folder, whatever later rules and the extension say. */
  lemma SemanticPrecedence(sem: seq<SemanticRule>, exts: seq<ExtensionRule>,
                           text: string, lname: string, ext: string, i: nat)
    requires i < |sem| && KeyMatches(sem[i].0, text, lname)
    requires forall j :: 0 <= j < i ==> !KeyMatches(sem[j].0, text, lname)
    ensures ClassifyFolder(sem, exts, text, lname, ext) == sem[i].1
  {
  }

  /** With no semantic match, the first extension rule listing `ext` decides
      the folder. */
  lemma ExtensionFallback(sem: seq<SemanticRule>, exts: seq<ExtensionRule>,
                          text: string, lname: string, ext: string, i: nat)
    requires forall j :: 0 <= j < |sem| ==> !KeyMatches(sem[j].0, text, lname)
    requires i < |exts| && ext in exts[i].1
    requires forall j :: 0 <= j < i ==> ext !in exts[j].1
    ensures ClassifyFolder(sem, exts, text, lname, ext) == exts[i].0
  {
  }

  /** With no rule matching at all, the folder is "Others". */
  lemma NoMatchIsOthers(sem: seq<SemanticRule>, exts: seq<ExtensionRule>,
                        text: string, lname: string, ext: string)
    requires forall j :: 0 <= j < |sem| ==> !KeyMatches(sem[j].0, text, lname)
    requires forall j :: 0 <= j < |exts| ==> ext !in exts[j].1
    ensures ClassifyFolder(sem, exts, text, lname, ext) == Others
  {
  }

  /** The folder is "Others" only when no rule matched, unless a rule itself
      names "Others" as its folder. */
  lemma OthersOnlyWithoutMatch(sem: seq<SemanticRule>, exts: seq<ExtensionRule>,
                               text: string, lname: string, ext: string)
    requires forall j :: 0 <= j < |sem| ==> sem[j].1 != Others
    requires forall j :: 0 <= j < |exts| ==> exts[j].0 != Others
    ensures ClassifyFolder(sem, exts, text, lname, ext) == Others <==>
              (forall j :: 0 <= j < |sem| ==> !KeyMatches(sem[j].0, text, lname)) &&
              (forall j :: 0 <= j < |exts| ==> ext !in exts[j].1)
  {
  }
}
