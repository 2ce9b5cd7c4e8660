/**
 * A supported language and the assembly of its word list
 * (Sources/App/SupportedLanguage.swift).
 *
 * The parsed locale (its language code and optional region) and the bundle's
 * word files are inputs: a file is its name and, when it could be read, its
 * lines.
 */
module Languages {
  import opened Wrappers
  import opened Text
  import Solver
  import Sorting

  datatype SupportedLanguage = SupportedLanguage(
    identifier: string,          // e.g. "en-NZ"
    languageCode: string,        // e.g. "en"
    regionCode: Option<string>,  // e.g. Some("NZ")
    locale: Locale,              // folds candidates and collates results
    solver: Solver.Solver
  )

  /**
   * `init(locale:solver:lingo:)`: the locale and solver are kept; the
   * identifier is the locale's language code, joined to its region by `-`
   * when there is one.
   */
  function MakeSupportedLanguage(languageCode: string, region: Option<string>, locale: Locale,
                                 solver: Solver.Solver): (r: SupportedLanguage)
    ensures r.languageCode == languageCode && r.regionCode == region
    ensures r.locale == locale && r.solver == solver
    ensures region.Some? ==> r.identifier == languageCode + "-" + region.value
    ensures region.None? ==> r.identifier == languageCode
  {
    match region
    case Some(code) => SupportedLanguage(languageCode + "-" + code, languageCode, region, locale, solver)
    case None => SupportedLanguage(languageCode, languageCode, None, locale, solver)
  }

  /** The part of a language tag before its first `-`. */
  function PrimarySubtag(tag: string): string {
    Split(tag, "-")[0]
  }

  /** The primary subtag of a language's identifier is its bare language code. */
  lemma PrimarySubtagOfIdentifier(languageCode: string, region: Option<string>, locale: Locale, solver: Solver.Solver)
    requires '-' !in languageCode
    ensures PrimarySubtag(MakeSupportedLanguage(languageCode, region, locale, solver).identifier) == languageCode
  {
    match region
    case Some(code) => SplitHead(languageCode, "-", code);
    case None =>
      NoFirstCharNoOccurrence(languageCode, "-");
      SplitWithoutSeparator(languageCode, "-");
  }

  /** Distinct language codes and regions give distinct identifiers. */
  lemma IdentifierDeterminesCodes(code1: string, region1: Option<string>, code2: string, region2: Option<string>,
                                  locale1: Locale, locale2: Locale, solver1: Solver.Solver, solver2: Solver.Solver)
    requires '-' !in code1 && '-' !in code2
    requires MakeSupportedLanguage(code1, region1, locale1, solver1).identifier
          == MakeSupportedLanguage(code2, region2, locale2, solver2).identifier
    ensures code1 == code2 && region1 == region2
  {
    PrimarySubtagOfIdentifier(code1, region1, locale1, solver1);
    PrimarySubtagOfIdentifier(code2, region2, locale2, solver2);
    var id := MakeSupportedLanguage(code1, region1, locale1, solver1).identifier;
    if region1.Some? && region2.Some? {
      assert id[|code1| + 1..] == region1.value;
      assert id[|code1| + 1..] == region2.value;
    } else {
      assert region1.Some? ==> |id| > |code1|;
      assert region2.Some? ==> |id| > |code2|;
    }
  }

  /** A word file of the bundle: its name, and its lines when it could be read. */
  datatype WordFile = WordFile(name: string, lines: Option<seq<string>>)

  /** With a region only `<lang>_<REGION>.txt` is wanted; without one, every `<lang>_…` file. */
  predicate IsSelected(languageCode: string, region: Option<string>, file: WordFile) {
    match region
    case Some(code) => file.name == languageCode + "_" + code + ".txt"
    case None => HasPrefix(file.name, languageCode + "_")
  }

  /** The `filter` over the bundle's word files, in bundle order. */
  function SelectWordFiles(languageCode: string, region: Option<string>, files: seq<WordFile>): (r: seq<WordFile>)
    ensures |r| <= |files|
    ensures forall f :: f in r <==> f in files && IsSelected(languageCode, region, f)
  {
    if files == [] then []
    else if IsSelected(languageCode, region, files[0]) then [files[0]] + SelectWordFiles(languageCode, region, files[1..])
    else SelectWordFiles(languageCode, region, files[1..])
  }

  /** The lines of a readable file, as a set. */
  function LineSet(file: WordFile): set<string> {
    match file.lines
    case Some(lines) => set l | l in lines
    case None => {}
  }

  /** The union of the lines of the files, as built up by `formUnion` one file after the other. */
  function WordSet(files: seq<WordFile>): set<string>
  {
    if files == [] then {} else WordSet(files[..|files| - 1]) + LineSet(files[|files| - 1])
  }

  /** A word is in the union exactly when some readable file has it as a line. */
  lemma {:induction false} WordSetMembers(files: seq<WordFile>, w: string)
    ensures w in WordSet(files) <==> exists f :: f in files && f.lines.Some? && w in f.lines.value
  {
    if files != [] {
      var init := files[..|files| - 1];
      WordSetMembers(init, w);
      assert files == init + [files[|files| - 1]];
      if exists f :: f in files && f.lines.Some? && w in f.lines.value {
        var f :| f in files && f.lines.Some? && w in f.lines.value;
        if f != files[|files| - 1] { assert f in init; }
      }
    }
  }

  /** Swift's `<` on strings orders them strictly and totally. */
  lemma StringLessIsStrictTotalOrder()
    ensures Sorting.StrictTotalOrder(StringLess)
  {
    forall x ensures !StringLess(x, x) { StringLessIrreflexive(x); }
    forall x, y, z | StringLess(x, y) && StringLess(y, z) ensures StringLess(x, z) {
      StringLessTransitive(x, y, z);
    }
    forall x, y | x != y ensures StringLess(x, y) || StringLess(y, x) { StringLessTotal(x, y); }
  }

  /**
   * `init?(argument:)`: selects the word files of the locale, merges their
   * lines into one set, sorts it and builds the language. It fails when the
   * locale has no language code, the localisations cannot be loaded, the
   * bundle has no word files, no file is selected or a selected file cannot be
   * read.
   */
  method LanguageFromArgument(locale: Locale, languageCode: Option<string>, region: Option<string>,
                              localisationsLoaded: bool, wordFiles: Option<seq<WordFile>>)
    returns (r: Option<SupportedLanguage>)
    ensures r.None? <==>
      || languageCode.None? || !localisationsLoaded || wordFiles.None?
      || SelectWordFiles(languageCode.value, region, wordFiles.value) == []
      || exists f :: f in SelectWordFiles(languageCode.value, region, wordFiles.value) && f.lines.None?
    ensures r.Some? ==>
      var selected := SelectWordFiles(languageCode.value, region, wordFiles.value);
      var words := r.value.solver.words;
      && r.value == MakeSupportedLanguage(languageCode.value, region, locale, Solver.Solver(words))
      && (forall w :: w in words <==> exists f :: f in selected && f.lines.Some? && w in f.lines.value)
      && Sorting.StrictlyAscending(words, StringLess)
  {
    if languageCode.None? || !localisationsLoaded || wordFiles.None? {
      return None;
    }
    var code := languageCode.value;
    var matching := SelectWordFiles(code, region, wordFiles.value);
    if |matching| == 0 {
      return None;
    }

    var wordSet: set<string> := {};
    var i := 0;
    while i < |matching|
      invariant 0 <= i <= |matching|
      invariant forall k :: 0 <= k < i ==> matching[k].lines.Some?
      invariant wordSet == WordSet(matching[..i])
    {
      var file := matching[i];
      if file.lines.None? {
        return None;
      }
      wordSet := wordSet + set l | l in file.lines.value;
      assert matching[..i + 1][..i] == matching[..i];
      i := i + 1;
    }
    assert matching[..i] == matching;

    StringLessIsStrictTotalOrder();
    var words := Sorting.SortedEnumeration(wordSet, StringLess);
    forall w ensures w in words <==> exists f :: f in matching && f.lines.Some? && w in f.lines.value {
      WordSetMembers(matching, w);
    }
    r := Some(MakeSupportedLanguage(code, region, locale, Solver.Solver(words)));
  }
}
