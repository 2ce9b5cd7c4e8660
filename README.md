# Verbose, modelled in Dafny

Verbose is a small web application that solves crossword-style word puzzles.
The user types a pattern of letters and `?` wildcards. The server answers with
every word of the chosen language's word list that fits the pattern, in a
case-insensitive alphabetical order. This project models the core of that
application and proves properties of the model:

- **The solver** (`solver.dfy`, module `Solver`).
  - A typed pattern loses its whitespace and is validated.
  - It is then folded for diacritics and compiled into a whole-string match.
  - Each `?` matches one word character; every other character matches a literal, ignoring case.
  - Solving filters the corpus through that match and returns a set.
- **Language identity and word lists** (`languages.dfy`, module `Languages`).
  - A language's identifier is its code, joined to its region by `-` when there is one.
  - Starting the application for a locale selects that locale's word files by name.
  - Their lines are merged into one set in a loop, and the set is sorted into the solver's word list.
- **The router** (`router.dfy`, module `Router`).
  - The `Accept-Language` header is parsed (section 12.5.4 of RFC 9110, simplified as the application does it) and sorted by quality.
  - A language is negotiated in two passes, exact identifier then primary subtag, falling back to the first supported language.
  - The router needs a non-empty language list with distinct identifiers.
  - The result list of a search is ordered case-insensitively, with ties broken by raw string order.
- **Static files** (`static_files.dfy`, module `StaticFiles`).
  - The guard turns a request path into a file identifier only under `/static/` and without `..`.
  - A ranged read clamps a closed byte range to the data.
- **Support modules.**
  - `text.dfy` (module `Text`): strings, splitting, trimming and Swift's `<` on strings.
  - `sorting.dfy` (module `Sorting`): the unique ascending enumeration of a set under a strict total order, standing for Swift's `sort`.
  - `wrappers.dfy`: `Option`.

What the Unicode tables and the locale database say about a character is an
input, passed as the function-typed fields of `Text.Unicode` and `Text.Locale`:
whitespace, letters, the regular-expression class `\w`, equality ignoring case,
diacritic folding and case-insensitive collation. Every property that needs
more than that states its assumption in its `requires`.

Three behaviours of the code are worth knowing, because they are easy to
misread:

- **Tie order of results.** Among words that compare the same ignoring case, the result ordering puts the one that is smaller under Swift's `<` first (`Sources/App/Application+Router.swift:123-126`, whose comment notes that `compare` alone would put "attic" before "Attic"). So "Attic" comes before "attic" (`Router.TiesBrokenByRawOrder`).
- **Blank lines.** The word list is built from every line of the selected files, as `components(separatedBy: .newlines)` gives them (`Sources/App/SupportedLanguage.swift:97`). Empty lines are not discarded, so an empty string read from a file is a word like any other.
- **The POST handler's API.** It constructs `Pattern(string:)` and calls `solve(pattern:locale:)` with the language's locale (`Sources/App/Application+Router.swift:96,110`). Neither signature exists in `Sources/Solver/Solver.swift`, which takes the locale when the pattern is constructed. `Router.PostResults` composes the Solver module as it is defined: the pattern is built with the language's own `locale` field, then solved, and the results are ordered under that same locale.

`getFileIdentifier`, the negotiation and the ordering are functions, so the
same input always gives the same result. `Languages.LanguageFromArgument` is a
method, but its result is determined too: its postcondition fixes the language
and makes the word list strictly ascending, and by
`Sorting.StrictlyAscendingUnique` there is only one such list for a given set
of words.

## Model

| member | source | states |
|---|---|---|
| `Text.Split` | Sources/App/Application+Router.swift:24-27 | `components(separatedBy:)` yields at least one piece, and the first piece is a prefix of the input |
| `Text.SplitJoin` | Sources/App/Application+Router.swift:24-27 | joining the pieces with the separator gives the input back, so splitting loses nothing |
| `Text.SplitPartsAvoidSeparator` | Sources/App/Application+Router.swift:24-27 | no piece contains the separator |
| `Text.SplitWithoutSeparator` | Sources/App/Application+Router.swift:24-27 | a string without the separator splits into itself alone |
| `Text.SplitAtFirst` | Sources/App/Application+Router.swift:26-29 | when the separator's first character is not in the head, splitting head + separator + tail gives the head, then the pieces of the tail |
| `Text.Trim` | Sources/App/Application+Router.swift:26-28 | `trimmingCharacters(in:)` yields an infix whose ends are not blank, and everything removed is blank |
| `Text.TrimIdempotent` | Sources/App/Application+Router.swift:26-28 | trimming twice is trimming once |
| `Text.TrimWithoutBlanks` | Sources/App/Application+Router.swift:26-28 | a string with no blanks is left unchanged |
| `Solver.RemoveWhitespace` | Sources/Solver/Solver.swift:14 | keeps exactly the non-whitespace characters and is never longer than the input |
| `Solver.RemoveWhitespaceAppend` | Sources/Solver/Solver.swift:14 | whitespace removal distributes over concatenation |
| `Solver.RemoveWhitespaceKeepsSolid` | Sources/Solver/Solver.swift:14 | text without whitespace is unchanged |
| `Solver.FoldDiacritics` | Sources/Solver/Solver.swift:4-6 | folding keeps the length and folds each character under the locale |
| `Solver.Compile` | Sources/Solver/Solver.swift:23 | the compiled expression has one unit per character: `\w` exactly where the text has `?`, otherwise that literal |
| `Solver.MakePattern` | Sources/Solver/Solver.swift:13-28 | a valid pattern has one unit per non-whitespace character and keeps the locale |
| `Solver.MakePatternSucceedsIff` | Sources/Solver/Solver.swift:14-19 | construction succeeds iff there is a non-whitespace character and every one is `?` or a letter; so empty or all-whitespace input fails |
| `Solver.ForeignCharRefused` | Sources/Solver/Solver.swift:18-19 | one non-whitespace character that is neither `?` nor a letter makes construction fail |
| `Solver.HyphenatedPatternRefused` | Sources/Solver/Solver.swift:18-19 | "grand-mother" is refused, because `-` is neither `?` nor a letter |
| `Solver.WhitespaceIgnored` | Sources/Solver/Solver.swift:14 | inserting whitespace anywhere leaves the outcome of construction, verdict and pattern alike, unchanged |
| `Solver.SolidPatternCompiles` | Sources/Solver/Solver.swift:13-26 | a non-empty text of `?` and letters without whitespace, left alone by folding, compiles character by character |
| `Solver.CompileExample` | Sources/Solver/Solver.swift:23 | "a?b?" compiles to literal, wildcard, literal, wildcard |
| `Solver.ExamplePatternCompiles` | Sources/Solver/Solver.swift:13-28 | "a?b?" is accepted as a pattern and compiles to literal, wildcard, literal, wildcard, given the facts about its characters |
| `Solver.WildcardPatternExample` | Sources/Solver/Solver.swift:13-33 | "a?b?" accepts "axby", given the facts about those characters |
| `Solver.WholeMatchIff` | Sources/Solver/Solver.swift:31 | a whole match means equal length, with every unit accepting the character at its position |
| `Solver.MatchesIff` | Sources/Solver/Solver.swift:30-33 | a word matches iff its folded form has the pattern's length, has a word character under each `?`, and elsewhere equals the folded pattern ignoring case |
| `Solver.MatchIsAnchored` | Sources/Solver/Solver.swift:31 | a word whose length differs from the pattern's never matches, so matches are anchored at both ends |
| `Solver.WildcardMatchesOneWordChar` | Sources/Solver/Solver.swift:23-31 | under a `?`, a matching word keeps matching when that character is replaced by one that folds to a word character, and only then |
| `Solver.FoldedCaselessEqualPatternsAgree` | Sources/Solver/Solver.swift:23-31 | patterns whose folded texts agree ignoring case accept the same words (e.g. "café" and "CAFE" under a folding locale) |
| `Solver.MatchingWords` | Sources/Solver/Solver.swift:44 | the filter keeps exactly the corpus words the pattern matches |
| `Solver.Solve` | Sources/Solver/Solver.swift:43-45 | the result holds exactly the matching corpus words and is no larger than the corpus; so an empty corpus gives an empty set |
| `Solver.SolveDependsOnlyOnWordSet` | Sources/Solver/Solver.swift:43-45 | solving depends only on which words the corpus holds |
| `Sorting.SortedEnumeration` | Sources/App/SupportedLanguage.swift:100-101 | sorting a set gives each element exactly once, in strictly ascending order |
| `Sorting.StrictlyAscendingUnique` | Sources/App/SupportedLanguage.swift:100-101 | two strictly ascending sequences with the same elements are equal, so the sorted list does not depend on the set's enumeration order |
| `Languages.MakeSupportedLanguage` | Sources/App/SupportedLanguage.swift:42-58 | with a region, the identifier is code + "-" + region and the region is kept; without one, the identifier is the code and there is no region; the language code is always the bare code; the locale and the solver are kept as given |
| `Languages.PrimarySubtagOfIdentifier` | Sources/App/Application+Router.swift:43-45 | the part of an identifier before its first `-` is the language code, so "en-US" falls back to "en" |
| `Languages.IdentifierDeterminesCodes` | Sources/App/SupportedLanguage.swift:50-58 | equal identifiers mean equal language codes and regions |
| `Languages.SelectWordFiles` | Sources/App/SupportedLanguage.swift:82-89 | with a region, exactly the files named `<lang>_<REGION>.txt` are selected; without one, exactly those whose names start with `<lang>_` |
| `Languages.WordSetMembers` | Sources/App/SupportedLanguage.swift:92-98 | the union holds a word iff some readable file has it as a line |
| `Languages.StringLessIsStrictTotalOrder` | Sources/App/SupportedLanguage.swift:100-101 | Swift's `<` on strings is a strict total order |
| `Languages.LanguageFromArgument` | Sources/App/SupportedLanguage.swift:71-104 | fails exactly when the language code, the localisations or the word files are missing, no file is selected, or a selected file is unreadable; otherwise the word list is the union of the selected files' lines, without duplicates and strictly ascending, and the language is built from the argument's locale, code and region |
| `Router.QualityOf` | Sources/App/Application+Router.swift:29 | the quality is the parsed value after `;q=` when present and parsable, otherwise 1.0 |
| `Router.ParseRange` | Sources/App/Application+Router.swift:25-31 | the parsed tag is trimmed at both ends |
| `Router.RangeWithQuality` | Sources/App/Application+Router.swift:25-29 | an element that trims to tag + ";q=" + quality, the tag without `;`, parses to the trimmed tag with the parsed quality, or 1.0 when it does not parse |
| `Router.RangeWithoutQuality` | Sources/App/Application+Router.swift:26-29 | an element without `;q=` is its trimmed self with quality 1.0 |
| `Router.UnparsableQualityIsOne` | Sources/App/Application+Router.swift:29 | an unparsable quality counts as 1.0 |
| `Router.ParseRanges` | Sources/App/Application+Router.swift:25-31 | one parsed range per element, in order |
| `Router.ParseAcceptLanguage` | Sources/App/Application+Router.swift:22-31 | one range per comma-separated element of the header, in order |
| `Router.SingleTagParses` | Sources/App/Application+Router.swift:22-31 | a header that is one tag without commas, semicolons or blanks parses to that tag with quality 1.0 |
| `Router.InsertByQuality` | Sources/App/Application+Router.swift:32 | inserting into a list sorted by descending quality keeps it sorted, and the result starts with the new range or the old head |
| `Router.InsertByQualityAddsOne` | Sources/App/Application+Router.swift:32 | inserting adds exactly the new range to the multiset of ranges and loses none |
| `Router.SortByQuality` | Sources/App/Application+Router.swift:32 | the ranges are in descending quality and form a permutation of the input |
| `Router.FirstIndex` | Sources/App/Application+Router.swift:35-47 | the search stops at the first element the test accepts, having rejected every earlier one, and runs off the end only when it accepts none |
| `Router.FirstIndexFinds` | Sources/App/Application+Router.swift:37 | when some element is accepted, the search stops inside the list, so `first { … }!` never unwraps nil after a membership check |
| `Router.FirstWithIdentifier` | Sources/App/Application+Router.swift:37 | the force-unwrap cannot fail: the result is a supported language with that identifier |
| `Router.FirstWithIdentifierIsFirst` | Sources/App/Application+Router.swift:37 | the language found is the earliest in the list with that identifier |
| `Router.FirstWithLanguageCode` | Sources/App/Application+Router.swift:45 | the force-unwrap cannot fail: the result is a supported language with that code |
| `Router.FirstWithLanguageCodeIsFirst` | Sources/App/Application+Router.swift:45 | the language found is the earliest in the list with that language code |
| `Router.ExactPass` | Sources/App/Application+Router.swift:35-39 | finds nothing iff no tag is a supported identifier; otherwise returns a supported language whose identifier is the tag of a range that no earlier range beats to an exact match |
| `Router.PrimaryPass` | Sources/App/Application+Router.swift:42-47 | finds nothing iff no tag's primary subtag is a supported code; otherwise returns a supported language whose code is the primary subtag of a range that no earlier range beats to such a match |
| `Router.FirstHitHasTopQuality` | Sources/App/Application+Router.swift:32-47 | in the list sorted by quality, the range a pass stops at has the highest quality among all ranges that pass accepts |
| `Router.NegotiateRanges` | Sources/App/Application+Router.swift:32-49 | the negotiated language is always one of the supported languages |
| `Router.NegotiateLanguage` | Sources/App/Application+Router.swift:16-50 | for a non-empty list, the result is always a member of it |
| `Router.ExactMatchWins` | Sources/App/Application+Router.swift:32-39 | if any tag is an exact identifier, that identifier wins over any primary-subtag match; it is named by an exact range of highest quality |
| `Router.PrimaryMatchFallback` | Sources/App/Application+Router.swift:42-47 | with no exact match, the language whose code is the primary subtag of a highest-quality such range wins |
| `Router.NoMatchFallsBackToFirst` | Sources/App/Application+Router.swift:49 | with no match of either kind, the first supported language is returned |
| `Router.LoneExactRangeSelects` | Sources/App/Application+Router.swift:35-38 | with unique identifiers, a lone range naming an identifier selects that very language |
| `Router.IdentifierNegotiatesToItself` | Sources/App/Application+Router.swift:16-50 | a header that is just a supported identifier negotiates to that language |
| `Router.IdentifierCount` | Sources/App/Application+Router.swift:56-58 | there are never more identifiers than languages, and exactly as many iff they are pairwise distinct |
| `Router.RouterPreconditionsIff` | Sources/App/Application+Router.swift:55-59 | the router's preconditions hold iff the list is non-empty with pairwise-distinct identifiers |
| `Router.ResultOrderIsStrictTotal` | Sources/App/Application+Router.swift:120-130 | the result comparator is a strict total order when the case-insensitive compare is a total preorder |
| `Router.OrderResults` | Sources/App/Application+Router.swift:120-130 | the result list holds each result exactly once, ascending by case-insensitive compare, with ties ascending by `<` |
| `Router.TiesBrokenByRawOrder` | Sources/App/Application+Router.swift:123-126 | "Attic" and "attic", equal ignoring case, are listed as "Attic" then "attic" |
| `Router.PostResults` | Sources/App/Application+Router.swift:94-130 | an invalid pattern, under the language's own locale, gives no list; otherwise the list holds exactly the language's words that the pattern matches, in result order under that locale |
| `StaticFiles.GetFileIdentifier` | Sources/App/StaticFileProvider.swift:31-49 | an identifier exists iff the path starts with "/static/", the rest has no "..", and the URL path stays under root + "/static/"; it is then root + "/" + the path without its leading slash |
| `StaticFiles.IdentifierStaysUnderStatic` | Sources/App/StaticFileProvider.swift:41-48 | every identifier starts with root + "/static/", and the part below the root has no ".." |
| `StaticFiles.FinalCheckRedundantForPlainPaths` | Sources/App/StaticFileProvider.swift:41-46 | when URL paths are taken verbatim, the final prefix check refuses nothing the first two guards let through |
| `StaticFiles.StaticFileIdentifier` | Sources/App/StaticFileProvider.swift:36-48 | a name without ".." under "/static/" maps to root + "/static/" + name, e.g. "/test/bundle/static/styles.css" |
| `StaticFiles.WordListNotServed` | Sources/App/StaticFileProvider.swift:32-34 | "/words-en.txt" is refused |
| `StaticFiles.TraversalRefused` | Sources/App/StaticFileProvider.swift:36-39 | "/static/../words-en.txt" is refused |
| `StaticFiles.LoadRange` | Sources/App/StaticFileProvider.swift:79-83 | the read succeeds iff the lower bound indexes the data; it then returns the bytes from the lower bound through the upper bound or the last byte, whichever comes first |
| `StaticFiles.LoadRangeClampsAtEnd` | Sources/App/StaticFileProvider.swift:80-82 | a range reaching the last byte or beyond returns everything from the lower bound on |
| `StaticFiles.LoadRangeInside` | Sources/App/StaticFileProvider.swift:79-82 | a range inside the data returns exactly the bytes from lowerBound through upperBound |
| `StaticFiles.LoadRangeAdjacent` | Sources/App/StaticFileProvider.swift:79-82 | two adjacent ranges read the same bytes as the range spanning both |

## Left out

- File and bundle I/O are inputs, not modelled. This covers reading word files, `getAttributes`, the unranged `loadFile`, `Bundle` lookups and the loading of the localisations. A word file is a name plus its lines, or nothing when it cannot be read. Its lines are taken as `components(separatedBy: .newlines)` gives them.
- Unicode and locale behaviour are inputs. This covers whitespace and letter classes, `\w`, equality ignoring case, diacritic folding and case-insensitive collation. Folding is modelled one character at a time; multi-character foldings and case mappings are not modelled. Characters are Dafny `char`s, not grapheme clusters.
- `Locale` parsing of the command-line argument is not modelled. The model starts from the parsed locale, its language code and its region.
- Localised names, `Lingo`, and the `precondition`s of `init(locale:solver:lingo:)` that concern them are not modelled; they are a foreign library.
- `Solver.MakePattern`: the model takes regular-expression compilation of the folded text as always succeeding. The code's `try? Regex(...)` guard has no modelled failure case.
- `Router.QualityOf`: `Double` parsing is the input `parseQuality`. Qualities are `real`s, so NaN and infinities are not modelled.
- `Router.SortByQuality`: it is a stable insertion sort, whereas Swift's `sorted(by:)` leaves the order of equal qualities to the library. No property relies on the order of ties.
- `Sorting.SortedEnumeration`: the in-place `sort()` of the word list and `sorted` of the results are modelled by the unique strictly ascending enumeration of the set. The algorithm and its in-place updates are not modelled.
- `Text.StringLess`: Swift's `<` on strings is modelled as lexicographic order on characters, without Unicode canonical equivalence.
- `StaticFiles.GetFileIdentifier`: what `URL(fileURLWithPath:).path` does to a path is the input `urlPath`.
- `StaticFiles.LoadRange`: when the lower bound is not an index of the data, the Swift subscript traps; the model returns `None` for that case.
- Route registration, middleware, HTML rendering, timing, `totalWords` and the startup code are not modelled.
- `Application+Build.swift` is not part of this model.
